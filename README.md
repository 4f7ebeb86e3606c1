# statusbar-kanban in Dafny

A model of the logic behind the statusbar-kanban editor extension. The
extension polls three sources and shows their state in the status bar:

- stock quotes from the Sina quote feed;
- open merge requests of GitLab projects;
- ZenTao tasks assigned to the user.

The model covers what the extension computes from its inputs and how its
services change state. It leaves out how that state is drawn. Network
replies, the clock and the user's settings are parameters of each
operation.

| file | module | models |
|---|---|---|
| `wrappers.dfy` | `Wrappers` | `Option` and `Result` |
| `strings.dfy` | `Strings` | JavaScript `split`, `join`, replace-all and `String(n)`; templates as literal pieces and `{name}` slots |
| `number_format.dfy` | `NumberFormat` | `toFixed` (src/utils.ts, and its copy in src/fetchData.ts) as prefix matching; `getTodayDate` |
| `quote_feed.dfy` | `QuoteFeed` | the quote request URL and the feed parser of src/fetchData.ts (src/shared/fetchData.ts:17-35 parses the same way) |
| `global_state.dfy` | `Store` | the extension's persisted key-value store, as a class over a map |
| `holiday.dfy` | `Holiday` | `getHolidayData` and `isClosed` of src/shared/getHoliday.ts |
| `stock_bar.dfy` | `StockBar` | src/extension.ts: trading-hours gate, alias, template fill, bar text, sign, refresh cycle |
| `zentao.dfy` | `Zentao` | `ZentaoService`: settings, session cookie, login, task page, task count, bar text |
| `uri_encoding.dfy` | `UriEncoding` | `encodeURIComponent`: UTF-8 bytes, then percent-encoding |
| `gitlab.dfy` | `Gitlab` | `GitlabMergeRequestsService`: API URLs, flatten, newest-first sort, new-item detection, count text, tooltip |

Classes model the two services and the stock bar, whose fields the source
updates in place. Most methods state the service's whole new state in
terms of specification functions, and lemmas prove what those functions
mean. Four methods state only part of it and leave the rest to the method
they call: `Gitlab.GitlabMergeRequestsService.Start` and `TimerFired`,
`StockBar.StockBarState.OnConfigurationChange` and
`Zentao.ZentaoService.OnConfigurationChange` (see "Left out"). The zentao task count is a method with a loop and recursion, as in
the source. It is proved equal to a count over the flattened task tree.
The merge-request sort is an insertion pass over a sequence, proved equal
to a stable newest-first insertion sort.

The model follows the code as written, including these behaviours:

- **Stock gate.** The off-hours test `hour > 15 && minute > 10` lets
  16:05 through and skips 16:11.
- **Market-closed test.** `isClosed` returns true at every time of day.
  The two trading windows do not overlap, and the test asks whether the
  time lies outside at least one of them.
- **GitLab timers.** The abort signal is passed to the GitLab timer as its
  value, not in its options, so it cancels nothing. Every `start` adds one
  more polling timer.
- **Credential change in ZenTao.** This resets only the login-failed flag,
  and only when both account and password are set and differ from the
  last ones. The session cookie is kept, under a key derived from the
  account.
- **Quote template placeholders and aliases.** The bar text fill and the
  alias lookup read names from plain objects. So `{constructor}`,
  `{toString}` and the other inherited member names are written as the
  member's native function text. A quote code such as `__proto__` or
  `__defineGetter__` with no alias configured shows `[object Object]` or
  the native function text in place of the stock's name.
- **ZenTao user with a missing field.** The `start` guard compares account
  and password with `''`. A settings object that lacks one of them passes
  the guard. A missing account keeps the session under
  `zentao-cookie:undefined` and is posted as the text `undefined`. A
  missing password keeps the session under `zentao-cookie:<account>` and
  is posted as the salted `md5` of `undefined`.
- **ZenTao polling stops.** A timer cycle that finds the service
  unconfigured, or whose login request is rejected, arms no new timer.
  Polling then stays stopped until the settings change.
- **`toFixed` pattern.** The dot in `toFixed`'s pattern is unescaped and
  matches any character except a line terminator. Fraction digits are
  truncated, not rounded.
- **GitLab project id.** The numeric-id test is redundant:
  `encodeURIComponent` leaves digit strings unchanged.

## Model

| member | source | states |
|---|---|---|
| Strings.JoinSplit | src/shared/gitlab.ts:123 | joining the parts of a split with the same separator gives the text back |
| Strings.SplitJoin | src/fetchData.ts:31 | splitting a join of separator-free parts gives the parts back |
| Strings.ReplaceSlot | src/shared/zentao.ts:156 | replacing every `{k}` in a template of literal text and slots fills exactly the `k` slots and keeps everything else |
| Strings.NatToStringRoundTrip | src/shared/zentao.ts:156 | `String(n)` reads back as `n` and has no leading zero unless `n` is 0 |
| Store.GlobalState.Update | src/shared/getHoliday.ts:63 | storing a value changes that key only, and the holiday key still holds a date list |
| NumberFormat.ToFixedLongestMatch | src/utils.ts:4-9 | with a leading integer, the result is a prefix of the input that matches `^-?\d+(?:.\d{0,fixed})?`, and no longer prefix matches |
| NumberFormat.NoLongerMatch | src/utils.ts:4-5 | no prefix longer than the match end matches the pattern |
| NumberFormat.ToFixedFallback | src/utils.ts:6-8 | without a leading integer no prefix matches, and the input is handed on whole |
| NumberFormat.ToFixedIdempotent | src/utils.ts:3-10 | applying `toFixed` to its own result changes nothing |
| NumberFormat.ToFixedKeepsFractionPrefix | src/utils.ts:4 | digits, one separator character and digits keep at most `fixed` fraction digits: truncation, not rounding |
| NumberFormat.ToFixedTruncates | src/utils.ts:4-9 | `"12.345"` gives `"12.34"`, and `"12a345"` gives `"12a34"` because the dot is unescaped |
| NumberFormat.TodayDateFields | src/utils.ts:13-16 | the date text has three `-`-separated decimal fields reading year, month index + 1 and day |
| QuoteFeed.RequestUrlLists | src/fetchData.ts:16 | the URL is the feed prefix followed by the comma-joined codes, which split back into the codes |
| QuoteFeed.MatchAtShape | src/fetchData.ts:26 | a match at a position has the marker before it, a word-character code, `="`, and non-empty quote-free content |
| QuoteFeed.FindFromLeftmost | src/fetchData.ts:26 | the match found is the leftmost position where the pattern matches; when none is found, it matches nowhere |
| QuoteFeed.MatchFeedLine | src/fetchData.ts:26-30 | a `var hq_str_<code>="<fields>"` statement is matched with its code and its comma-joined fields |
| QuoteFeed.MatchAtStatement | src/fetchData.ts:26 | in a statement the pattern matches right after the marker and at no earlier position |
| QuoteFeed.ParseFeedLine | src/fetchData.ts:30-43 | with 10 or more fields a statement gives its record; with fewer, reading field 9 fails and the parse is an error |
| QuoteFeed.ParseLinesCount | src/fetchData.ts:25-29 | the parse gives one record per matching line and at most one per line |
| QuoteFeed.ParseLinesAppend | src/fetchData.ts:25 | parsing concatenated lines concatenates the records, and an error in either part is the result |
| QuoteFeed.ParseStatementLines | src/fetchData.ts:25-44 | well-formed statements parse to their records, in order |
| QuoteFeed.ParseFeedStatements | src/fetchData.ts:24-44 | a feed of well-formed statements joined by newlines parses to their records, in order |
| Holiday.HolidayFlaggedAppend | src/shared/getHoliday.ts:46 | the holiday dates keep the order of their entries |
| Holiday.GetHolidayDataMembers | src/shared/getHoliday.ts:44-53 | a date is returned iff the reply succeeded with code 0 and an entry with that date is flagged as a holiday |
| Holiday.FlaggedMembers | src/shared/getHoliday.ts:46 | a date is among the flagged dates iff some entry with that date is flagged |
| Holiday.WindowTestAlwaysHolds | src/shared/getHoliday.ts:70-79 | the window test as written holds at every time of day |
| Holiday.IsClosed | src/shared/getHoliday.ts:56-84 | the holiday list is fetched and stored only when the stored list is empty; the result is the holiday, weekend or window test, and it is always true |
| StockBar.GateExamples | src/extension.ts:49-54 | 16:05 and 20:00 on a weekday pass; 16:11 and 8:59 are skipped; the first run never skips; weekends always skip |
| StockBar.WeekdayGate | src/extension.ts:49-54 | on a weekday after the first run: before 09:00 every cycle skips, from 09:00 to 15:59 every cycle runs, and from 16:00 a cycle runs iff the minute is at most 10 |
| StockBar.AliasChoice | src/extension.ts:38-43 | a mapped code shows its alias when that is non-empty and the feed's name otherwise; an unmapped code shows the feed's name, unless it names an inherited member, which shows that member's text; without a map the feed's name is shown |
| StockBar.AliasInheritedExample | src/extension.ts:38-43 | with an empty map, the code `__proto__` shows `[object Object]`, not the feed's name |
| StockBar.FillSkips | src/extension.ts:64-67 | text without `{` is copied unchanged |
| StockBar.FillSlot | src/extension.ts:64-67 | a `{letters}` placeholder is replaced by its value, and the scan goes on after it |
| StockBar.FillTemplateSpelled | src/extension.ts:64-67 | filling a template of literal text and slots replaces each slot by its value and keeps all literal text |
| StockBar.FillLone | src/extension.ts:64-67 | a template that is one placeholder becomes that placeholder's value |
| StockBar.FillPriceExample | src/extension.ts:59-67 | `{price}` becomes the price figure |
| StockBar.FillUnknownExample | src/extension.ts:64-67 | `{Price}` is not a figure name and stays as written |
| StockBar.BarTextCons | src/extension.ts:58-68 | the bar text is the first quote's entry, then the separator and the rest, in quote order |
| StockBar.SignSymbolUp | src/extension.ts:103 | the up symbol is chosen iff the number is positive; zero gets the down symbol |
| StockBar.StockBarState.constructor | src/extension.ts:5-9 | the bar starts empty with no timer |
| StockBar.StockBarState.UpdateStatusBarItem | src/extension.ts:25-75 | a skipped cycle re-arms a 30 s timer; no stocks means no request and no timer; otherwise the URL is requested, the text is set on a parsed reply and the interval timer is armed |
| StockBar.StockBarState.OnConfigurationChange | src/extension.ts:12-17 | a settings change refreshes as a first run: it requests when stocks are set and never skips |
| Zentao.StateKeyDistinct | src/shared/zentao.ts:245-247 | two users share a state key iff their accounts read the same as text; two present accounts share one iff they are equal; a missing user and a missing account both read as `undefined`; no key is the holiday key |
| Zentao.StateKeyNotHoliday | src/shared/zentao.ts:245-247 | a session key never overwrites the holiday list |
| Zentao.CookiePair | src/shared/zentao.ts:241 | the pair is the `;`-free text of an entry before its first `;` |
| Zentao.DedupElements | src/shared/zentao.ts:242 | removing repeats keeps exactly the elements of the list |
| Zentao.DedupDistinct | src/shared/zentao.ts:242 | after removing repeats no element occurs twice |
| Zentao.DedupPrefix | src/shared/zentao.ts:242 | removing repeats keeps first-occurrence order, so a longer input extends the result |
| Zentao.DedupOfDistinct | src/shared/zentao.ts:242 | a list without repeats is kept as it is |
| Zentao.SetCookieEntriesAppend | src/shared/zentao.ts:241 | the `set-cookie` entries of several responses come response by response |
| Zentao.GetCookieMerge | src/shared/zentao.ts:239-243 | merging two responses keeps the first response's pairs in front; the result has no repeats and no `;` and holds exactly the pairs of either response |
| Zentao.NodesMembers | src/shared/zentao.ts:141-152 | the visited tasks are exactly the listed tasks and their descendants |
| Zentao.NodesAppend | src/shared/zentao.ts:142 | visiting two lists visits the first, then the second |
| Zentao.StatusCountMultiplicity | src/shared/zentao.ts:143-147 | a status count is the number of visited tasks with that status |
| Zentao.StatusCountAppend | src/shared/zentao.ts:141-152 | counts over two lists add up |
| Zentao.StatusCountsBounded | src/shared/zentao.ts:143-147 | each task counts as waiting or doing at most once |
| Zentao.CountTasks | src/shared/zentao.ts:137-154 | the recursive counting loop yields the number of waiting and of doing tasks in the whole tree |
| Zentao.BarTextSpelled | src/shared/zentao.ts:156 | the bar text fills the `{wait}` and `{doing}` slots with the counts and keeps everything else |
| Zentao.DefaultTplText | src/shared/zentao.ts:236 | the default template shows `$(tasklist) <wait> / <doing>` |
| Zentao.TwoSlotTemplate | src/shared/zentao.ts:156 | a template of text, `{wait}`, text and `{doing}` shows both counts in place |
| Zentao.CredentialsChangedCases | src/shared/zentao.ts:96-99 | the same user never counts as changed; a missing or empty account or password never resets the flag; a first complete user always does |
| Zentao.MissingFieldsPassGuard | src/shared/zentao.ts:116 | a user lacking both fields passes the `=== ''` guard, shares the missing user's session key, logs in as `undefined` and never clears a failed login; an empty account is stopped |
| Zentao.ZentaoService.constructor | src/shared/zentao.ts:66-78 | no cookie, URL, user or text; no failed login; no timer |
| Zentao.ZentaoService.UpdateConfig | src/shared/zentao.ts:231-237 | a missing URL reads as empty; a missing or empty template falls back to the default; the user and interval are taken as set |
| Zentao.ZentaoService.Login | src/shared/zentao.ts:191-229 | an unreachable server gives no cookie; otherwise the salted double-md5 login is posted, and the flag records whether the success marker was absent |
| Zentao.ZentaoService.GetTaskList | src/shared/zentao.ts:161-189 | an expired-session page clears the cookie in memory and in the store; otherwise the extracted tasks are returned and nothing else changes |
| Zentao.ZentaoService.UpdateStatusBar | src/shared/zentao.ts:136-159 | without a cookie nothing is fetched and the text shows zero counts; a failed fetch leaves the text; otherwise the text shows the page's counts and an expired session is cleared |
| Zentao.ZentaoService.Start | src/shared/zentao.ts:107-134 | unconfigured: nothing happens; otherwise the stored session is loaded, a login is attempted only without one and without an earlier failure, its cookie is stored, the bar is refreshed and the timer is armed; a rejected login request arms no new timer |
| Zentao.ZentaoService.TimerFired | src/shared/zentao.ts:128-133 | the fired timer reruns `start()` with the state `Start` gives; a timer is pending afterwards iff the service is configured and no login request was rejected, so polling otherwise stops |
| Zentao.ZentaoService.OnConfigurationChange | src/shared/zentao.ts:92-104 | the settings are reread; the failure flag is cleared only when the credentials changed, unless a login then runs and sets it from the reply; whether a login is attempted; the old timer is cancelled, and a new one is armed when configured unless the login request fails |
| UriEncoding.Utf8CharRoundTrip | src/shared/gitlab.ts:90 | each character's UTF-8 bytes decode back to its code point, with a lead byte of the right kind and continuation bytes after it |
| UriEncoding.PercentRoundTrip | src/shared/gitlab.ts:90 | percent-decoding the encoded text gives exactly the encoded bytes |
| UriEncoding.EncodeUriComponentRoundTrip | src/shared/gitlab.ts:90 | `encodeURIComponent(id)` decodes back to the UTF-8 bytes of `id` |
| UriEncoding.EncodeUriComponentSafe | src/shared/gitlab.ts:90-91 | the encoding holds only unreserved characters, `%` and hex digits, so no `/`, `?`, `#` or `&` |
| UriEncoding.EncodeUnreserved | src/shared/gitlab.ts:90 | text of unreserved characters is encoded as itself |
| UriEncoding.Utf8EncodeAppend | src/shared/gitlab.ts:90 | UTF-8 encoding is character by character |
| UriEncoding.PercentBytesAppend | src/shared/gitlab.ts:90 | percent-encoding is byte by byte |
| UriEncoding.EncodeNamespacedId | src/shared/gitlab.ts:90 | `group/project` is encoded part by part with the slash written `%2F` |
| Gitlab.ProjectSegmentIsEncoding | src/shared/gitlab.ts:90 | the id segment always equals `encodeURIComponent(id)` and never holds `/` |
| Gitlab.ApiUrlParts | src/shared/gitlab.ts:91 | the URL is the base, the projects path, the encoded id and the open-state query, and the id decodes back from it |
| Gitlab.ApiUrls | src/shared/gitlab.ts:89-97 | one request URL per configured project, in order |
| Gitlab.FlattenContents | src/shared/gitlab.ts:108-109 | the count is the sum of the list lengths, and the flat list holds exactly the projects' merge requests |
| Gitlab.Insert | src/shared/gitlab.ts:112-114 | inserting into a newest-first list keeps it newest first, adds exactly the one element and puts it first only when it is strictly newer |
| Gitlab.SortNewestFirst | src/shared/gitlab.ts:112-114 | the sorted list is newest first and a permutation of the flat list |
| Gitlab.NewestIndexIsFirstNewest | src/shared/gitlab.ts:112-117 | the newest index holds a greatest creation time, and every earlier element is strictly older |
| Gitlab.SortHeadIsNewest | src/shared/gitlab.ts:112-117 | after the stable sort the head is the first of the newest merge requests |
| Gitlab.Sort | src/shared/gitlab.ts:112-114 | the insertion pass gives the stable newest-first order |
| Gitlab.NewItemsMembers | src/shared/gitlab.ts:136 | a merge request is new iff it is current and its id was not remembered; with nothing remembered all are new |
| Gitlab.NewItemsUnordered | src/shared/gitlab.ts:136 | which merge requests are new does not depend on the list order |
| Gitlab.Ids | src/shared/gitlab.ts:139 | the remembered ids are the merge requests' ids, position by position |
| Gitlab.NextPrevIdsCovers | src/shared/gitlab.ts:135-140 | after a refresh every current id is remembered; when no id is new the remembered ids stay as they were |
| Gitlab.CountTextSpelled | src/shared/gitlab.ts:120 | the bar text fills every `{count}` slot with the count and keeps everything else |
| Gitlab.DefaultTplText | src/shared/gitlab.ts:77 | the default template shows `$(merge) <count>` |
| Gitlab.TextThenCount | src/shared/gitlab.ts:120 | text without `{` followed by `{count}` shows the count at the end |
| Gitlab.ProjectNameOfLink | src/shared/gitlab.ts:123 | for a link `scheme//host/group/project/...` the project name is `group/project` |
| Gitlab.ConflictMarkIff | src/shared/gitlab.ts:126-129 | a tooltip line ends with the conflict mark iff the merge request cannot be merged |
| Gitlab.NonEmptyListsMembers | src/shared/gitlab.ts:121 | the tooltip's sections come from exactly the non-empty project lists |
| Gitlab.NonEmptyListsAppend | src/shared/gitlab.ts:121 | dropping empty lists keeps the order of the lists |
| Gitlab.TooltipSkipsEmpty | src/shared/gitlab.ts:121-133 | a project without merge requests adds nothing to the tooltip |
| Gitlab.GitlabMergeRequestsService.constructor | src/shared/gitlab.ts:32-41 | no projects, empty template, interval 5, no link, no remembered ids, no timer |
| Gitlab.GitlabMergeRequestsService.UpdateConfig | src/shared/gitlab.ts:73-78 | only unset settings take their defaults; an empty template stays empty |
| Gitlab.GitlabMergeRequestsService.Fetch | src/shared/gitlab.ts:84-100 | without projects nothing is requested; otherwise one URL per project, and a rejected request gives no data |
| Gitlab.GitlabMergeRequestsService.UpdateStatusBarItem | src/shared/gitlab.ts:102-145 | with no data nothing changes; otherwise count text, newest link, tooltip, remembered ids and new-item message are as specified |
| Gitlab.GitlabMergeRequestsService.Refresh | src/shared/gitlab.ts:108-144 | the state after a successful fetch, in terms of the flat list, its sorted order and the remembered ids |
| Gitlab.GitlabMergeRequestsService.SortAndLink | src/shared/gitlab.ts:111-119 | the list is sorted newest first and the link is the newest merge request's, or empty |
| Gitlab.GitlabMergeRequestsService.RememberNew | src/shared/gitlab.ts:135-140 | the message counts the new merge requests, and the ids are remembered only when some are new |
| Gitlab.GitlabMergeRequestsService.Render | src/shared/gitlab.ts:120-133 | the text is the filled count template and the tooltip lists each non-empty project |
| Gitlab.GitlabMergeRequestsService.Start | src/shared/gitlab.ts:55-65 | the interval, projects and template are reread with their `??` defaults, the projects are requested, and one more polling timer is pending whatever the abort flag |
| Gitlab.GitlabMergeRequestsService.TimerFired | src/shared/gitlab.ts:62-64 | a timer that fires starts a cycle that arms a new one, so the number of pending timers never drops |

## Left out

- Rendering is left out: the editor's status-bar item, `show()`, commands, `openLink`, notifications and the output channel. Texts and tooltips are fields; a notification is a returned message.
- The stock tooltip (`tooltipTemplate`) and `getUnit` are left out. They format floating-point figures.
- Float formatting (`Number()`, `toFixed(2)` on numbers, `Math.abs`) is left out. Quote figures come from a caller-supplied function. `toFixed` is modelled as the text it hands to `Number()`.
- `iconv` GBK decoding is left out; the feed arrives as text. `JSON.parse` of the ZenTao task page and its `tasks = ...` extraction are left out too; the page reply carries the extracted task list.
- Network requests, timeouts and promise rejections are not modelled. Each reply is a parameter, with a failed-request case.
- `created_at` is compared as an integer timestamp. `Date` parsing is not modelled.
- `formateDate` (src/utils.ts) and `getInterval` are not part of this model. The interval is taken as a number.
- `md5` is not part of this model; it is a function parameter that receives the password as configured, `undefined` included. An `md5` that throws on `undefined` is not modelled.
- `NumberFormat.ToFixedLongestMatch`: `fixed` is at least 1. The callers use the default 2; `fixed = 0` would become `{0,-1}`, which the pattern reads as literal text, not a quantifier.
- `Zentao.ZentaoService.Login`: the constant form fields (`passwordStrength`, `referer`, `keepLogin`, `captcha`) are not represented.
- `Gitlab.ConflictMarkIff`: proved only for target branches without `)`, since such a branch could itself end with the mark.
- `StockBar.FillTemplateSpelled`, `Zentao.BarTextSpelled` and `Gitlab.CountTextSpelled` are stated for templates whose literal text holds no `{`. The scanner itself is modelled for every template.
- The stock gate reads the clock several times; the model uses one reading of weekday, hour and minute.
- `Holiday.IsClosed` reads `Date.now()` once, as the time of day.
- Timers are not modelled, and neither are overlapping cycles; `start` runs its refresh to completion. The ZenTao timer is a flag that abort and a firing clear. The GitLab timers are a count. The stock timer is the delay of the one pending timeout.
- The GitLab interval is passed to the timer in milliseconds; the model keeps the number and does not model the delay.
- `Gitlab.Sort`: the in-place `Array.prototype.sort` is modelled on a sequence value. The engine's stable sort is modelled as a stable insertion sort. Beyond sortedness and permutation, only the head of the result is proved to be the first newest merge request.
- `UriEncoding.EncodeUriComponentRoundTrip`: decoding is proved back to UTF-8 bytes, with UTF-8 decoding proved character by character. Lone surrogates, which make `encodeURIComponent` throw, are not modelled.
- `Gitlab.NewItemsUnordered`: states the set of new merge requests, not their order.
- `StockBar.StockBarState.UpdateStatusBarItem`: the skip delay of 30 seconds and the interval are recorded as the pending timer. No scheduler runs them.
- `Gitlab.GitlabMergeRequestsService.Start`: states the timer count, the three reread settings (interval, projects, template) and the requests. The refreshed state is the contract of `UpdateStatusBarItem`.
- `Zentao.ZentaoService.OnConfigurationChange`: states the settings, the failure flag, the login decision and the timer. The cookie, text and store after the restart are the contract of `Start`.
- `StockBar.StockBarState.OnConfigurationChange`: states the request and the timer. The text follows `UpdateStatusBarItem` on a first run.
- `Gitlab.GitlabMergeRequestsService.TimerFired`: states only the timer count.
