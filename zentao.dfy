/** src/shared/zentao.ts: the task-board service. It keeps a session cookie
    (in memory and in the extension's store, under a key derived from the
    account), logs in when there is none, counts the user's waiting and
    in-progress tasks and shows them through a template.

    The network replies, `md5` and the task tree decoded from the page are
    inputs; the timer is a flag saying whether a next cycle is armed. */
module Zentao {
  import opened Wrappers
  import opened Strings
  import opened Store

  /** The configured account; `None` is a field missing from the settings
      object, which reads as `undefined`. */
  datatype User = User(account: Option<string>, password: Option<string>)

  /** A settings field turned into text, as a template literal or
      `URLSearchParams` does: `undefined` when it is missing. */
  function FieldText(v: Option<string>): string
  {
    if v.Some? then v.value else "undefined"
  }

  /** A settings field that JavaScript treats as true: present and non-empty. */
  predicate Truthy(v: Option<string>)
  {
    v.Some? && v.value != ""
  }

  const CookieKeyBase := "zentao-cookie"

  /** `getStateKey()`: the store key of the cookie, `zentao-cookie:` followed
      by the account, or by `undefined` when no user is configured. */
  function StateKey(user: Option<User>): string
  {
    CookieKeyBase + ":" + FieldText(if user.Some? then user.value.account else None)
  }

  /** Different accounts keep their cookies under different keys, and no
      cookie key is the key of the holiday cache. A missing user and a user
      without an account share the key of the account named "undefined". */
  lemma StateKeyDistinct(a: User, b: User)
    ensures StateKey(Some(a)) == StateKey(Some(b)) <==> FieldText(a.account) == FieldText(b.account)
    ensures a.account.Some? && b.account.Some? ==>
      (StateKey(Some(a)) == StateKey(Some(b)) <==> a.account == b.account)
    ensures StateKey(Some(a)) != HolidayKey && StateKey(None) != HolidayKey
    ensures StateKey(None) == StateKey(Some(User(Some("undefined"), a.password)))
    ensures StateKey(None) == StateKey(Some(User(None, a.password)))
  {
    var p := CookieKeyBase + ":";
    if StateKey(Some(a)) == StateKey(Some(b)) {
      assert FieldText(a.account) == StateKey(Some(a))[|p|..];
      assert FieldText(b.account) == StateKey(Some(b))[|p|..];
    }
    assert StateKey(Some(a))[0] == 'z' && StateKey(None)[0] == 'z';
  }

  // ---------------------------------------------------------------- cookies

  /** The `set-cookie` entries of a sequence of response headers, in order; a
      header without the entry contributes none. */
  function SetCookieEntries(headers: seq<Option<seq<string>>>): seq<string>
  {
    if |headers| == 0 then []
    else (if headers[0].Some? then headers[0].value else []) + SetCookieEntries(headers[1..])
  }

  /** The `name=value` part of a `set-cookie` entry: the text before the
      first `;`. */
  function CookiePair(entry: string): (pair: string)
    ensures ';' !in pair
    ensures IsPrefix(pair, entry)
    ensures |pair| < |entry| ==> entry[|pair|] == ';'
  {
    JoinSplit(entry, ';');
    var parts := Split(entry, ';');
    SplitHead(entry, ';');
    parts[0]
  }

  /** The first piece of a split is a prefix of the input, followed by the
      separator if anything follows it. */
  lemma {:induction false} SplitHead(s: string, sep: char)
    ensures IsPrefix(Split(s, sep)[0], s)
    ensures |Split(s, sep)[0]| < |s| ==> s[|Split(s, sep)[0]|] == sep
  {
    if |s| > 0 {
      SplitHead(s[1..], sep);
    }
  }

  function CookiePairs(headers: seq<Option<seq<string>>>): seq<string>
  {
    var entries := SetCookieEntries(headers);
    seq(|entries|, i requires 0 <= i < |entries| => CookiePair(entries[i]))
  }

  /** `Array.from(new Set(xs))`: the values in the order of their first
      occurrence. */
  function Dedup(xs: seq<string>): seq<string>
  {
    if |xs| == 0 then []
    else
      var init := xs[..|xs| - 1];
      if xs[|xs| - 1] in init then Dedup(init) else Dedup(init) + [xs[|xs| - 1]]
  }

  /** The deduplicated values are exactly the input's values. */
  lemma {:induction false} DedupElements(xs: seq<string>)
    ensures forall x :: x in Dedup(xs) <==> x in xs
  {
    if |xs| > 0 {
      var init := xs[..|xs| - 1];
      DedupElements(init);
      assert xs == init + [xs[|xs| - 1]];
    }
  }

  /** No value is kept twice. */
  lemma {:induction false} DedupDistinct(xs: seq<string>)
    ensures forall i, j :: 0 <= i < j < |Dedup(xs)| ==> Dedup(xs)[i] != Dedup(xs)[j]
  {
    if |xs| > 0 {
      var init := xs[..|xs| - 1];
      DedupDistinct(init);
      DedupElements(init);
    }
  }

  /** The values of a list come first, in the same order, when more values
      are appended: earlier occurrences win. */
  lemma {:induction false} DedupPrefix(a: seq<string>, b: seq<string>)
    ensures |Dedup(a)| <= |Dedup(a + b)|
    ensures Dedup(a + b)[..|Dedup(a)|] == Dedup(a)
    decreases |b|
  {
    if |b| == 0 {
      assert a + b == a;
    } else {
      var b' := b[..|b| - 1];
      DedupPrefix(a, b');
      assert (a + b)[..|a + b| - 1] == a + b';
    }
  }

  /** A list without repeated values is its own deduplication. */
  lemma {:induction false} DedupOfDistinct(xs: seq<string>)
    requires forall i, j :: 0 <= i < j < |xs| ==> xs[i] != xs[j]
    ensures Dedup(xs) == xs
  {
    if |xs| > 0 {
      var init := xs[..|xs| - 1];
      DedupOfDistinct(init);
      assert xs == init + [xs[|xs| - 1]];
    }
  }

  /** `getCookie(...headers)`: the distinct `name=value` pairs of all
      `set-cookie` entries, joined by "; ". */
  function GetCookie(headers: seq<Option<seq<string>>>): string
  {
    Join(Dedup(CookiePairs(headers)), "; ")
  }

  lemma {:induction false} SetCookieEntriesAppend(h1: seq<Option<seq<string>>>, h2: seq<Option<seq<string>>>)
    ensures SetCookieEntries(h1 + h2) == SetCookieEntries(h1) + SetCookieEntries(h2)
  {
    if |h1| == 0 {
      assert h1 + h2 == h2;
    } else {
      var h := h1 + h2;
      assert h[0] == h1[0] && h[1..] == h1[1..] + h2;
      var head := if h1[0].Some? then h1[0].value else [];
      calc {
        SetCookieEntries(h);
        head + SetCookieEntries(h1[1..] + h2);
        { SetCookieEntriesAppend(h1[1..], h2); }
        head + (SetCookieEntries(h1[1..]) + SetCookieEntries(h2));
        SetCookieEntries(h1) + SetCookieEntries(h2);
      }
    }
  }

  /** Merging two responses' headers: the pairs of the first response come
      first and are not displaced; every kept pair is `;`-free, appears in
      some entry, and appears once. */
  lemma GetCookieMerge(h1: seq<Option<seq<string>>>, h2: seq<Option<seq<string>>>)
    ensures var first, merged := Dedup(CookiePairs(h1)), Dedup(CookiePairs(h1 + h2));
      && |first| <= |merged| && merged[..|first|] == first
      && (forall i, j :: 0 <= i < j < |merged| ==> merged[i] != merged[j])
      && (forall i :: 0 <= i < |merged| ==> ';' !in merged[i])
      && (forall x :: x in merged <==> x in CookiePairs(h1) || x in CookiePairs(h2))
  {
    SetCookieEntriesAppend(h1, h2);
    assert CookiePairs(h1 + h2) == CookiePairs(h1) + CookiePairs(h2);
    DedupPrefix(CookiePairs(h1), CookiePairs(h2));
    DedupDistinct(CookiePairs(h1 + h2));
    DedupElements(CookiePairs(h1 + h2));
    var pairs := CookiePairs(h1 + h2);
    forall x | x in pairs ensures ';' !in x {
      var k :| 0 <= k < |pairs| && pairs[k] == x;
    }
  }

  // ------------------------------------------------------------------ tasks

  /** A task as far as counting goes: its status and its sub-tasks (a
      `children` value that is not an array is an empty list here). */
  datatype Task = Task(status: string, children: seq<Task>)

  /** Every task of the tree, each task before its sub-tasks, in the order
      the counting visits them. */
  function Nodes(ts: seq<Task>): seq<Task>
    decreases ts
  {
    if |ts| == 0 then [] else [ts[0]] + Nodes(ts[0].children) + Nodes(ts[1..])
  }

  /** A task is in the tree exactly when it is one of the top-level tasks or
      in the tree of one of their sub-task lists. */
  lemma {:induction false} NodesMembers(ts: seq<Task>, x: Task)
    ensures x in Nodes(ts) <==> exists i :: 0 <= i < |ts| && (x == ts[i] || x in Nodes(ts[i].children))
  {
    if |ts| > 0 {
      NodesMembers(ts[1..], x);
      if x in Nodes(ts[1..]) {
        var i :| 0 <= i < |ts[1..]| && (x == ts[1..][i] || x in Nodes(ts[1..][i].children));
        assert ts[i + 1] == ts[1..][i];
      }
      if exists i :: 0 <= i < |ts| && (x == ts[i] || x in Nodes(ts[i].children)) {
        var i :| 0 <= i < |ts| && (x == ts[i] || x in Nodes(ts[i].children));
        if i > 0 {
          assert ts[1..][i - 1] == ts[i];
        }
      }
    }
  }

  lemma {:induction false} NodesAppend(a: seq<Task>, b: seq<Task>)
    ensures Nodes(a + b) == Nodes(a) + Nodes(b)
    decreases |a|
  {
    if |a| == 0 {
      assert a + b == b;
    } else {
      var h := [a[0]] + Nodes(a[0].children);
      calc {
        Nodes(a + b);
        { assert (a + b)[0] == a[0] && (a + b)[1..] == a[1..] + b; }
        h + Nodes(a[1..] + b);
        { NodesAppend(a[1..], b); }
        h + (Nodes(a[1..]) + Nodes(b));
        (h + Nodes(a[1..])) + Nodes(b);
        Nodes(a) + Nodes(b);
      }
    }
  }

  /** How many of `nodes` have the status. */
  function StatusCount(nodes: seq<Task>, status: string): nat
  {
    if |nodes| == 0 then 0
    else (if nodes[0].status == status then 1 else 0) + StatusCount(nodes[1..], status)
  }

  function Statuses(nodes: seq<Task>): seq<string>
  {
    seq(|nodes|, i requires 0 <= i < |nodes| => nodes[i].status)
  }

  /** The count is the multiplicity of the status among all statuses: a
      node counts once, and for its own status only. */
  lemma {:induction false} StatusCountMultiplicity(nodes: seq<Task>, status: string)
    ensures StatusCount(nodes, status) == multiset(Statuses(nodes))[status]
  {
    if |nodes| > 0 {
      StatusCountMultiplicity(nodes[1..], status);
      assert Statuses(nodes) == [nodes[0].status] + Statuses(nodes[1..]);
    }
  }

  lemma {:induction false} StatusCountAppend(a: seq<Task>, b: seq<Task>, status: string)
    ensures StatusCount(a + b, status) == StatusCount(a, status) + StatusCount(b, status)
  {
    if |a| == 0 {
      assert a + b == b;
    } else {
      StatusCountAppend(a[1..], b, status);
      assert (a + b)[1..] == a[1..] + b;
    }
  }

  /** Waiting and in-progress tasks together are at most all tasks. */
  lemma {:induction false} StatusCountsBounded(nodes: seq<Task>)
    ensures StatusCount(nodes, "wait") + StatusCount(nodes, "doing") <= |nodes|
  {
    if |nodes| > 0 {
      StatusCountsBounded(nodes[1..]);
    }
  }

  /** The counting closure of `updateStatusBar`: one pass over the list that
      counts each task and descends into its sub-tasks. */
  method CountTasks(data: seq<Task>) returns (wait: nat, doing: nat)
    ensures wait == StatusCount(Nodes(data), "wait")
    ensures doing == StatusCount(Nodes(data), "doing")
    decreases data
  {
    wait, doing := 0, 0;
    for i := 0 to |data|
      invariant wait == StatusCount(Nodes(data[..i]), "wait")
      invariant doing == StatusCount(Nodes(data[..i]), "doing")
    {
      var el := data[i];
      var one := if el.status == "wait" then 1 else 0;
      var other := if el.status == "doing" then 1 else 0;
      var w, d := CountTasks(el.children);
      assert data[..i + 1] == data[..i] + [el];
      NodesAppend(data[..i], [el]);
      assert [el][1..] == [];
      assert Nodes([el]) == [el] + Nodes(el.children);
      StatusCountAppend(Nodes(data[..i]), Nodes([el]), "wait");
      StatusCountAppend(Nodes(data[..i]), Nodes([el]), "doing");
      StatusCountAppend([el], Nodes(el.children), "wait");
      StatusCountAppend([el], Nodes(el.children), "doing");
      assert StatusCount([el], "wait") == one && StatusCount([el], "doing") == other;
      wait, doing := wait + one + w, doing + other + d;
    }
    assert data[..|data|] == data;
  }

  // --------------------------------------------------------------- bar text

  const DefaultTpl := "$(tasklist) {wait} / {doing}"

  /** The status bar text: every `{wait}` and then every `{doing}` of the
      template replaced by the counts. */
  function BarText(tpl: string, wait: nat, doing: nat): string
  {
    ReplaceAll(ReplaceAll(tpl, "{wait}", NatToString(wait)), "{doing}", NatToString(doing))
  }

  /** For a template of literal text and `{name}` slots, the `{wait}` and
      `{doing}` slots show the counts and everything else stays as written. */
  lemma BarTextSpelled(pieces: seq<Piece>, wait: nat, doing: nat)
    requires WellFormed(pieces)
    ensures BarText(Spell(pieces, map[]), wait, doing)
         == Spell(pieces, map["wait" := NatToString(wait), "doing" := NatToString(doing)])
  {
    var w, d := NatToString(wait), NatToString(doing);
    assert IsLetters("wait") && IsLetters("doing");
    assert Braced("wait") == "{wait}" && Braced("doing") == "{doing}";
    ReplaceSlot(pieces, map[], "wait", w);
    var fill: map<string, string> := map["wait" := w];
    assert '{' !in w by {
      assert forall j :: 0 <= j < |w| ==> IsAsciiDigit(w[j]);
    }
    ReplaceSlot(pieces, fill, "doing", d);
    assert map[]["wait" := w] == fill;
  }

  /** The default template shows both counts behind the task-list icon. */
  lemma DefaultTplText(wait: nat, doing: nat)
    ensures BarText(DefaultTpl, wait, doing)
         == "$(tasklist) " + NatToString(wait) + " / " + NatToString(doing)
  {
    var a, b := "$(tasklist) ", " / ";
    assert '{' !in a && '{' !in b;
    TwoSlotTemplate(a, b, wait, doing);
    assert a + Braced("wait") + b + Braced("doing") == DefaultTpl;
  }

  /** A template of text, `{wait}`, text and `{doing}` shows the two counts
      between the unchanged texts. */
  lemma TwoSlotTemplate(a: string, b: string, wait: nat, doing: nat)
    requires '{' !in a && '{' !in b
    ensures BarText(a + Braced("wait") + b + Braced("doing"), wait, doing)
         == a + NatToString(wait) + b + NatToString(doing)
  {
    var pieces := [Text(a), Slot("wait"), Text(b), Slot("doing")];
    assert IsLetters("wait") && IsLetters("doing");
    assert WellFormed(pieces);
    SpellTwoSlots(a, "wait", b, "doing", map[]);
    BarTextSpelled(pieces, wait, doing);
    SpellTwoSlots(a, "wait", b, "doing", map["wait" := NatToString(wait), "doing" := NatToString(doing)]);
  }

  /** The text of a template with two slots, each behind literal text. */
  lemma SpellTwoSlots(a: string, n1: string, b: string, n2: string, fill: map<string, string>)
    ensures Spell([Text(a), Slot(n1), Text(b), Slot(n2)], fill)
         == a + (if n1 in fill then fill[n1] else Braced(n1)) + b + (if n2 in fill then fill[n2] else Braced(n2))
  {
    var v1 := if n1 in fill then fill[n1] else Braced(n1);
    var v2 := if n2 in fill then fill[n2] else Braced(n2);
    var r1 := [Slot(n2)];
    var r2 := [Text(b)] + r1;
    var r3 := [Slot(n1)] + r2;
    assert [Text(a), Slot(n1), Text(b), Slot(n2)] == [Text(a)] + r3;
    calc {
      Spell([Text(a)] + r3, fill);
      { SpellCons(Text(a), r3, fill); }
      a + Spell(r3, fill);
      { SpellCons(Slot(n1), r2, fill); }
      a + (v1 + Spell(r2, fill));
      { SpellCons(Text(b), r1, fill); }
      a + (v1 + (b + Spell(r1, fill)));
      { SpellCons(Slot(n2), [], fill); assert r1 == [Slot(n2)] + []; }
      a + (v1 + (b + (v2 + Spell([], fill))));
      { assert v2 + Spell([], fill) == v2; }
      a + (v1 + (b + v2));
      { assert v1 + (b + v2) == (v1 + b) + v2; }
      a + ((v1 + b) + v2);
      { assert a + ((v1 + b) + v2) == (a + (v1 + b)) + v2; }
      (a + (v1 + b)) + v2;
      { assert a + (v1 + b) == a + v1 + b; }
      a + v1 + b + v2;
    }
  }

  // ---------------------------------------------------------------- service

  /** The marker of the page that signals a successful login. */
  const LoginSuccessMarker := "<html><meta charset='utf-8'/><style>body{background:white}</style><script>self.location='/';"

  /** The marker of a task page that redirects to the login form. */
  const SessionExpiredMarker := "</style><script>self.location='/user-login"

  /** The replies of the two login requests: the random-salt page with its
      headers, then the login page with its headers; or a failed request. */
  datatype LoginReply =
    | LoginUnreachable
    | LoginPages(verifyRand: string, randHeaders: Option<seq<string>>,
                 page: string, loginHeaders: Option<seq<string>>)

  /** The form posted to the login page, with the cookie header it carries.
      The other form fields are constants. */
  datatype LoginRequest = LoginRequest(account: string, password: string, verifyRand: string, cookie: string)

  /** The request `login` posts: the password hashed with `md5`, salted with
      the random value, and hashed again. `md5` receives the password as
      configured, `undefined` included; a missing account is posted as the
      text `undefined`. */
  function LoginRequestOf(u: User, md5: Option<string> -> string, reply: LoginReply): LoginRequest
    requires reply.LoginPages?
  {
    LoginRequest(FieldText(u.account), md5(Some(md5(u.password) + reply.verifyRand)), reply.verifyRand,
                 GetCookie([reply.randHeaders]))
  }

  /** The cookie `login` resolves to: the merged cookies of both responses
      after a successful login, otherwise the empty string. */
  function LoginResult(reply: LoginReply): string
    requires reply.LoginPages?
  {
    if Contains(reply.page, LoginSuccessMarker) then GetCookie([reply.randHeaders, reply.loginHeaders]) else ""
  }

  /** The reply to the task page request: a failed request, or the page
      with the task tree decoded from it (`None` when nothing could be). */
  datatype TaskReply = TaskFetchFailed | TaskPage(page: string, extracted: Option<seq<Task>>)

  predicate Expired(reply: TaskReply)
  {
    reply.TaskPage? && Contains(reply.page, SessionExpiredMarker)
  }

  /** The tasks counted for a page: none on an expired session or when no
      tree could be decoded. */
  function PageTasks(reply: TaskReply): seq<Task>
  {
    if reply.TaskFetchFailed? || Expired(reply) || reply.extracted.None? then [] else reply.extracted.value
  }

  /** The bar text for a task list. */
  function TasksText(tpl: string, tasks: seq<Task>): string
  {
    BarText(tpl, StatusCount(Nodes(tasks), "wait"), StatusCount(Nodes(tasks), "doing"))
  }

  /** `start` only proceeds with an address and a user whose account and
      password are not the empty string. The guard compares with `''`, so a
      missing field lets the user through. */
  predicate Configured(url: string, user: Option<User>)
  {
    url != "" && user.Some? && user.value.account != Some("") && user.value.password != Some("")
  }

  /** The configuration-change rule: new credentials, both non-empty, that
      differ from the current ones in the account or the password. */
  predicate CredentialsChanged(next: Option<User>, current: Option<User>)
  {
    && next.Some? && Truthy(next.value.account) && Truthy(next.value.password)
    && (current.None? || next.value.account != current.value.account || next.value.password != current.value.password)
  }

  /** The same credentials never count as changed, neither does a missing
      user nor one with a missing or empty field; any complete new pair does
      when there was no user. */
  lemma CredentialsChangedCases(u: Option<User>, v: User)
    ensures !CredentialsChanged(u, u)
    ensures !CredentialsChanged(None, u)
    ensures !Truthy(v.account) || !Truthy(v.password) ==> !CredentialsChanged(Some(v), u)
    ensures CredentialsChanged(Some(v), None) <==> Truthy(v.account) && Truthy(v.password)
  {
  }

  /** A user whose settings lack both fields passes `start`'s guard, keeps
      its session under the key of a missing user and logs in as the account
      `undefined`; switching to it never clears a failed login. A user with
      an empty account is stopped by the guard. */
  lemma MissingFieldsPassGuard(url: string, md5: Option<string> -> string, reply: LoginReply,
                               current: Option<User>, password: Option<string>)
    requires url != "" && reply.LoginPages?
    ensures Configured(url, Some(User(None, None)))
    ensures !Configured(url, Some(User(Some(""), password)))
    ensures StateKey(Some(User(None, None))) == StateKey(None)
    ensures LoginRequestOf(User(None, None), md5, reply).account == "undefined"
    ensures !CredentialsChanged(Some(User(None, None)), current)
  {
  }

  /** The settings the service reads; `None` is an unset value. */
  datatype Settings = Settings(url: Option<string>, user: Option<User>, tpl: Option<string>, interval: int)

  class ZentaoService {
    var cookie: string
    var zentaoUrl: string
    var user: Option<User>
    /** The polling interval, as `getInterval` returns it. */
    var interval: int
    /** Whether a login has failed since the credentials last changed. */
    var loginFailed: bool
    var tpl: string
    /** The text of the status bar item. */
    var text: string
    /** Whether a timer for the next cycle is armed and not aborted. */
    var timerArmed: bool
    /** The extension's persisted store. */
    const store: GlobalState

    ghost predicate Valid()
      reads store
    {
      store.Valid()
    }

    /** The fields at their initial values; the constructor then runs
        `UpdateConfig` and `Start`. */
    constructor (store: GlobalState, interval: int)
      requires store.Valid()
      ensures Valid() && this.store == store
      ensures cookie == "" && zentaoUrl == "" && user == None && !loginFailed && tpl == ""
      ensures text == "" && !timerArmed && this.interval == interval
    {
      this.store := store;
      cookie := "";
      zentaoUrl := "";
      user := None;
      this.interval := interval;
      loginFailed := false;
      tpl := "";
      text := "";
      timerArmed := false;
    }

    /** `updateConfig()`: an unset or empty address is empty, an unset user
        is none, and an unset or empty template is the default one. */
    method UpdateConfig(settings: Settings)
      modifies this`zentaoUrl, this`user, this`tpl, this`interval
      ensures zentaoUrl == (if settings.url.Some? then settings.url.value else "")
      ensures user == settings.user && interval == settings.interval
      ensures tpl == (if settings.tpl.Some? && settings.tpl.value != "" then settings.tpl.value else DefaultTpl)
    {
      zentaoUrl := if settings.url.Some? then settings.url.value else "";
      user := settings.user;
      tpl := if settings.tpl.Some? && settings.tpl.value != "" then settings.tpl.value else DefaultTpl;
      interval := settings.interval;
    }

    /** `login()`: fetch the random salt, post the hashed password and
        resolve to the merged cookie on success. `None` is a rejected
        request, which leaves `loginFailed` as it was. */
    method Login(md5: Option<string> -> string, reply: LoginReply) returns (request: Option<LoginRequest>, result: Option<string>)
      requires user.Some?
      modifies this`loginFailed
      ensures reply.LoginUnreachable? ==> request == None && result == None && loginFailed == old(loginFailed)
      ensures reply.LoginPages? ==>
        && request == Some(LoginRequestOf(user.value, md5, reply))
        && result == Some(LoginResult(reply))
        && loginFailed == !Contains(reply.page, LoginSuccessMarker)
    {
      if reply.LoginUnreachable? {
        return None, None;
      }
      request := Some(LoginRequestOf(user.value, md5, reply));
      if Contains(reply.page, LoginSuccessMarker) {
        loginFailed := false;
        result := Some(GetCookie([reply.randHeaders, reply.loginHeaders]));
      } else {
        loginFailed := true;
        result := Some("");
      }
    }

    /** `getTaskList()`: `failed` is a rejected request. An expired session
        clears the cookie in memory and in the store and yields no list. */
    method GetTaskList(reply: TaskReply) returns (failed: bool, tasks: Option<seq<Task>>)
      requires Valid()
      modifies this`cookie, store
      ensures Valid()
      ensures failed <==> reply.TaskFetchFailed?
      ensures Expired(reply) ==>
        tasks == None && cookie == "" && store.entries == old(store.entries)[StateKey(user) := TextValue("")]
      ensures !Expired(reply) ==>
        && cookie == old(cookie) && store.entries == old(store.entries)
        && tasks == (if reply.TaskPage? then reply.extracted else None)
    {
      if reply.TaskFetchFailed? {
        return true, None;
      }
      failed := false;
      if Contains(reply.page, SessionExpiredMarker) {
        cookie := "";
        StateKeyNotHoliday(user);
        store.Update(StateKey(user), TextValue(""));
        tasks := None;
      } else {
        tasks := reply.extracted;
      }
    }

    /** `updateStatusBar()`: without a cookie nothing is fetched and both
        counts are 0; a rejected fetch leaves the text as it was. */
    method UpdateStatusBar(reply: TaskReply) returns (failed: bool)
      requires Valid()
      modifies this`cookie, this`text, store
      ensures Valid()
      ensures old(cookie) == "" ==>
        !failed && cookie == "" && store.entries == old(store.entries) && text == TasksText(tpl, [])
      ensures old(cookie) != "" && reply.TaskFetchFailed? ==>
        failed && cookie == old(cookie) && store.entries == old(store.entries) && text == old(text)
      ensures old(cookie) != "" && reply.TaskPage? ==>
        && !failed && text == TasksText(tpl, PageTasks(reply))
        && cookie == (if Expired(reply) then "" else old(cookie))
        && store.entries == (if Expired(reply) then old(store.entries)[StateKey(user) := TextValue("")] else old(store.entries))
    {
      var taskList: seq<Task> := [];
      failed := false;
      if cookie != "" {
        var tasks;
        failed, tasks := GetTaskList(reply);
        if failed {
          return;
        }
        if tasks.Some? {
          taskList := tasks.value;
        }
      }
      var wait, doing := CountTasks(taskList);
      text := BarText(tpl, wait, doing);
    }

    /** `start(abort)`: after the guards, reuse the stored cookie or log in
        when there is none and no login has failed, persist the login's
        result, refresh the bar and arm the next cycle. A rejected login
        request rejects the whole cycle, so no new timer is armed; only an
        abort clears the one that may be pending. */
    method Start(abort: bool, md5: Option<string> -> string, loginReply: LoginReply, taskReply: TaskReply)
      returns (attemptedLogin: bool)
      requires Valid()
      modifies this`cookie, this`loginFailed, this`text, this`timerArmed, store
      ensures Valid()
      ensures !Configured(zentaoUrl, user) ==>
        && !attemptedLogin && cookie == old(cookie) && loginFailed == old(loginFailed) && text == old(text)
        && store.entries == old(store.entries) && timerArmed == (old(timerArmed) && !abort)
      ensures Configured(zentaoUrl, user) ==>
        attemptedLogin == (old(store.TextOr(StateKey(user))) == "" && !old(loginFailed))
      ensures Configured(zentaoUrl, user) && attemptedLogin && loginReply.LoginUnreachable? ==>
        && cookie == "" && loginFailed == old(loginFailed) && text == old(text)
        && store.entries == old(store.entries) && timerArmed == (old(timerArmed) && !abort)
      ensures Configured(zentaoUrl, user) && !attemptedLogin ==>
        var session := old(store.TextOr(StateKey(user)));
        && loginFailed == old(loginFailed) && timerArmed
        && (session == "" ==> cookie == "" && text == TasksText(tpl, []) && store.entries == old(store.entries))
        && (session != "" && taskReply.TaskFetchFailed? ==>
              cookie == session && text == old(text) && store.entries == old(store.entries))
        && (session != "" && taskReply.TaskPage? ==>
              && cookie == (if Expired(taskReply) then "" else session)
              && text == TasksText(tpl, PageTasks(taskReply))
              && store.entries == (if Expired(taskReply) then old(store.entries)[StateKey(user) := TextValue("")]
                                   else old(store.entries)))
      ensures Configured(zentaoUrl, user) && attemptedLogin && loginReply.LoginPages? ==>
        var session := LoginResult(loginReply);
        var persisted := old(store.entries)[StateKey(user) := TextValue(session)];
        && loginFailed == !Contains(loginReply.page, LoginSuccessMarker) && timerArmed
        && (session == "" ==> cookie == "" && text == TasksText(tpl, []) && store.entries == persisted)
        && (session != "" && taskReply.TaskFetchFailed? ==>
              cookie == session && text == old(text) && store.entries == persisted)
        && (session != "" && taskReply.TaskPage? ==>
              && cookie == (if Expired(taskReply) then "" else session)
              && text == TasksText(tpl, PageTasks(taskReply))
              && store.entries == (if Expired(taskReply) then persisted[StateKey(user) := TextValue("")]
                                   else persisted))
    {
      if abort {
        timerArmed := false;
      }
      if !Configured(zentaoUrl, user) {
        return false;
      }
      var key := StateKey(user);
      StateKeyNotHoliday(user);
      cookie := store.TextOr(key);
      attemptedLogin := cookie == "" && !loginFailed;
      if attemptedLogin {
        var request, result := Login(md5, loginReply);
        if result.None? {
          return;
        }
        cookie := result.value;
        store.Update(key, TextValue(cookie));
      }
      var failed := UpdateStatusBar(taskReply);
      timerArmed := true;
    }

    /** The configuration-change handler: clear `loginFailed` when the
        credentials changed, re-read the settings and restart, aborting the
        pending timer. */
    method OnConfigurationChange(settings: Settings, md5: Option<string> -> string, loginReply: LoginReply, taskReply: TaskReply)
      returns (attemptedLogin: bool)
      requires Valid()
      modifies this`cookie, this`loginFailed, this`text, this`timerArmed, this`zentaoUrl, this`user,
               this`tpl, this`interval, store
      ensures Valid()
      ensures user == settings.user
      ensures zentaoUrl == (if settings.url.Some? then settings.url.value else "")
      ensures tpl == (if settings.tpl.Some? && settings.tpl.value != "" then settings.tpl.value else DefaultTpl)
      ensures interval == settings.interval
      ensures !Configured(zentaoUrl, user) ==>
        && !attemptedLogin && !timerArmed && cookie == old(cookie) && store.entries == old(store.entries)
        && loginFailed == (old(loginFailed) && !CredentialsChanged(settings.user, old(user)))
      ensures Configured(zentaoUrl, user) ==>
        attemptedLogin == (old(store.TextOr(StateKey(settings.user))) == ""
                           && (CredentialsChanged(settings.user, old(user)) || !old(loginFailed)))
      ensures Configured(zentaoUrl, user) && !(attemptedLogin && loginReply.LoginPages?) ==>
        loginFailed == (old(loginFailed) && !CredentialsChanged(settings.user, old(user)))
      ensures Configured(zentaoUrl, user) && attemptedLogin && loginReply.LoginPages? ==>
        loginFailed == !Contains(loginReply.page, LoginSuccessMarker)
      ensures timerArmed <==> Configured(zentaoUrl, user) && !(attemptedLogin && loginReply.LoginUnreachable?)
    {
      if CredentialsChanged(settings.user, user) {
        loginFailed := false;
      }
      UpdateConfig(settings);
      attemptedLogin := Start(true, md5, loginReply, taskReply);
    }
    /** The pending timer fires and runs `start()` without abort. The fired
        timer is spent, so when the cycle stops early (no settings, or a
        rejected login request) no timer is pending any more and polling
        ends until the settings change. */
    method TimerFired(md5: Option<string> -> string, loginReply: LoginReply, taskReply: TaskReply)
      returns (attemptedLogin: bool)
      requires Valid() && timerArmed
      modifies this`cookie, this`loginFailed, this`text, this`timerArmed, store
      ensures Valid()
      ensures !Configured(zentaoUrl, user) ==>
        && !attemptedLogin && cookie == old(cookie) && loginFailed == old(loginFailed) && text == old(text)
        && store.entries == old(store.entries) && !timerArmed
      ensures Configured(zentaoUrl, user) ==>
        attemptedLogin == (old(store.TextOr(StateKey(user))) == "" && !old(loginFailed))
      ensures Configured(zentaoUrl, user) && attemptedLogin && loginReply.LoginUnreachable? ==>
        && cookie == "" && loginFailed == old(loginFailed) && text == old(text)
        && store.entries == old(store.entries) && !timerArmed
      ensures Configured(zentaoUrl, user) && !attemptedLogin ==>
        var session := old(store.TextOr(StateKey(user)));
        && loginFailed == old(loginFailed) && timerArmed
        && (session == "" ==> cookie == "" && text == TasksText(tpl, []) && store.entries == old(store.entries))
        && (session != "" && taskReply.TaskFetchFailed? ==>
              cookie == session && text == old(text) && store.entries == old(store.entries))
        && (session != "" && taskReply.TaskPage? ==>
              && cookie == (if Expired(taskReply) then "" else session)
              && text == TasksText(tpl, PageTasks(taskReply))
              && store.entries == (if Expired(taskReply) then old(store.entries)[StateKey(user) := TextValue("")]
                                   else old(store.entries)))
      ensures Configured(zentaoUrl, user) && attemptedLogin && loginReply.LoginPages? ==>
        var session := LoginResult(loginReply);
        var persisted := old(store.entries)[StateKey(user) := TextValue(session)];
        && loginFailed == !Contains(loginReply.page, LoginSuccessMarker) && timerArmed
        && (session == "" ==> cookie == "" && text == TasksText(tpl, []) && store.entries == persisted)
        && (session != "" && taskReply.TaskFetchFailed? ==>
              cookie == session && text == old(text) && store.entries == persisted)
        && (session != "" && taskReply.TaskPage? ==>
              && cookie == (if Expired(taskReply) then "" else session)
              && text == TasksText(tpl, PageTasks(taskReply))
              && store.entries == (if Expired(taskReply) then persisted[StateKey(user) := TextValue("")]
                                   else persisted))
      ensures timerArmed <==> Configured(zentaoUrl, user) && !(attemptedLogin && loginReply.LoginUnreachable?)
    {
      timerArmed := false;
      attemptedLogin := Start(false, md5, loginReply, taskReply);
    }
  }

  lemma StateKeyNotHoliday(user: Option<User>)
    ensures StateKey(user) != HolidayKey
  {
    assert StateKey(user)[0] == 'z';
  }
}
