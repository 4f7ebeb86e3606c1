/** src/shared/gitlab.ts: the merge-request service. Each cycle fetches the
    open merge requests of every configured project, shows their count
    through a template, remembers the link of the newest one, builds the
    tooltip, and announces merge requests it has not seen before.

    The replies of the requests are an input; creation dates are integer
    timestamps. */
module Gitlab {
  import opened Wrappers
  import opened Strings
  import opened UriEncoding

  /** One configured project: the GitLab address, the project id or path,
      and the access token. */
  datatype ProjectConfig = ProjectConfig(url: string, id: string, token: string)

  /** The fields of a merge request the service reads. */
  datatype MergeRequest = MergeRequest(
    id: int, authorName: string, createdAt: int,
    sourceBranch: string, targetBranch: string, webUrl: string, mergeStatus: string)

  // ---------------------------------------------------------------- request

  /** `/^\d+$/.test(id)`: a non-empty run of decimal digits and nothing else. */
  predicate IsNumericId(id: string)
  {
    |id| > 0 && forall i :: 0 <= i < |id| ==> IsAsciiDigit(id[i])
  }

  /** The path segment of the project: a numeric id as it is, anything else
      encoded with `encodeURIComponent`. */
  function ProjectSegment(id: string): string
  {
    if IsNumericId(id) then id else EncodeUriComponent(id)
  }

  /** The numeric test changes nothing: digits are unreserved, so every id
      ends up as its `encodeURIComponent` form, which never holds a `/`. */
  lemma ProjectSegmentIsEncoding(id: string)
    ensures ProjectSegment(id) == EncodeUriComponent(id)
    ensures '/' !in ProjectSegment(id)
  {
    if IsNumericId(id) {
      EncodeUnreserved(id);
    }
    EncodeUriComponentSafe(id);
  }

  const ApiPath := "/api/v4/projects/"
  const ApiQuery := "/merge_requests?state=opened"

  /** The request URL of one project. */
  function ApiUrl(config: ProjectConfig): string
  {
    config.url + ApiPath + ProjectSegment(config.id) + ApiQuery
  }

  /** The URL is the configured address, the projects path, the encoded id
      and the open-merge-requests query, so the id can be read back from
      it between the path and the query. */
  lemma ApiUrlParts(config: ProjectConfig)
    ensures var u := ApiUrl(config);
      && IsPrefix(config.url + ApiPath, u)
      && u[|config.url + ApiPath|..|u| - |ApiQuery|] == EncodeUriComponent(config.id)
      && u[|u| - |ApiQuery|..] == ApiQuery
      && PercentDecode(u[|config.url + ApiPath|..|u| - |ApiQuery|]) == Some(Utf8Encode(config.id))
  {
    ProjectSegmentIsEncoding(config.id);
    EncodeUriComponentRoundTrip(config.id);
    var u := ApiUrl(config);
    var p := config.url + ApiPath;
    var e := EncodeUriComponent(config.id);
    assert u == p + e + ApiQuery;
    assert u[|p|..|u| - |ApiQuery|] == e;
  }

  function ApiUrls(configs: seq<ProjectConfig>): (urls: seq<string>)
    ensures |urls| == |configs|
    ensures forall i :: 0 <= i < |configs| ==> urls[i] == ApiUrl(configs[i])
  {
    if |configs| == 0 then [] else [ApiUrl(configs[0])] + ApiUrls(configs[1..])
  }

  // ------------------------------------------------------------ flat list

  /** `data.flat()`: the merge requests of all projects, project by project. */
  function Flatten(data: seq<seq<MergeRequest>>): seq<MergeRequest>
  {
    if |data| == 0 then [] else data[0] + Flatten(data[1..])
  }

  function TotalLength(data: seq<seq<MergeRequest>>): nat
  {
    if |data| == 0 then 0 else |data[0]| + TotalLength(data[1..])
  }

  /** The count shown is the sum of the per-project list lengths, and the
      flat list holds exactly the projects' merge requests. */
  lemma {:induction false} FlattenContents(data: seq<seq<MergeRequest>>)
    ensures |Flatten(data)| == TotalLength(data)
    ensures forall m :: m in Flatten(data) <==> exists i :: 0 <= i < |data| && m in data[i]
  {
    if |data| > 0 {
      FlattenContents(data[1..]);
      forall m | m in Flatten(data)
        ensures exists i :: 0 <= i < |data| && m in data[i]
      {
        if m !in data[0] {
          var i :| 0 <= i < |data[1..]| && m in data[1..][i];
          assert m in data[i + 1];
        }
      }
      forall m | exists i :: 0 <= i < |data| && m in data[i]
        ensures m in Flatten(data)
      {
        var i :| 0 <= i < |data| && m in data[i];
        if i > 0 {
          assert m in data[1..][i - 1];
        }
      }
    }
  }

  // ------------------------------------------------------------ sorting

  /** Newest first: creation times never increase along the list. */
  predicate NewestFirst(ms: seq<MergeRequest>)
  {
    forall i, j :: 0 <= i < j < |ms| ==> ms[i].createdAt >= ms[j].createdAt
  }

  /** Insert into a newest-first list behind every element at least as new,
      so that equal times keep their arrival order. */
  function Insert(x: MergeRequest, s: seq<MergeRequest>): (r: seq<MergeRequest>)
    requires NewestFirst(s)
    ensures NewestFirst(r)
    ensures multiset(r) == multiset(s) + multiset{x}
    ensures |s| == 0 || s[0].createdAt < x.createdAt ==> r[0] == x
    ensures |s| > 0 && x.createdAt <= s[0].createdAt ==> r[0] == s[0]
  {
    if |s| == 0 || s[0].createdAt < x.createdAt then [x] + s
    else
      var tail := Insert(x, s[1..]);
      assert multiset(s) == multiset{s[0]} + multiset(s[1..]) by {
        assert s == [s[0]] + s[1..];
      }
      BoundedByHead(s, x, tail);
      ConsNewest(s[0], tail);
      [s[0]] + tail
  }

  /** What is inserted behind the head of a newest-first list is no newer
      than that head. */
  lemma BoundedByHead(s: seq<MergeRequest>, x: MergeRequest, tail: seq<MergeRequest>)
    requires NewestFirst(s) && |s| > 0 && x.createdAt <= s[0].createdAt
    requires multiset(tail) == multiset(s[1..]) + multiset{x}
    ensures forall k :: 0 <= k < |tail| ==> tail[k].createdAt <= s[0].createdAt
  {
    forall k | 0 <= k < |tail| ensures tail[k].createdAt <= s[0].createdAt {
      assert tail[k] in multiset(tail);
      if tail[k] != x {
        assert tail[k] in multiset(s[1..]);
        var j :| 0 <= j < |s[1..]| && s[1..][j] == tail[k];
        assert s[j + 1] == tail[k];
      }
    }
  }

  /** A merge request at least as new as every one of a newest-first list
      can go in front of it. */
  lemma ConsNewest(h: MergeRequest, tail: seq<MergeRequest>)
    requires NewestFirst(tail)
    requires forall k :: 0 <= k < |tail| ==> tail[k].createdAt <= h.createdAt
    ensures NewestFirst([h] + tail)
  {
    var r := [h] + tail;
    forall i, j | 0 <= i < j < |r| ensures r[i].createdAt >= r[j].createdAt {
      assert r[j] == tail[j - 1];
      if i > 0 {
        assert r[i] == tail[i - 1];
      }
    }
  }

  /** `flatData.sort(...)` with the newest first: a stable insertion sort,
      which is what JavaScript's stable sort yields for this comparator. */
  function SortNewestFirst(xs: seq<MergeRequest>): (ys: seq<MergeRequest>)
    ensures NewestFirst(ys) && multiset(ys) == multiset(xs)
  {
    if |xs| == 0 then []
    else
      assert xs == xs[..|xs| - 1] + [xs[|xs| - 1]];
      Insert(xs[|xs| - 1], SortNewestFirst(xs[..|xs| - 1]))
  }

  /** The position of the newest merge request: the first one whose
      creation time is the greatest. */
  function NewestIndex(xs: seq<MergeRequest>): (k: nat)
    requires |xs| > 0
    ensures k < |xs|
  {
    if |xs| == 1 then 0
    else
      var k := NewestIndex(xs[..|xs| - 1]);
      if xs[k].createdAt < xs[|xs| - 1].createdAt then |xs| - 1 else k
  }

  /** The newest index points at a greatest creation time, and every element
      before it is strictly older. */
  lemma {:induction false} NewestIndexIsFirstNewest(xs: seq<MergeRequest>)
    requires |xs| > 0
    ensures forall j :: 0 <= j < |xs| ==> xs[j].createdAt <= xs[NewestIndex(xs)].createdAt
    ensures forall j :: 0 <= j < NewestIndex(xs) ==> xs[j].createdAt < xs[NewestIndex(xs)].createdAt
  {
    if |xs| > 1 {
      var init := xs[..|xs| - 1];
      NewestIndexIsFirstNewest(init);
      assert forall j :: 0 <= j < |init| ==> init[j] == xs[j];
    }
  }

  /** After sorting, the head is the newest merge request, and among equally
      new ones the first in the flat list. */
  lemma {:induction false} SortHeadIsNewest(xs: seq<MergeRequest>)
    requires |xs| > 0
    ensures SortNewestFirst(xs)[0] == xs[NewestIndex(xs)]
  {
    var init := xs[..|xs| - 1];
    var x := xs[|xs| - 1];
    if |xs| > 1 {
      SortHeadIsNewest(init);
      assert forall j :: 0 <= j < |init| ==> init[j] == xs[j];
      var s := SortNewestFirst(init);
      assert |s| > 0 by {
        assert |multiset(s)| == |multiset(init)|;
      }
    }
  }

  lemma SortStep(xs: seq<MergeRequest>, i: nat)
    requires i < |xs|
    ensures SortNewestFirst(xs[..i + 1]) == Insert(xs[i], SortNewestFirst(xs[..i]))
  {
    var p := xs[..i + 1];
    assert p[..|p| - 1] == xs[..i] && p[|p| - 1] == xs[i];
  }

  /** The sort as the service runs it: one pass inserting each merge request
      into the sorted prefix. */
  method Sort(xs: seq<MergeRequest>) returns (ys: seq<MergeRequest>)
    ensures ys == SortNewestFirst(xs)
  {
    ys := [];
    for i := 0 to |xs|
      invariant ys == SortNewestFirst(xs[..i])
    {
      SortStep(xs, i);
      ys := Insert(xs[i], ys);
    }
    assert xs[..|xs|] == xs;
  }

  /** `firstMergeRequestLink`: the link of the newest merge request, or the
      empty string when there is none. */
  function FirstLink(flat: seq<MergeRequest>): string
  {
    if |flat| == 0 then "" else flat[NewestIndex(flat)].webUrl
  }

  // ------------------------------------------------------------ new items

  /** The current merge requests whose id was not seen by the last refresh
      of the remembered ids, in list order. */
  function NewItems(current: seq<MergeRequest>, prevIds: seq<int>): seq<MergeRequest>
  {
    if |current| == 0 then []
    else (if current[0].id in prevIds then [] else [current[0]]) + NewItems(current[1..], prevIds)
  }

  /** An item is new exactly when it is current and its id was not seen;
      with nothing seen every current item is new, and when every id was
      seen there is nothing new. */
  lemma {:induction false} NewItemsMembers(current: seq<MergeRequest>, prevIds: seq<int>)
    ensures forall m :: m in NewItems(current, prevIds) <==> m in current && m.id !in prevIds
    ensures |NewItems(current, prevIds)| <= |current|
    ensures prevIds == [] ==> NewItems(current, prevIds) == current
    ensures (forall i :: 0 <= i < |current| ==> current[i].id in prevIds) ==> NewItems(current, prevIds) == []
  {
    if |current| > 0 {
      NewItemsMembers(current[1..], prevIds);
      assert current == [current[0]] + current[1..];
      if forall i :: 0 <= i < |current| ==> current[i].id in prevIds {
        assert forall i :: 0 <= i < |current[1..]| ==> current[1..][i] == current[i + 1];
      }
    }
  }

  /** The new items do not depend on the order of the current list. */
  lemma NewItemsUnordered(xs: seq<MergeRequest>, ys: seq<MergeRequest>, prevIds: seq<int>)
    requires multiset(xs) == multiset(ys)
    ensures forall m :: m in NewItems(xs, prevIds) <==> m in NewItems(ys, prevIds)
  {
    NewItemsMembers(xs, prevIds);
    NewItemsMembers(ys, prevIds);
    forall m ensures m in xs <==> m in ys {
      assert m in xs <==> m in multiset(xs);
      assert m in ys <==> m in multiset(ys);
    }
  }

  function Ids(ms: seq<MergeRequest>): (ids: seq<int>)
    ensures |ids| == |ms|
    ensures forall i :: 0 <= i < |ms| ==> ids[i] == ms[i].id
  {
    if |ms| == 0 then [] else [ms[0].id] + Ids(ms[1..])
  }

  /** The remembered ids after a cycle: all current ids when something is
      new, otherwise the previous ones. */
  function NextPrevIds(sorted: seq<MergeRequest>, prevIds: seq<int>): seq<int>
  {
    if |NewItems(sorted, prevIds)| > 0 then Ids(sorted) else prevIds
  }

  /** The remembered ids never lose an id that is still current: after a
      cycle every current id is remembered, and closing merge requests alone
      keeps the remembered ids as they were. */
  lemma NextPrevIdsCovers(sorted: seq<MergeRequest>, prevIds: seq<int>)
    ensures forall i :: 0 <= i < |sorted| ==> sorted[i].id in NextPrevIds(sorted, prevIds)
    ensures (forall i :: 0 <= i < |sorted| ==> sorted[i].id in prevIds) ==> NextPrevIds(sorted, prevIds) == prevIds
  {
    NewItemsMembers(sorted, prevIds);
    if |NewItems(sorted, prevIds)| == 0 {
      forall i | 0 <= i < |sorted| ensures sorted[i].id in prevIds {
        assert sorted[i] in sorted && sorted[i] !in NewItems(sorted, prevIds);
      }
    }
  }

  /** The notification: "有 N 个新的合并请求". */
  function NewItemsMessage(n: nat): string
  {
    "\U{6709} " + NatToString(n) + " \U{4E2A}\U{65B0}\U{7684}\U{5408}\U{5E76}\U{8BF7}\U{6C42}"
  }

  // ------------------------------------------------------------ bar text

  const DefaultTpl := "$(merge) {count}"

  /** Every `{count}` of the template replaced by the count. */
  function CountText(tpl: string, count: nat): string
  {
    ReplaceAll(tpl, "{count}", NatToString(count))
  }

  /** For a template of literal text and `{name}` slots, the `{count}` slots
      show the count and everything else stays as written. */
  lemma CountTextSpelled(pieces: seq<Piece>, count: nat)
    requires WellFormed(pieces)
    ensures CountText(Spell(pieces, map[]), count) == Spell(pieces, map["count" := NatToString(count)])
  {
    assert IsLetters("count");
    assert Braced("count") == "{count}";
    ReplaceSlot(pieces, map[], "count", NatToString(count));
  }

  /** The default template shows the count behind the merge icon. */
  lemma DefaultTplText(count: nat)
    ensures CountText(DefaultTpl, count) == "$(merge) " + NatToString(count)
  {
    var a := "$(merge) ";
    assert '{' !in a;
    TextThenCount(a, count);
    assert a + "{count}" == DefaultTpl;
  }

  lemma TextThenCount(a: string, count: nat)
    requires '{' !in a
    ensures CountText(a + "{count}", count) == a + NatToString(count)
  {
    var n := NatToString(count);
    ReplaceAllSkips(a, "{count}", "{count}", n);
    var s := "{count}";
    assert IsPrefix("{count}", s) && s[|"{count}"|..] == "";
  }

  // ------------------------------------------------------------ tooltip

  /** `parts.slice(lo, hi)` for `0 <= lo <= hi`. */
  function Slice(parts: seq<string>, lo: nat, hi: nat): seq<string>
    requires lo <= hi
  {
    var l := if lo < |parts| then lo else |parts|;
    var h := if hi < |parts| then hi else |parts|;
    parts[l..h]
  }

  /** The project name taken from a merge request's link: its fourth and
      fifth `/`-separated segments. */
  function ProjectName(webUrl: string): string
  {
    Join(Slice(Split(webUrl, '/'), 3, 5), "/")
  }

  /** For a link `scheme//host/group/project/rest` the name is
      `group/project`. */
  lemma ProjectNameOfLink(scheme: string, host: string, group: string, project: string, rest: string)
    requires '/' !in scheme && '/' !in host && '/' !in group && '/' !in project
    ensures ProjectName(scheme + "//" + host + "/" + group + "/" + project + "/" + rest) == group + "/" + project
  {
    var url := scheme + "//" + host + "/" + group + "/" + project + "/" + rest;
    var r4 := project + ['/'] + rest;
    var r3 := group + ['/'] + r4;
    var r2 := host + ['/'] + r3;
    var r1 := "" + ['/'] + r2;
    LinkShape(scheme, host, group, project, rest);
    var tail := Split(rest, '/');
    SplitAround(project, rest, '/');
    var p4 := [project] + tail;
    SplitAround(group, r4, '/');
    var p3 := [group] + p4;
    SplitAround(host, r3, '/');
    var p2 := [host] + p3;
    SplitAround("", r2, '/');
    var p1 := [""] + p2;
    SplitAround(scheme, r1, '/');
    var parts := [scheme] + p1;
    assert Split(url, '/') == parts;
    assert parts[3] == group && parts[4] == project;
    assert Slice(parts, 3, 5) == [group, project];
    assert Join([group, project], "/") == group + "/" + Join([project], "/");
  }

  /** The link regrouped around its slashes, right to left. */
  lemma LinkShape(scheme: string, host: string, group: string, project: string, rest: string)
    ensures scheme + "//" + host + "/" + group + "/" + project + "/" + rest
         == scheme + ['/'] + ("" + ['/'] + (host + ['/'] + (group + ['/'] + (project + ['/'] + rest))))
  {
    var r4 := project + ['/'] + rest;
    var r3 := group + ['/'] + r4;
    var r2 := host + ['/'] + r3;
    assert scheme + "//" + host + "/" + group + "/" + project + "/" + rest == scheme + "//" + host + "/" + group + "/" + r4;
    assert scheme + "//" + host + "/" + group + "/" + r4 == scheme + "//" + host + "/" + r3;
    assert scheme + "//" + host + "/" + r3 == scheme + "//" + r2;
  }

  const ConflictMark := " (\U{51B2}\U{7A81})"

  /** One tooltip line: author, source and target branch, and the conflict
      mark when the merge request cannot be merged. */
  function ItemLine(m: MergeRequest): string
  {
    "- " + m.authorName + "\U{FF1A} " + m.sourceBranch + " -> " + m.targetBranch
      + (if m.mergeStatus == "cannot_be_merged" then ConflictMark else "")
  }

  /** The conflict mark ends the line exactly when the merge request cannot
      be merged (for target branches without a `)`). */
  lemma ConflictMarkIff(m: MergeRequest)
    requires ')' !in m.targetBranch
    ensures var line := ItemLine(m);
      (|line| >= |ConflictMark| && line[|line| - |ConflictMark|..] == ConflictMark)
      <==> m.mergeStatus == "cannot_be_merged"
  {
    var base := "- " + m.authorName + "\U{FF1A} " + m.sourceBranch + " -> " + m.targetBranch;
    if m.mergeStatus != "cannot_be_merged" {
      assert ItemLine(m) == base;
      assert base[|base| - 1] != ')' by {
        if |m.targetBranch| > 0 {
          assert base[|base| - 1] == m.targetBranch[|m.targetBranch| - 1];
        } else {
          assert base[|base| - 1] == ' ';
        }
      }
    } else {
      var line := ItemLine(m);
      assert line == base + ConflictMark;
      assert line[|line| - |ConflictMark|..] == ConflictMark;
    }
  }

  function ItemLines(ms: seq<MergeRequest>): seq<string>
  {
    seq(|ms|, i requires 0 <= i < |ms| => ItemLine(ms[i]))
  }

  /** One project's section: a heading with the project name, then one line
      per merge request. */
  function Section(ms: seq<MergeRequest>): string
    requires |ms| > 0
  {
    "#### " + ProjectName(ms[0].webUrl) + "\n" + Join(ItemLines(ms), "\n")
  }

  function NonEmptyLists(data: seq<seq<MergeRequest>>): seq<seq<MergeRequest>>
  {
    if |data| == 0 then []
    else (if |data[0]| > 0 then [data[0]] else []) + NonEmptyLists(data[1..])
  }

  /** The kept lists are exactly the non-empty ones. */
  lemma {:induction false} NonEmptyListsMembers(data: seq<seq<MergeRequest>>)
    ensures forall l :: l in NonEmptyLists(data) <==> l in data && |l| > 0
  {
    if |data| > 0 {
      NonEmptyListsMembers(data[1..]);
      assert data == [data[0]] + data[1..];
    }
  }

  function Sections(lists: seq<seq<MergeRequest>>): seq<string>
    requires forall i :: 0 <= i < |lists| ==> |lists[i]| > 0
  {
    seq(|lists|, i requires 0 <= i < |lists| => Section(lists[i]))
  }

  /** The tooltip: one section per project with merge requests, separated
      by a quote line. */
  function Tooltip(data: seq<seq<MergeRequest>>): string
  {
    NonEmptyListsMembers(data);
    var lists := NonEmptyLists(data);
    assert forall i :: 0 <= i < |lists| ==> lists[i] in lists;
    Join(Sections(NonEmptyLists(data)), "\n> \n")
  }

  lemma {:induction false} NonEmptyListsAppend(a: seq<seq<MergeRequest>>, b: seq<seq<MergeRequest>>)
    ensures NonEmptyLists(a + b) == NonEmptyLists(a) + NonEmptyLists(b)
  {
    if |a| == 0 {
      assert a + b == b;
    } else {
      var head: seq<seq<MergeRequest>> := if |a[0]| > 0 then [a[0]] else [];
      calc {
        NonEmptyLists(a + b);
        { assert (a + b)[0] == a[0]; assert (a + b)[1..] == a[1..] + b; }
        head + NonEmptyLists(a[1..] + b);
        { NonEmptyListsAppend(a[1..], b); }
        head + (NonEmptyLists(a[1..]) + NonEmptyLists(b));
        (head + NonEmptyLists(a[1..])) + NonEmptyLists(b);
      }
    }
  }

  /** Projects without merge requests leave no trace in the tooltip, and
      there is one section per project with some. */
  lemma TooltipSkipsEmpty(a: seq<seq<MergeRequest>>, b: seq<seq<MergeRequest>>)
    ensures Tooltip(a + [[]] + b) == Tooltip(a + b)
    ensures NonEmptyLists(a + b) == NonEmptyLists(a) + NonEmptyLists(b)
  {
    NonEmptyListsAppend(a + [[]], b);
    NonEmptyListsAppend(a, [[]]);
    NonEmptyListsAppend(a, b);
    assert NonEmptyLists([[]]) == [];
    assert NonEmptyLists(a) + [] == NonEmptyLists(a);
  }

  // ------------------------------------------------------------ service

  /** The settings the service reads; `None` is an unset value. */
  datatype GitlabSettings = GitlabSettings(
    interval: Option<int>, projects: Option<seq<ProjectConfig>>, tpl: Option<string>)

  /** The outcome of fetching all projects: a rejected request, or one list
      per project. */
  datatype FetchReply = FetchFailed | Fetched(lists: seq<seq<MergeRequest>>)

  class GitlabMergeRequestsService {
    var projects: seq<ProjectConfig>
    var tpl: string
    var interval: int
    var firstMergeRequestLink: string
    var prevRequestDataIds: seq<int>
    /** The text and tooltip of the status bar item. */
    var text: string
    var tooltip: string
    /** The number of polling timers still to fire. */
    var pendingTimers: nat

    constructor ()
      ensures projects == [] && tpl == "" && interval == 5
      ensures firstMergeRequestLink == "" && prevRequestDataIds == []
      ensures text == "" && tooltip == "" && pendingTimers == 0
    {
      projects := [];
      tpl := "";
      interval := 5;
      firstMergeRequestLink := "";
      prevRequestDataIds := [];
      text := "";
      tooltip := "";
      pendingTimers := 0;
    }

    /** `updateConfig()`: only unset values take the defaults; an empty
        template stays empty. */
    method UpdateConfig(settings: GitlabSettings)
      modifies this`interval, this`projects, this`tpl
      ensures interval == (if settings.interval.Some? then settings.interval.value else 5)
      ensures projects == (if settings.projects.Some? then settings.projects.value else [])
      ensures tpl == (if settings.tpl.Some? then settings.tpl.value else DefaultTpl)
    {
      interval := if settings.interval.Some? then settings.interval.value else 5;
      projects := if settings.projects.Some? then settings.projects.value else [];
      tpl := if settings.tpl.Some? then settings.tpl.value else DefaultTpl;
    }

    /** `fetch()`: no request without projects, otherwise one per project;
        `None` is the `undefined` or rejected result. */
    method Fetch(reply: FetchReply) returns (requested: seq<string>, data: Option<seq<seq<MergeRequest>>>)
      ensures |projects| == 0 ==> requested == [] && data == None
      ensures |projects| > 0 ==> requested == ApiUrls(projects)
      ensures |projects| > 0 && reply.FetchFailed? ==> data == None
      ensures |projects| > 0 && reply.Fetched? ==> data == Some(reply.lists)
    {
      if |projects| == 0 {
        return [], None;
      }
      requested := ApiUrls(projects);
      data := if reply.Fetched? then Some(reply.lists) else None;
    }

    /** `updateStatusBarItem()`. Without projects or with a rejected fetch
        nothing changes. Otherwise the text shows the count, the link is the
        newest merge request's, the tooltip is rebuilt, and when some merge
        request is new the message reports how many and the remembered ids
        become the current ones, newest first. */
    method UpdateStatusBarItem(reply: FetchReply) returns (requested: seq<string>, message: Option<string>)
      modifies this`firstMergeRequestLink, this`prevRequestDataIds, this`text, this`tooltip
      ensures requested == (if |projects| == 0 then [] else ApiUrls(projects))
      ensures |projects| == 0 || reply.FetchFailed? ==>
        && message == None && firstMergeRequestLink == old(firstMergeRequestLink)
        && prevRequestDataIds == old(prevRequestDataIds) && text == old(text) && tooltip == old(tooltip)
      ensures |projects| > 0 && reply.Fetched? ==>
        var flat := Flatten(reply.lists);
        var sorted := SortNewestFirst(flat);
        var newOnes := NewItems(sorted, old(prevRequestDataIds));
        && text == CountText(tpl, |flat|)
        && firstMergeRequestLink == FirstLink(flat)
        && tooltip == Tooltip(reply.lists)
        && prevRequestDataIds == NextPrevIds(sorted, old(prevRequestDataIds))
        && message == (if |newOnes| > 0 then Some(NewItemsMessage(|newOnes|)) else None)
    {
      var data;
      requested, data := Fetch(reply);
      message := None;
      if data.None? {
        assert |projects| == 0 || reply.FetchFailed?;
        return;
      }
      assert |projects| > 0 && reply.Fetched? && data.value == reply.lists;
      message := Refresh(data.value);
    }

    /** The body of `updateStatusBarItem()` once merge requests arrived. */
    method Refresh(lists: seq<seq<MergeRequest>>) returns (message: Option<string>)
      modifies this`firstMergeRequestLink, this`prevRequestDataIds, this`text, this`tooltip
      ensures var flat := Flatten(lists);
        var sorted := SortNewestFirst(flat);
        var newOnes := NewItems(sorted, old(prevRequestDataIds));
        && text == CountText(tpl, |flat|)
        && firstMergeRequestLink == FirstLink(flat)
        && tooltip == Tooltip(lists)
        && prevRequestDataIds == NextPrevIds(sorted, old(prevRequestDataIds))
        && message == (if |newOnes| > 0 then Some(NewItemsMessage(|newOnes|)) else None)
    {
      var flatData := Flatten(lists);
      var sorted := SortAndLink(flatData);
      message := RememberNew(sorted);
      Render(lists);
    }

    /** The item's new text and tooltip: the count filled into the
        template, and one section per project with merge requests. */
    method Render(lists: seq<seq<MergeRequest>>)
      modifies this`text, this`tooltip
      ensures text == CountText(tpl, |Flatten(lists)|)
      ensures tooltip == Tooltip(lists)
    {
      var count := |Flatten(lists)|;
      text := CountText(tpl, count);
      tooltip := Tooltip(lists);
    }

    /** The sorting step: the merge requests newest first, and the link of
        the newest one (empty when there is none). */
    method SortAndLink(flatData: seq<MergeRequest>) returns (sorted: seq<MergeRequest>)
      modifies this`firstMergeRequestLink
      ensures sorted == SortNewestFirst(flatData)
      ensures firstMergeRequestLink == FirstLink(flatData)
    {
      sorted := flatData;
      if |flatData| > 0 {
        sorted := Sort(flatData);
        SortHeadIsNewest(flatData);
        firstMergeRequestLink := sorted[0].webUrl;
      } else {
        firstMergeRequestLink := "";
      }
    }

    /** The notification step: the number of new merge requests, and the
        ids of this refresh remembered when there are any. */
    method RememberNew(sorted: seq<MergeRequest>) returns (message: Option<string>)
      modifies this`prevRequestDataIds
      ensures prevRequestDataIds == NextPrevIds(sorted, old(prevRequestDataIds))
      ensures var newOnes := NewItems(sorted, old(prevRequestDataIds));
        message == (if |newOnes| > 0 then Some(NewItemsMessage(|newOnes|)) else None)
    {
      message := None;
      var newData := NewItems(sorted, prevRequestDataIds);
      if |newData| > 0 {
        message := Some(NewItemsMessage(|newData|));
        prevRequestDataIds := Ids(sorted);
      }
    }

    /** `start(abort)`: re-read the settings, refresh, and arm one more
        timer. The abort signal is handed to the timer as its value rather
        than as its option, so it cancels nothing and every call adds a
        polling timer. */
    method Start(abort: bool, settings: GitlabSettings, reply: FetchReply)
      returns (requested: seq<string>, message: Option<string>)
      modifies this
      ensures pendingTimers == old(pendingTimers) + 1
      ensures interval == (if settings.interval.Some? then settings.interval.value else 5)
      ensures projects == (if settings.projects.Some? then settings.projects.value else [])
      ensures requested == (if |projects| == 0 then [] else ApiUrls(projects))
      ensures tpl == (if settings.tpl.Some? then settings.tpl.value else DefaultTpl)
    {
      UpdateConfig(settings);
      requested, message := UpdateStatusBarItem(reply);
      pendingTimers := pendingTimers + 1;
    }

    /** A timer fires and runs `start()` again. */
    method TimerFired(settings: GitlabSettings, reply: FetchReply)
      returns (requested: seq<string>, message: Option<string>)
      requires pendingTimers > 0
      modifies this
      ensures pendingTimers == old(pendingTimers)
    {
      pendingTimers := pendingTimers - 1;
      requested, message := Start(false, settings, reply);
    }
  }
}
