/** The quote feed of src/shared/fetchData.ts (and its earlier copy in
    src/fetchData.ts): the request URL for a list of stock codes, and the
    parser that turns the decoded feed text into quote records.

    Each line of the feed is searched for `(?<=var hq_str_)(\w+)="([^"]+)`;
    a line without a match gives nothing, a matched line's content is split
    at "," and read by position. Reading a position the content does not
    have hands `undefined` to `toFixed`, which throws, so the whole parse
    fails; the model returns that failure as `Err`. */
module QuoteFeed {
  import opened Wrappers
  import opened Strings
  import NumberFormat

  const UrlPrefix := "https://hq.sinajs.cn/list="

  /** The request URL for the configured stock codes. */
  function RequestUrl(codes: seq<string>): string
  {
    UrlPrefix + Join(codes, ",")
  }

  /** The part of the URL after "list=" splits at "," into the codes again
      when no code holds a comma. */
  lemma RequestUrlLists(codes: seq<string>)
    requires |codes| >= 1
    requires forall i :: 0 <= i < |codes| ==> ',' !in codes[i]
    ensures IsPrefix(UrlPrefix, RequestUrl(codes))
    ensures Split(RequestUrl(codes)[|UrlPrefix|..], ',') == codes
  {
    assert RequestUrl(codes)[|UrlPrefix|..] == Join(codes, [',']);
    SplitJoin(codes, ',');
  }

  /** What the lookbehind must see just before the code. */
  const Marker := "var hq_str_"

  /** The characters of `\w`. */
  predicate IsWordChar(c: char)
  {
    IsAsciiLetter(c) || IsAsciiDigit(c) || c == '_'
  }

  /** The length of the run of word characters starting at `i`. */
  function WordRun(s: string, i: nat): (n: nat)
    requires i <= |s|
    ensures i + n <= |s|
    ensures forall j :: i <= j < i + n ==> IsWordChar(s[j])
    ensures i + n == |s| || !IsWordChar(s[i + n])
    decreases |s| - i
  {
    if i == |s| || !IsWordChar(s[i]) then 0 else 1 + WordRun(s, i + 1)
  }

  /** The length of the run of characters other than `"` starting at `i`. */
  function NonQuoteRun(s: string, i: nat): (n: nat)
    requires i <= |s|
    ensures i + n <= |s|
    ensures forall j :: i <= j < i + n ==> s[j] != '"'
    ensures i + n == |s| || s[i + n] == '"'
    decreases |s| - i
  {
    if i == |s| || s[i] == '"' then 0 else 1 + NonQuoteRun(s, i + 1)
  }

  /** The two capture groups of a match: the code and the quoted content. */
  datatype FeedMatch = FeedMatch(code: string, content: string)

  /** The match of the feed pattern that starts at position `i`, if any:
      the lookbehind sees `var hq_str_`, then the whole run of word
      characters, `="`, and the whole non-empty run of non-quotes. */
  function MatchAt(line: string, i: nat): (m: Option<FeedMatch>)
    requires i <= |line|
  {
    if i < |Marker| || line[i - |Marker|..i] != Marker then None
    else
      var e := i + WordRun(line, i);
      if e == i || e + 2 > |line| || line[e] != '=' || line[e + 1] != '"' then None
      else
        var c := NonQuoteRun(line, e + 2);
        if c == 0 then None
        else Some(FeedMatch(line[i..e], line[e + 2..e + 2 + c]))
  }

  /** What a match at `i` captures: a non-empty word-character code right
      after the marker, followed by `="` and a non-empty quote-free content. */
  lemma MatchAtShape(line: string, i: nat)
    requires i <= |line| && MatchAt(line, i).Some?
    ensures var m := MatchAt(line, i).value;
      var e := i + |m.code|;
      && |Marker| <= i && line[i - |Marker|..i] == Marker
      && |m.code| > 0 && e + 2 + |m.content| <= |line|
      && line[i..e] == m.code
      && (forall j :: 0 <= j < |m.code| ==> IsWordChar(m.code[j]))
      && line[e] == '=' && line[e + 1] == '"'
      && |m.content| > 0
      && line[e + 2..e + 2 + |m.content|] == m.content
      && '"' !in m.content
  {
    var m := MatchAt(line, i).value;
    var e := i + WordRun(line, i);
    var c := NonQuoteRun(line, e + 2);
    assert forall j :: 0 <= j < |m.code| ==> m.code[j] == line[i + j];
    assert forall j :: 0 <= j < c ==> m.content[j] == line[e + 2 + j];
  }

  /** No match starts at any position from `i` up to, not including, `j`. */
  predicate NoMatchBetween(line: string, i: nat, j: nat)
  {
    forall k :: i <= k < j && k <= |line| ==> MatchAt(line, k).None?
  }

  /** The leftmost match at or after position `i`. */
  function FindFrom(line: string, i: nat): Option<FeedMatch>
    requires i <= |line|
    decreases |line| - i
  {
    var here := MatchAt(line, i);
    if here.Some? then here
    else if i == |line| then None
    else FindFrom(line, i + 1)
  }

  /** The search returns the match at the leftmost position where there is
      one, and nothing only when no position has a match. */
  lemma {:induction false} FindFromLeftmost(line: string, i: nat)
    requires i <= |line|
    ensures FindFrom(line, i).Some? ==>
      exists j :: i <= j <= |line| && MatchAt(line, j) == FindFrom(line, i) && NoMatchBetween(line, i, j)
    ensures FindFrom(line, i).None? ==> NoMatchBetween(line, i, |line| + 1)
    decreases |line| - i
  {
    var here := MatchAt(line, i);
    if here.Some? {
      assert FindFrom(line, i) == here;
      assert NoMatchBetween(line, i, i);
    } else if i < |line| {
      assert FindFrom(line, i) == FindFrom(line, i + 1);
      FindFromLeftmost(line, i + 1);
      if FindFrom(line, i + 1).Some? {
        var j :| i + 1 <= j <= |line| && MatchAt(line, j) == FindFrom(line, i + 1) && NoMatchBetween(line, i + 1, j);
        NoMatchExtend(line, i, j);
      } else {
        NoMatchExtend(line, i, |line| + 1);
      }
    } else {
      assert NoMatchBetween(line, i, |line| + 1) by {
        forall k | i <= k <= |line| ensures MatchAt(line, k).None? {
          assert k == i;
        }
      }
    }
  }

  lemma NoMatchExtend(line: string, i: nat, j: nat)
    requires i < |line| && i < j <= |line| + 1
    requires MatchAt(line, i).None? && NoMatchBetween(line, i + 1, j)
    ensures NoMatchBetween(line, i, j)
  {
  }

  /** `line.match(/(?<=var hq_str_)(\w+)="([^"]+)/)`. */
  function MatchLine(line: string): Option<FeedMatch>
  {
    FindFrom(line, 0)
  }

  /** One quote record; the numeric fields hold the text `toFixed` keeps. */
  datatype Quote = Quote(
    name: string, code: string,
    price: string, maxPrice: string, minPrice: string,
    openPrice: string, yesterdayPrice: string,
    date: string, time: string, turnover: string)

  /** The fixed field layout: name 0, open 1, previous close 2, price 3,
      high 4, low 5, turnover 9, date and time the third- and second-last;
      every number truncated to two decimals. */
  function QuoteOf(code: string, values: seq<string>): Quote
    requires |values| >= 10
  {
    Quote(
      name := values[0], code := code,
      price := NumberFormat.ToFixed(values[3], 2),
      maxPrice := NumberFormat.ToFixed(values[4], 2),
      minPrice := NumberFormat.ToFixed(values[5], 2),
      openPrice := NumberFormat.ToFixed(values[1], 2),
      yesterdayPrice := NumberFormat.ToFixed(values[2], 2),
      date := values[|values| - 3], time := values[|values| - 2],
      turnover := NumberFormat.ToFixed(values[9], 2))
  }

  /** A matched line whose content has fewer than ten fields: `toFixed`
      receives `undefined` and throws. */
  datatype ParseError = MissingFields(code: string, fieldCount: nat)

  /** The records one line contributes: none, one, or the failure. */
  function ParseLine(line: string): Result<Option<Quote>, ParseError>
  {
    match MatchLine(line)
    case None => Ok(None)
    case Some(m) =>
      var values := Split(m.content, ',');
      if |values| < 10 then Err(MissingFields(m.code, |values|))
      else Ok(Some(QuoteOf(m.code, values)))
  }

  function OptionToSeq(q: Option<Quote>): seq<Quote>
  {
    if q.Some? then [q.value] else []
  }

  /** `lines.flatMap(...)`: records in line order; the first failing line
      fails the whole parse. */
  function ParseLines(lines: seq<string>): Result<seq<Quote>, ParseError>
  {
    if |lines| == 0 then Ok([])
    else
      match ParseLine(lines[0])
      case Err(e) => Err(e)
      case Ok(q) =>
        match ParseLines(lines[1..])
        case Err(e) => Err(e)
        case Ok(rest) => Ok(OptionToSeq(q) + rest)
  }

  /** The parser over the decoded response text. */
  function ParseFeed(text: string): Result<seq<Quote>, ParseError>
  {
    ParseLines(Split(text, '\n'))
  }

  /** The number of lines in which the feed pattern matches. */
  function MatchedCount(lines: seq<string>): nat
  {
    if |lines| == 0 then 0
    else (if MatchLine(lines[0]).Some? then 1 else 0) + MatchedCount(lines[1..])
  }

  /** A successful parse yields exactly one record per matched line. */
  lemma {:induction false} ParseLinesCount(lines: seq<string>)
    requires ParseLines(lines).Ok?
    ensures |ParseLines(lines).value| == MatchedCount(lines) <= |lines|
  {
    if |lines| > 0 {
      ParseLinesCount(lines[1..]);
    }
  }

  /** Parsing two blocks of lines gives the first block's records followed
      by the second's; a failure in the first block wins. */
  lemma {:induction false} ParseLinesAppend(a: seq<string>, b: seq<string>)
    ensures ParseLines(a + b) ==
      match ParseLines(a)
      case Err(e) => Err(e)
      case Ok(qa) =>
        match ParseLines(b)
        case Err(e) => Err(e)
        case Ok(qb) => Ok(qa + qb)
  {
    if |a| == 0 {
      assert a + b == b;
      match ParseLines(b)
      case Err(e) =>
      case Ok(qb) => assert [] + qb == qb;
    } else {
      assert (a + b)[0] == a[0];
      assert (a + b)[1..] == a[1..] + b;
      ParseLinesAppend(a[1..], b);
      match ParseLine(a[0])
      case Err(e) =>
      case Ok(q) =>
        match ParseLines(a[1..])
        case Err(e) =>
        case Ok(qa) =>
          match ParseLines(b)
          case Err(e) =>
          case Ok(qb) =>
            assert OptionToSeq(q) + (qa + qb) == (OptionToSeq(q) + qa) + qb;
    }
  }

  /** A feed statement as the server writes it. */
  function FeedLine(code: string, fields: seq<string>): string
  {
    Marker + code + "=\"" + Join(fields, ",") + "\";"
  }

  /** Fields free of a character stay free of it when joined by "," . */
  lemma {:induction false} JoinAvoids(fields: seq<string>, c: char)
    requires c != ','
    requires forall i :: 0 <= i < |fields| ==> c !in fields[i]
    ensures c !in Join(fields, ",")
  {
    if |fields| > 1 {
      JoinAvoids(fields[1..], c);
    }
  }

  /** What a well-formed statement holds: a word-character code and at
      least one field, none with a comma, quote or line break, that do not
      join to empty text. */
  predicate WellFormedStatement(code: string, fields: seq<string>)
  {
    && |code| > 0 && (forall j :: 0 <= j < |code| ==> IsWordChar(code[j]))
    && |fields| >= 1 && Join(fields, ",") != ""
    && (forall i :: 0 <= i < |fields| ==> ',' !in fields[i] && '"' !in fields[i] && '\n' !in fields[i])
  }

  /** The pattern matches a statement at the code, capturing the code and
      the comma-joined fields. */
  lemma MatchFeedLine(code: string, fields: seq<string>)
    requires WellFormedStatement(code, fields)
    ensures MatchLine(FeedLine(code, fields)) == Some(FeedMatch(code, Join(fields, ",")))
  {
    var line := FeedLine(code, fields);
    var m := |Marker|;
    MatchAtStatement(code, fields);
    FindFromLeftmost(line, 0);
    var found := MatchLine(line);
    assert found.Some?;
    var j :| 0 <= j <= |line| && MatchAt(line, j) == found && NoMatchBetween(line, 0, j);
    assert j == m;
  }

  /** In a statement the pattern matches at the code and nowhere before. */
  lemma MatchAtStatement(code: string, fields: seq<string>)
    requires WellFormedStatement(code, fields)
    ensures MatchAt(FeedLine(code, fields), |Marker|) == Some(FeedMatch(code, Join(fields, ",")))
    ensures forall k :: 0 <= k < |Marker| ==> MatchAt(FeedLine(code, fields), k).None?
  {
    var line := FeedLine(code, fields);
    var content := Join(fields, ",");
    var m := |Marker|;
    var e := m + |code|;
    JoinAvoids(fields, '"');
    assert line == Marker + code + "=\"" + content + "\";";
    assert line[..m] == Marker;
    assert line[m..e] == code;
    assert line[e] == '=' && line[e + 1] == '"';
    assert line[e + 2..e + 2 + |content|] == content;
    assert line[e + 2 + |content|] == '"';
    MatchAtLayout(line, m, code, content);
  }

  /** A marker, a word-character code, `="`, quote-free content and a
      closing `"` are matched at the code. */
  lemma MatchAtLayout(line: string, i: nat, code: string, content: string)
    requires |Marker| <= i && i + |code| + 2 + |content| < |line|
    requires line[i - |Marker|..i] == Marker
    requires |code| > 0 && (forall j :: 0 <= j < |code| ==> IsWordChar(code[j]))
    requires line[i..i + |code|] == code
    requires line[i + |code|] == '=' && line[i + |code| + 1] == '"'
    requires |content| > 0 && '"' !in content
    requires line[i + |code| + 2..i + |code| + 2 + |content|] == content
    requires line[i + |code| + 2 + |content|] == '"'
    ensures MatchAt(line, i) == Some(FeedMatch(code, content))
  {
    var e := i + |code|;
    forall j | i <= j < e ensures IsWordChar(line[j]) {
      assert line[j] == line[i..e][j - i];
    }
    WordRunIs(line, i, |code|);
    forall j | e + 2 <= j < e + 2 + |content| ensures line[j] != '"' {
      assert line[j] == line[e + 2..e + 2 + |content|][j - e - 2];
    }
    NonQuoteRunIs(line, e + 2, |content|);
  }

  lemma {:induction false} WordRunIs(s: string, i: nat, k: nat)
    requires i + k <= |s|
    requires forall j :: i <= j < i + k ==> IsWordChar(s[j])
    requires i + k == |s| || !IsWordChar(s[i + k])
    ensures WordRun(s, i) == k
    decreases k
  {
    if k > 0 {
      WordRunIs(s, i + 1, k - 1);
    }
  }

  lemma {:induction false} NonQuoteRunIs(s: string, i: nat, k: nat)
    requires i + k <= |s|
    requires forall j :: i <= j < i + k ==> s[j] != '"'
    requires i + k == |s| || s[i + k] == '"'
    ensures NonQuoteRun(s, i) == k
    decreases k
  {
    if k > 0 {
      NonQuoteRunIs(s, i + 1, k - 1);
    }
  }

  /** A statement with at least ten fields parses to the record that reads
      the fields by position; one with fewer fails the parse. */
  lemma ParseFeedLine(code: string, fields: seq<string>)
    requires WellFormedStatement(code, fields)
    ensures |fields| >= 10 ==> ParseLine(FeedLine(code, fields)) == Ok(Some(QuoteOf(code, fields)))
    ensures |fields| < 10 ==> ParseLine(FeedLine(code, fields)) == Err(MissingFields(code, |fields|))
  {
    MatchFeedLine(code, fields);
    SplitJoin(fields, ',');
  }

  /** A feed made of well-formed statements, one per line, parses to their
      records in the same order. */
  lemma {:induction false} ParseFeedStatements(codes: seq<string>, fields: seq<seq<string>>)
    requires |codes| == |fields| >= 1
    requires forall i :: 0 <= i < |codes| ==> WellFormedStatement(codes[i], fields[i]) && |fields[i]| >= 10
    ensures ParseFeed(Join(FeedLines(codes, fields), "\n")) == Ok(QuotesOf(codes, fields))
  {
    var lines := FeedLines(codes, fields);
    forall i | 0 <= i < |lines| ensures '\n' !in lines[i] {
      JoinAvoids(fields[i], '\n');
    }
    SplitJoin(lines, '\n');
    ParseStatementLines(codes, fields);
  }

  /** The statements of a feed, one per record. */
  function FeedLines(codes: seq<string>, fields: seq<seq<string>>): (lines: seq<string>)
    requires |codes| == |fields|
    ensures |lines| == |codes|
    ensures forall i :: 0 <= i < |lines| ==> lines[i] == FeedLine(codes[i], fields[i])
  {
    if |codes| == 0 then [] else [FeedLine(codes[0], fields[0])] + FeedLines(codes[1..], fields[1..])
  }

  /** The records the statements describe, read by position. */
  function QuotesOf(codes: seq<string>, fields: seq<seq<string>>): seq<Quote>
    requires |codes| == |fields|
    requires forall i :: 0 <= i < |fields| ==> |fields[i]| >= 10
  {
    if |codes| == 0 then [] else [QuoteOf(codes[0], fields[0])] + QuotesOf(codes[1..], fields[1..])
  }

  lemma {:induction false} ParseStatementLines(codes: seq<string>, fields: seq<seq<string>>)
    requires |codes| == |fields|
    requires forall i :: 0 <= i < |codes| ==> WellFormedStatement(codes[i], fields[i]) && |fields[i]| >= 10
    ensures ParseLines(FeedLines(codes, fields)) == Ok(QuotesOf(codes, fields))
  {
    if |codes| > 0 {
      ParseFeedLine(codes[0], fields[0]);
      ParseStatementLines(codes[1..], fields[1..]);
      assert FeedLines(codes, fields)[1..] == FeedLines(codes[1..], fields[1..]);
    }
  }
}
