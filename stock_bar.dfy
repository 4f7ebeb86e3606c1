/** src/extension.ts: the stock quote status bar. Each cycle decides from
    the clock whether to skip the fetch, requests the configured codes,
    renders one entry per quote from the bar template, and arms the timer
    of the next cycle.

    The clock, the configuration and the outcome of the request are inputs.
    The price, change and percent texts are floating-point formatting and
    enter as a function of the quote. */
module StockBar {
  import opened Wrappers
  import opened Strings
  import QuoteFeed

  /** The trading-hours gate of a polling cycle: never on the initial call;
      otherwise on Saturday and Sunday, before 09:00, and when both the
      hour is past 15 and the minute past 10. */
  predicate ShouldSkip(isInit: bool, weekday: int, hour: int, minute: int)
  {
    !isInit && (weekday == 0 || weekday == 6 || hour < 9 || (hour > 15 && minute > 10))
  }

  /** On a weekday the gate as written lets 16:05 and 20:00 through and
      stops 16:11; the initial call is never gated; a weekend always is. */
  lemma GateExamples(weekday: int, hour: int, minute: int)
    ensures !ShouldSkip(false, 3, 16, 5) && !ShouldSkip(false, 3, 20, 0)
    ensures ShouldSkip(false, 3, 16, 11) && ShouldSkip(false, 3, 8, 59)
    ensures !ShouldSkip(true, weekday, hour, minute)
    ensures weekday == 0 || weekday == 6 ==> ShouldSkip(false, weekday, hour, minute)
  {
  }

  /** On a weekday, after the first run: no cycle runs before 09:00, every
      cycle from 09:00 to 15:59 runs, and from 16:00 on a cycle runs exactly
      in the first ten minutes of each hour. */
  lemma WeekdayGate(weekday: int, hour: int, minute: int)
    requires weekday != 0 && weekday != 6
    ensures hour < 9 ==> ShouldSkip(false, weekday, hour, minute)
    ensures 9 <= hour <= 15 ==> !ShouldSkip(false, weekday, hour, minute)
    ensures hour >= 16 ==> (ShouldSkip(false, weekday, hour, minute) <==> minute > 10)
  {
  }

  /** Names `Object.prototype` gives every plain object. Only the first
      group is spelled with letters alone; the others are word characters,
      so a quote code can be one of them but a `{letters}` placeholder
      cannot. */
  const InheritedMembers: set<string> :=
    {"constructor", "hasOwnProperty", "isPrototypeOf", "propertyIsEnumerable",
     "toLocaleString", "toString", "valueOf"}
    + {"__defineGetter__", "__defineSetter__", "__lookupGetter__", "__lookupSetter__", "__proto__"}

  /** The text of an inherited member: `__proto__` is `Object.prototype`
      itself, the others are native functions. */
  function InheritedText(name: string): string
  {
    if name == "__proto__" then "[object Object]"
    else "function " + (if name == "constructor" then "Object" else name) + "() { [native code] }"
  }

  /** Property access on a plain object of strings: an own property, an
      inherited member as text, or `undefined`. */
  function Property(own: map<string, string>, key: string): Option<string>
  {
    if key in own then Some(own[key])
    else if key in InheritedMembers then Some(InheritedText(key))
    else None
  }

  /** `getAlias(code, name)`: the mapped alias when the map has a non-empty
      entry for the code, otherwise the feed's name. */
  function Alias(mapped: Option<map<string, string>>, code: string, name: string): string
  {
    if mapped.Some? then
      var v := Property(mapped.value, code);
      if v.Some? && v.value != "" then v.value else name
    else name
  }

  /** The alias is the configured one exactly when that one is non-empty;
      an unmapped code that names an inherited member shows that member's
      text instead of the feed's name. */
  lemma AliasChoice(mapped: map<string, string>, code: string, name: string)
    ensures code in mapped ==>
      Alias(Some(mapped), code, name) == (if mapped[code] != "" then mapped[code] else name)
    ensures code !in mapped && code !in InheritedMembers ==> Alias(Some(mapped), code, name) == name
    ensures code !in mapped && code in InheritedMembers ==> Alias(Some(mapped), code, name) == InheritedText(code)
    ensures Alias(None, code, name) == name
  {
  }

  /** An empty alias map still answers for `__proto__`. */
  lemma AliasInheritedExample(name: string)
    ensures Alias(Some(map[]), "__proto__", name) == "[object Object]"
  {
    assert "__proto__" in InheritedMembers;
  }

  /** The three figures a quote's placeholders stand for. */
  datatype Figures = Figures(price: string, change: string, percent: string)

  function FigureMap(f: Figures): map<string, string>
  {
    map["price" := f.price, "change" := f.change, "percent" := f.percent]
  }

  /** What a placeholder `{key}` is replaced with: the property's value, or
      the placeholder itself when there is none. */
  function PlaceholderValue(own: map<string, string>, key: string): string
  {
    var v := Property(own, key);
    if v.Some? then v.value else Braced(key)
  }

  /** The length of the run of ASCII letters starting at `i`. */
  function LetterRun(s: string, i: nat): (n: nat)
    requires i <= |s|
    ensures i + n <= |s|
    ensures forall j :: i <= j < i + n ==> IsAsciiLetter(s[j])
    ensures i + n == |s| || !IsAsciiLetter(s[i + n])
    decreases |s| - i
  {
    if i == |s| || !IsAsciiLetter(s[i]) then 0 else 1 + LetterRun(s, i + 1)
  }

  /** `tpl.replace(/{[a-z]+}/ig, ...)`: each `{letters}` in the template is
      replaced by its value, scanning left to right. */
  function FillTemplate(tpl: string, own: map<string, string>): string
    decreases |tpl|
  {
    if |tpl| == 0 then ""
    else
      var n := if tpl[0] == '{' then LetterRun(tpl, 1) else 0;
      if n > 0 && 1 + n < |tpl| && tpl[1 + n] == '}' then
        PlaceholderValue(own, tpl[1..1 + n]) + FillTemplate(tpl[2 + n..], own)
      else [tpl[0]] + FillTemplate(tpl[1..], own)
  }

  /** Text without `{` is copied as it is. */
  lemma {:induction false} FillSkips(a: string, b: string, own: map<string, string>)
    requires '{' !in a
    ensures FillTemplate(a + b, own) == a + FillTemplate(b, own)
  {
    if |a| > 0 {
      assert (a + b)[0] == a[0];
      assert (a + b)[1..] == a[1..] + b;
      FillSkips(a[1..], b, own);
      assert a == [a[0]] + a[1..];
    } else {
      assert a + b == b;
    }
  }

  /** A placeholder of letters is replaced by its value. */
  lemma FillSlot(name: string, b: string, own: map<string, string>)
    requires |name| > 0 && IsLetters(name)
    ensures FillTemplate(Braced(name) + b, own) == PlaceholderValue(own, name) + FillTemplate(b, own)
  {
    var s := Braced(name) + b;
    var n := |name|;
    assert s[0] == '{' && 1 + n < |s| && s[1 + n] == '}' && s[1..1 + n] == name && s[2 + n..] == b by {
      assert s == "{" + name + "}" + b;
    }
    assert LetterRun(s, 1) == n by {
      forall j | 1 <= j < 1 + n ensures IsAsciiLetter(s[j]) {
        assert s[j] == s[1..1 + n][j - 1];
      }
      LetterRunIs(s, 1, n);
    }
    FillAt(s, n, own);
  }

  /** The placeholder branch of the scan, for a run of `n` letters. */
  lemma FillAt(s: string, n: nat, own: map<string, string>)
    requires 0 < n && 1 + n < |s| && s[0] == '{' && LetterRun(s, 1) == n && s[1 + n] == '}'
    ensures FillTemplate(s, own) == PlaceholderValue(own, s[1..1 + n]) + FillTemplate(s[2 + n..], own)
  {
  }

  lemma {:induction false} LetterRunIs(s: string, i: nat, k: nat)
    requires i + k <= |s|
    requires forall j :: i <= j < i + k ==> IsAsciiLetter(s[j])
    requires i + k == |s| || !IsAsciiLetter(s[i + k])
    ensures LetterRun(s, i) == k
    decreases k
  {
    if k > 0 {
      LetterRunIs(s, i + 1, k - 1);
    }
  }

  /** The values every slot name receives: own properties, inherited
      members, and the placeholder itself for any other name. */
  function SlotValues(own: map<string, string>, pieces: seq<Piece>): map<string, string>
  {
    map n | n in SlotNames(pieces) :: PlaceholderValue(own, n)
  }

  function SlotNames(pieces: seq<Piece>): set<string>
  {
    set i | 0 <= i < |pieces| && pieces[i].Slot? :: pieces[i].name
  }

  /** Filling a template replaces each `{name}` slot by its value and keeps
      all literal text: `{price}`, `{change}` and `{percent}` get the
      figures, `{Price}` or any other unknown name stays as written. */
  lemma {:induction false} FillTemplateSpelled(pieces: seq<Piece>, own: map<string, string>)
    requires WellFormed(pieces)
    ensures FillTemplate(Spell(pieces, map[]), own) == Spell(pieces, SlotValues(own, pieces))
  {
    if |pieces| > 0 {
      var rest := pieces[1..];
      assert WellFormed(rest) by {
        forall i | 0 <= i < |rest| ensures rest[i] == pieces[i + 1] { }
      }
      FillTemplateSpelled(rest, own);
      SpellAgree(rest, SlotValues(own, rest), SlotValues(own, pieces));
      assert pieces[0] == pieces[..1][0];
      match pieces[0]
      case Text(t) =>
        FillSkips(t, Spell(rest, map[]), own);
      case Slot(n) =>
        FillSlot(n, Spell(rest, map[]), own);
        assert n in SlotNames(pieces);
    }
  }

  /** Spelling only looks at the names of the slots present. */
  lemma {:induction false} SpellAgree(pieces: seq<Piece>, f: map<string, string>, g: map<string, string>)
    requires forall i :: 0 <= i < |pieces| && pieces[i].Slot? ==>
      (pieces[i].name in f <==> pieces[i].name in g) &&
      (pieces[i].name in f ==> f[pieces[i].name] == g[pieces[i].name])
    ensures Spell(pieces, f) == Spell(pieces, g)
  {
    if |pieces| > 0 {
      SpellAgree(pieces[1..], f, g);
    }
  }

  /** A placeholder on its own becomes its value. */
  lemma FillLone(name: string, own: map<string, string>)
    requires |name| > 0 && IsLetters(name)
    ensures FillTemplate(Braced(name), own) == PlaceholderValue(own, name)
  {
    FillSlot(name, "", own);
    assert Braced(name) + "" == Braced(name);
  }

  /** With the quote figures, `{price}` becomes the price text. */
  lemma FillPriceExample(f: Figures)
    ensures FillTemplate(Braced("price"), FigureMap(f)) == f.price
  {
    FillLone("price", FigureMap(f));
  }

  /** Names are matched case-sensitively: `{Price}` names no property and
      passes through as written. */
  lemma FillUnknownExample(f: Figures)
    ensures FillTemplate(Braced("Price"), FigureMap(f)) == Braced("Price")
  {
    CapitalNotInherited("Price");
    FillLone("Price", FigureMap(f));
  }

  /** Every inherited member name starts with a lower-case letter or `_`. */
  lemma CapitalNotInherited(key: string)
    requires |key| > 0 && 'A' <= key[0] <= 'Z'
    ensures key !in InheritedMembers
  {
    forall k | k in InheritedMembers
      ensures |k| > 0 && (k[0] == '_' || 'a' <= k[0] <= 'z')
    {
    }
  }

  const EntrySeparator := "$(debug-stackframe-dot)"

  /** One entry of the bar: the alias followed by the filled template. */
  function Entry(q: QuoteFeed.Quote, mapped: Option<map<string, string>>, tpl: string, f: Figures): string
  {
    Alias(mapped, q.code, q.name) + FillTemplate(tpl, FigureMap(f))
  }

  /** The entries of all quotes, in feed order. */
  function Entries(quotes: seq<QuoteFeed.Quote>, mapped: Option<map<string, string>>, tpl: string,
                   figuresOf: QuoteFeed.Quote -> Figures): seq<string>
  {
    seq(|quotes|, i requires 0 <= i < |quotes| => Entry(quotes[i], mapped, tpl, figuresOf(quotes[i])))
  }

  /** The bar text: the entries joined by the stack-frame dot icon. */
  function BarText(quotes: seq<QuoteFeed.Quote>, mapped: Option<map<string, string>>, tpl: string,
                   figuresOf: QuoteFeed.Quote -> Figures): string
  {
    Join(Entries(quotes, mapped, tpl, figuresOf), EntrySeparator)
  }

  /** The bar shows the first quote's entry first; further entries follow
      behind the separator in feed order, and a single quote shows alone. */
  lemma BarTextCons(quotes: seq<QuoteFeed.Quote>, mapped: Option<map<string, string>>, tpl: string,
                    figuresOf: QuoteFeed.Quote -> Figures)
    requires |quotes| >= 1
    ensures var head := Entry(quotes[0], mapped, tpl, figuresOf(quotes[0]));
      BarText(quotes, mapped, tpl, figuresOf) ==
        if |quotes| == 1 then head
        else head + EntrySeparator + BarText(quotes[1..], mapped, tpl, figuresOf)
  {
    var es := Entries(quotes, mapped, tpl, figuresOf);
    assert es[1..] == Entries(quotes[1..], mapped, tpl, figuresOf);
  }

  /** Which symbol set `getSign` picks from. */
  datatype SignKind = Icon | Char | Emoji

  function UpSymbol(kind: SignKind): string
  {
    match kind
    case Icon => "$(chevron-up)"
    case Char => "+"
    case Emoji => "\U{1F60D}"
  }

  function DownSymbol(kind: SignKind): string
  {
    match kind
    case Icon => "$(chevron-down)"
    case Char => "-"
    case Emoji => "\U{1F922}"
  }

  /** The symbol `getSign` puts before the magnitude. */
  function SignSymbol(num: real, kind: SignKind): string
  {
    if num > 0.0 then UpSymbol(kind) else DownSymbol(kind)
  }

  /** The "up" symbol is chosen exactly for positive numbers; zero gets the
      "down" symbol. */
  lemma SignSymbolUp(num: real, kind: SignKind)
    ensures SignSymbol(num, kind) == UpSymbol(kind) <==> num > 0.0
    ensures SignSymbol(0.0, kind) == DownSymbol(kind)
  {
  }

  /** The settings one cycle reads. */
  datatype Config = Config(
    stock: Option<seq<string>>, mapped: Option<map<string, string>>,
    tpl: string, interval: int)

  /** The outcome of the quote request: failed, or the decoded body. */
  datatype FeedReply = FeedFailed | FeedBody(text: string)

  /** The module-level state: the status bar text and the timer `f`. */
  class StockBarState {
    /** The text the status bar item shows. */
    var text: string
    /** The delay in seconds of the timer that is armed, if any. */
    var timer: Option<int>

    constructor ()
      ensures text == "" && timer == None
    {
      text := "";
      timer := None;
    }

    /** `updateStatusBarItem(isInit)`, run when the previous timer fired or
        was cleared. `requested` is the URL fetched, if any. */
    method UpdateStatusBarItem(isInit: bool, config: Config, weekday: int, hour: int, minute: int,
                               reply: FeedReply, figuresOf: QuoteFeed.Quote -> Figures)
      returns (requested: Option<string>)
      modifies this
      ensures ShouldSkip(isInit, weekday, hour, minute) ==>
        requested == None && timer == Some(30) && text == old(text)
      ensures !ShouldSkip(isInit, weekday, hour, minute) && (config.stock.None? || config.stock.value == []) ==>
        requested == None && timer == None && text == old(text)
      ensures !ShouldSkip(isInit, weekday, hour, minute) && config.stock.Some? && config.stock.value != [] ==>
        && requested == Some(QuoteFeed.RequestUrl(config.stock.value))
        && timer == Some(config.interval)
        && text == (if reply.FeedBody? && QuoteFeed.ParseFeed(reply.text).Ok?
                    then BarText(QuoteFeed.ParseFeed(reply.text).value, config.mapped, config.tpl, figuresOf)
                    else old(text))
    {
      timer := None;
      requested := None;
      if ShouldSkip(isInit, weekday, hour, minute) {
        timer := Some(30);
        return;
      }
      if config.stock.Some? && |config.stock.value| > 0 {
        requested := Some(QuoteFeed.RequestUrl(config.stock.value));
        if reply.FeedBody? {
          var parsed := QuoteFeed.ParseFeed(reply.text);
          if parsed.Ok? {
            text := BarText(parsed.value, config.mapped, config.tpl, figuresOf);
          }
        }
        timer := Some(config.interval);
      }
    }

    /** A configuration change: clear the timer and run an initial cycle. */
    method OnConfigurationChange(config: Config, weekday: int, hour: int, minute: int,
                                 reply: FeedReply, figuresOf: QuoteFeed.Quote -> Figures)
      returns (requested: Option<string>)
      modifies this
      ensures config.stock.Some? && config.stock.value != [] ==>
        requested == Some(QuoteFeed.RequestUrl(config.stock.value)) && timer == Some(config.interval)
      ensures config.stock.None? || config.stock.value == [] ==>
        requested == None && timer == None && text == old(text)
    {
      timer := None;
      requested := UpdateStatusBarItem(true, config, weekday, hour, minute, reply, figuresOf);
    }
  }
}
