/** String operations shared by the model: JavaScript's `split` on one
    character and `join`, a literal global `replace`, decimal rendering of
    naturals, and a template of text pieces and `{name}` slots. */
module Strings {

  /** `s.split(c)` for a one-character separator: the pieces between
      separators, always at least one. */
  function Split(s: string, sep: char): (parts: seq<string>)
    ensures |parts| >= 1
    ensures forall i :: 0 <= i < |parts| ==> sep !in parts[i]
  {
    if |s| == 0 then [""]
    else
      var rest := Split(s[1..], sep);
      if s[0] == sep then [""] + rest
      else [[s[0]] + rest[0]] + rest[1..]
  }

  /** `parts.join(sep)`. */
  function Join(parts: seq<string>, sep: string): string
  {
    if |parts| == 0 then ""
    else if |parts| == 1 then parts[0]
    else parts[0] + sep + Join(parts[1..], sep)
  }

  /** Joining the pieces of a split with the separator gives the input back. */
  lemma {:induction false} JoinSplit(s: string, sep: char)
    ensures Join(Split(s, sep), [sep]) == s
  {
    if |s| > 0 {
      var rest := Split(s[1..], sep);
      JoinSplit(s[1..], sep);
      if s[0] == sep {
        assert Split(s, sep) == [""] + rest;
      } else {
        var parts := Split(s, sep);
        assert parts[1..] == rest[1..];
        if |rest| == 1 {
          assert Join(parts, [sep]) == [s[0]] + rest[0];
        } else {
          assert Join(rest, [sep]) == rest[0] + [sep] + Join(rest[1..], [sep]);
          assert Join(parts, [sep]) == [s[0]] + rest[0] + [sep] + Join(rest[1..], [sep]);
        }
        assert s == [s[0]] + s[1..];
      }
    }
  }

  /** Splitting a join of separator-free pieces gives the pieces back. */
  lemma {:induction false} SplitJoin(parts: seq<string>, sep: char)
    requires |parts| >= 1
    requires forall i :: 0 <= i < |parts| ==> sep !in parts[i]
    ensures Split(Join(parts, [sep]), sep) == parts
  {
    if |parts| == 1 {
      SplitPlain(parts[0], sep);
    } else {
      SplitJoin(parts[1..], sep);
      SplitAround(parts[0], Join(parts[1..], [sep]), sep);
      assert parts == [parts[0]] + parts[1..];
    }
  }

  /** A string without the separator splits into itself. */
  lemma {:induction false} SplitPlain(s: string, sep: char)
    requires sep !in s
    ensures Split(s, sep) == [s]
  {
    if |s| > 0 {
      SplitPlain(s[1..], sep);
      assert s == [s[0]] + s[1..];
    }
  }

  /** A separator-free head followed by the separator becomes the first piece. */
  lemma {:induction false} SplitAround(a: string, b: string, sep: char)
    requires sep !in a
    ensures Split(a + [sep] + b, sep) == [a] + Split(b, sep)
  {
    if |a| == 0 {
      assert a + [sep] + b == [sep] + b;
      assert ([sep] + b)[1..] == b;
    } else {
      SplitAround(a[1..], b, sep);
      assert (a + [sep] + b)[1..] == a[1..] + [sep] + b;
      assert a == [a[0]] + a[1..];
    }
  }

  predicate IsPrefix(p: string, s: string)
  {
    |p| <= |s| && s[..|p|] == p
  }

  /** `s.includes(sub)`. */
  predicate Contains(s: string, sub: string)
    decreases |s|
  {
    IsPrefix(sub, s) || (|s| > 0 && Contains(s[1..], sub))
  }

  /** An occurrence at a given position is found by `Contains`. */
  lemma {:induction false} ContainsAt(s: string, sub: string, i: nat)
    requires i + |sub| <= |s| && s[i..i + |sub|] == sub
    ensures Contains(s, sub)
  {
    if i > 0 {
      assert s[1..][i - 1..i - 1 + |sub|] == s[i..i + |sub|];
      ContainsAt(s[1..], sub, i - 1);
    }
  }

  /** `s.replace(/pat/g, rep)` for a literal pattern: scan left to right,
      replace each match and continue after it. */
  function ReplaceAll(s: string, pat: string, rep: string): string
    requires |pat| > 0
    decreases |s|
  {
    if |s| == 0 then ""
    else if IsPrefix(pat, s) then rep + ReplaceAll(s[|pat|..], pat, rep)
    else [s[0]] + ReplaceAll(s[1..], pat, rep)
  }

  /** Text holding no first character of the pattern is copied unchanged. */
  lemma {:induction false} ReplaceAllSkips(a: string, b: string, pat: string, rep: string)
    requires |pat| > 0 && pat[0] !in a
    ensures ReplaceAll(a + b, pat, rep) == a + ReplaceAll(b, pat, rep)
  {
    if |a| > 0 {
      assert (a + b)[0] == a[0];
      assert !IsPrefix(pat, a + b);
      assert (a + b)[1..] == a[1..] + b;
      ReplaceAllSkips(a[1..], b, pat, rep);
      assert a == [a[0]] + a[1..];
    } else {
      assert a + b == b;
    }
  }

  predicate IsAsciiLetter(c: char)
  {
    'a' <= c <= 'z' || 'A' <= c <= 'Z'
  }

  predicate IsAsciiDigit(c: char)
  {
    '0' <= c <= '9'
  }

  predicate IsLetters(s: string)
  {
    forall i :: 0 <= i < |s| ==> IsAsciiLetter(s[i])
  }

  /** The `{name}` text of a placeholder. */
  function Braced(name: string): string
  {
    "{" + name + "}"
  }

  /** One piece of a template: literal text or a `{name}` slot. */
  datatype Piece = Text(text: string) | Slot(name: string)

  /** Pieces whose literal text holds no `{` and whose slot names are
      non-empty runs of letters. */
  predicate WellFormed(pieces: seq<Piece>)
  {
    forall i :: 0 <= i < |pieces| ==>
      match pieces[i]
      case Text(t) => '{' !in t
      case Slot(n) => |n| > 0 && IsLetters(n)
  }

  /** The template text of `pieces`, with every slot whose name is in `fill`
      written as its value and every other slot written as `{name}`. */
  function Spell(pieces: seq<Piece>, fill: map<string, string>): string
  {
    if |pieces| == 0 then ""
    else PieceText(pieces[0], fill) + Spell(pieces[1..], fill)
  }

  /** The text of one piece. */
  function PieceText(p: Piece, fill: map<string, string>): string
  {
    match p
    case Text(t) => t
    case Slot(n) => if n in fill then fill[n] else Braced(n)
  }

  lemma SpellCons(p: Piece, rest: seq<Piece>, fill: map<string, string>)
    ensures Spell([p] + rest, fill) == PieceText(p, fill) + Spell(rest, fill)
  {
    assert ([p] + rest)[0] == p && ([p] + rest)[1..] == rest;
  }

  /** Two different letter names never match as braced placeholders. */
  lemma BracedDistinct(k: string, n: string, rest: string)
    requires IsLetters(k) && IsLetters(n) && k != n
    ensures !IsPrefix(Braced(k), Braced(n) + rest)
  {
    var s, p := Braced(n) + rest, Braced(k);
    if |p| <= |s| {
      var j: nat;
      if |k| < |n| {
        j := |k| + 1;
        assert s[j] == n[|k|] && p[j] == '}';
      } else if |k| > |n| {
        j := |n| + 1;
        assert s[j] == '}' && p[j] == k[|n|];
      } else {
        var i :| 0 <= i < |k| && k[i] != n[i];
        j := i + 1;
        assert s[j] == n[i] && p[j] == k[i];
      }
      assert s[..|p|][j] != p[j];
    }
  }

  /** A well-formed piece placed before text is filled by replacing `{k}`. */
  lemma ReplacePiece(p: Piece, rest: string, fill: map<string, string>, k: string, v: string)
    requires WellFormed([p])
    requires |k| > 0 && IsLetters(k) && k !in fill
    requires forall n :: n in fill ==> '{' !in fill[n]
    ensures ReplaceAll(PieceText(p, fill) + rest, Braced(k), v)
         == PieceText(p, fill[k := v]) + ReplaceAll(rest, Braced(k), v)
  {
    assert [p][0] == p;
    match p
    case Text(t) =>
      ReplaceAllSkips(t, rest, Braced(k), v);
    case Slot(n) =>
      if n in fill {
        ReplaceAllSkips(fill[n], rest, Braced(k), v);
      } else if n == k {
        var s := Braced(k) + rest;
        assert IsPrefix(Braced(k), s);
        assert s[|Braced(k)|..] == rest;
      } else {
        OtherSlotKept(k, n, rest, v);
      }
  }

  /** A placeholder of another name is copied as it is. */
  lemma OtherSlotKept(k: string, n: string, rest: string, v: string)
    requires |k| > 0 && IsLetters(k) && IsLetters(n) && k != n
    ensures ReplaceAll(Braced(n) + rest, Braced(k), v) == Braced(n) + ReplaceAll(rest, Braced(k), v)
  {
    var s := Braced(n) + rest;
    BracedDistinct(k, n, rest);
    assert s[1..] == n + "}" + rest;
    assert '{' !in n + "}";
    ReplaceAllSkips(n + "}", rest, Braced(k), v);
    assert Braced(n) == "{" + (n + "}");
  }

  /** Replacing every `{k}` in a spelled template fills exactly the `k`
      slots with `v` and leaves all other text as it was. */
  lemma {:induction false} ReplaceSlot(pieces: seq<Piece>, fill: map<string, string>, k: string, v: string)
    requires WellFormed(pieces)
    requires |k| > 0 && IsLetters(k) && k !in fill
    requires forall n :: n in fill ==> '{' !in fill[n]
    ensures ReplaceAll(Spell(pieces, fill), Braced(k), v) == Spell(pieces, fill[k := v])
  {
    if |pieces| > 0 {
      var rest := Spell(pieces[1..], fill);
      assert WellFormed(pieces[1..]) by {
        forall i | 0 <= i < |pieces| - 1 ensures pieces[1..][i] == pieces[i + 1] { }
      }
      assert WellFormed([pieces[0]]) by {
        assert [pieces[0]][0] == pieces[0];
      }
      calc {
        ReplaceAll(Spell(pieces, fill), Braced(k), v);
        ReplaceAll(PieceText(pieces[0], fill) + rest, Braced(k), v);
        { ReplacePiece(pieces[0], rest, fill, k, v); }
        PieceText(pieces[0], fill[k := v]) + ReplaceAll(rest, Braced(k), v);
        { ReplaceSlot(pieces[1..], fill, k, v); }
        PieceText(pieces[0], fill[k := v]) + Spell(pieces[1..], fill[k := v]);
      }
    }
  }

  /** The decimal digits of `n`, most significant first, without leading zeros. */
  function NatToString(n: nat): (s: string)
    ensures |s| > 0 && forall i :: 0 <= i < |s| ==> IsAsciiDigit(s[i])
  {
    if n < 10 then [DigitChar(n)] else NatToString(n / 10) + [DigitChar(n % 10)]
  }

  function DigitChar(d: nat): (c: char)
    requires d < 10
    ensures IsAsciiDigit(c)
  {
    ['0', '1', '2', '3', '4', '5', '6', '7', '8', '9'][d]
  }

  /** The value of a string of decimal digits. */
  function DecimalValue(s: string): nat
    requires forall i :: 0 <= i < |s| ==> IsAsciiDigit(s[i])
  {
    if |s| == 0 then 0
    else 10 * DecimalValue(s[..|s| - 1]) + DigitValue(s[|s| - 1])
  }

  function DigitValue(c: char): nat
    requires IsAsciiDigit(c)
  {
    c as int - '0' as int
  }

  /** Reading the decimal text of `n` back gives `n`, and the text has no
      leading zero unless it is "0". */
  lemma {:induction false} NatToStringRoundTrip(n: nat)
    ensures DecimalValue(NatToString(n)) == n
    ensures NatToString(n)[0] == '0' ==> n == 0
  {
    var s := NatToString(n);
    if n >= 10 {
      NatToStringRoundTrip(n / 10);
      assert s[..|s| - 1] == NatToString(n / 10);
      assert s[0] == NatToString(n / 10)[0];
    }
  }
}
