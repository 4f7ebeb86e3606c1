/** `encodeURIComponent`, as src/shared/gitlab.ts applies it to project
    ids: the UTF-8 bytes of the text, each written as itself when it is an
    unreserved ASCII character and as `%` and two upper-case hex digits
    otherwise. */
module UriEncoding {
  import opened Wrappers
  import opened Strings

  type Byte = b: int | 0 <= b < 256

  /** The characters `encodeURIComponent` leaves as they are. */
  predicate IsUnreserved(c: char)
  {
    IsAsciiLetter(c) || IsAsciiDigit(c) || c in "-_.!~*'()"
  }

  /** The UTF-8 encoding of one Unicode scalar value. */
  function Utf8Char(c: char): (bs: seq<Byte>)
    ensures 1 <= |bs| <= 4
  {
    var cp := c as int;
    if cp < 0x80 then [cp]
    else if cp < 0x800 then [0xC0 + cp / 64, 0x80 + cp % 64]
    else if cp < 0x10000 then [0xE0 + cp / 4096, 0x80 + (cp / 64) % 64, 0x80 + cp % 64]
    else [0xF0 + cp / 262144, 0x80 + (cp / 4096) % 64, 0x80 + (cp / 64) % 64, 0x80 + cp % 64]
  }

  /** The code point a UTF-8 sequence of one to four bytes stands for. */
  function Utf8Value(bs: seq<Byte>): int
    requires 1 <= |bs| <= 4
  {
    var b: seq<int> := bs;
    if |b| == 1 then b[0]
    else if |b| == 2 then (b[0] - 0xC0) * 64 + (b[1] - 0x80)
    else if |b| == 3 then (b[0] - 0xE0) * 4096 + (b[1] - 0x80) * 64 + (b[2] - 0x80)
    else (b[0] - 0xF0) * 262144 + (b[1] - 0x80) * 4096 + (b[2] - 0x80) * 64 + (b[3] - 0x80)
  }

  /** Each character's bytes read back as its code point, the lead byte
      announces the length, and every further byte is a continuation byte. */
  lemma Utf8CharRoundTrip(c: char)
    ensures Utf8Value(Utf8Char(c)) == c as int
    ensures var bs := Utf8Char(c);
      && (|bs| == 1 <==> bs[0] < 0x80)
      && (|bs| == 2 <==> 0xC0 <= bs[0] < 0xE0)
      && (|bs| == 3 <==> 0xE0 <= bs[0] < 0xF0)
      && (|bs| == 4 <==> 0xF0 <= bs[0])
      && (forall i :: 1 <= i < |bs| ==> 0x80 <= bs[i] < 0xC0)
  {
    var cp := c as int;
    if cp >= 0x10000 {
      FourByteDigits(cp);
    } else if cp >= 0x800 {
      ThreeByteDigits(cp);
    } else if cp >= 0x80 {
      TwoByteDigits(cp);
    }
  }

  /** The base-64 digits of a code point below 0x800. */
  lemma TwoByteDigits(cp: int)
    requires 0x80 <= cp < 0x800
    ensures 2 <= cp / 64 < 32 && cp == (cp / 64) * 64 + cp % 64
  {
  }

  /** Dividing by 64 twice is dividing by 4096. */
  lemma DivDiv64(x: nat)
    ensures (x / 64) / 64 == x / 4096
  {
    var a, b := x / 4096, x % 4096;
    assert x == 4096 * a + b;
    assert b == 64 * (b / 64) + b % 64;
    assert x == 64 * (64 * a + b / 64) + b % 64;
    assert x / 64 == 64 * a + b / 64;
  }

  /** The base-64 digits of a code point from 0x800 below 0x10000. */
  lemma ThreeByteDigits(cp: int)
    requires 0x800 <= cp < 0x10000
    ensures 0 <= cp / 4096 < 16 && 0 <= (cp / 64) % 64 < 64
    ensures cp == (cp / 4096) * 4096 + ((cp / 64) % 64) * 64 + cp % 64
  {
    var q := cp / 64;
    var a, m, r := cp / 4096, q % 64, cp % 64;
    DivDiv64(cp);
    assert cp == 64 * q + r;
    assert q == 64 * a + m;
    assert cp == 4096 * a + 64 * m + r;
  }

  /** The base-64 digits of a code point from 0x10000 on. */
  lemma FourByteDigits(cp: int)
    requires 0x10000 <= cp < 0x110000
    ensures 0 <= cp / 262144 < 5 && 0 <= (cp / 4096) % 64 < 64 && 0 <= (cp / 64) % 64 < 64
    ensures cp == (cp / 262144) * 262144 + ((cp / 4096) % 64) * 4096 + ((cp / 64) % 64) * 64 + cp % 64
  {
    var q := cp / 64;
    var t := q / 64;
    DivDiv64(cp);
    DivDiv64(q);
    var a, m2, m1, r := cp / 262144, t % 64, q % 64, cp % 64;
    assert t / 64 == a by {
      var b := cp % 262144;
      assert cp == 262144 * a + b;
      assert b == 4096 * (b / 4096) + b % 4096;
      assert cp == 4096 * (64 * a + b / 4096) + b % 4096;
      assert cp / 4096 == 64 * a + b / 4096;
    }
    assert cp == 64 * q + r;
    assert q == 64 * t + m1;
    assert t == 64 * a + m2;
    assert cp == 262144 * a + 4096 * m2 + 64 * m1 + r;
  }

  function Utf8Encode(s: string): seq<Byte>
  {
    if |s| == 0 then [] else Utf8Char(s[0]) + Utf8Encode(s[1..])
  }

  function HexDigit(n: nat): (c: char)
    requires n < 16
  {
    "0123456789ABCDEF"[n]
  }

  predicate IsHexDigit(c: char)
  {
    IsAsciiDigit(c) || 'A' <= c <= 'F' || 'a' <= c <= 'f'
  }

  function HexValue(c: char): nat
    requires IsHexDigit(c)
  {
    if IsAsciiDigit(c) then c as int - '0' as int
    else if 'A' <= c <= 'F' then c as int - 'A' as int + 10
    else c as int - 'a' as int + 10
  }

  lemma HexDigitValue(n: nat)
    requires n < 16
    ensures IsHexDigit(HexDigit(n)) && HexValue(HexDigit(n)) == n
  {
  }

  /** How one byte is written. */
  function PercentByte(b: Byte): string
  {
    if b < 128 && IsUnreserved(b as char) then [b as char]
    else ['%', HexDigit(b / 16), HexDigit(b % 16)]
  }

  function PercentBytes(bs: seq<Byte>): string
  {
    if |bs| == 0 then "" else PercentByte(bs[0]) + PercentBytes(bs[1..])
  }

  /** `encodeURIComponent(s)`. */
  function EncodeUriComponent(s: string): string
  {
    PercentBytes(Utf8Encode(s))
  }

  /** Decoding: `%` with two hex digits is that byte, any other ASCII
      character is its own code; anything else does not decode. */
  function PercentDecode(t: string): Option<seq<Byte>>
  {
    if |t| == 0 then Some([])
    else if t[0] == '%' then
      if |t| >= 3 && IsHexDigit(t[1]) && IsHexDigit(t[2]) then
        match PercentDecode(t[3..])
        case Some(rest) => Some([16 * HexValue(t[1]) + HexValue(t[2])] + rest)
        case None => None
      else None
    else if t[0] as int < 128 then
      match PercentDecode(t[1..])
      case Some(rest) => Some([t[0] as int] + rest)
      case None => None
    else None
  }

  lemma PlainByteDecodes(b: Byte, rest: string)
    requires b < 128 && IsUnreserved(b as char)
    ensures PercentDecode([b as char] + rest) ==
      match PercentDecode(rest)
      case Some(bs) => Some([b] + bs)
      case None => None
  {
    var t := [b as char] + rest;
    assert t[0] == b as char && t[1..] == rest;
  }

  lemma EscapedByteDecodes(b: Byte, rest: string)
    ensures PercentDecode(['%', HexDigit(b / 16), HexDigit(b % 16)] + rest) ==
      match PercentDecode(rest)
      case Some(bs) => Some([b] + bs)
      case None => None
  {
    var q, r := b / 16, b % 16;
    assert 16 * q + r == b;
    var hi, lo := HexDigit(q), HexDigit(r);
    HexDigitValue(q);
    HexDigitValue(r);
    var t := ['%', hi, lo] + rest;
    assert t[0] == '%' && t[1] == hi && t[2] == lo && t[3..] == rest;
  }

  lemma PercentByteDecodes(b: Byte, rest: string)
    ensures PercentDecode(PercentByte(b) + rest) ==
      match PercentDecode(rest)
      case Some(bs) => Some([b] + bs)
      case None => None
  {
    if b < 128 && IsUnreserved(b as char) {
      PlainByteDecodes(b, rest);
    } else {
      EscapedByteDecodes(b, rest);
    }
  }

  /** The percent-encoded text decodes to exactly the bytes encoded. */
  lemma {:induction false} PercentRoundTrip(bs: seq<Byte>)
    ensures PercentDecode(PercentBytes(bs)) == Some(bs)
  {
    if |bs| > 0 {
      PercentRoundTrip(bs[1..]);
      PercentByteDecodes(bs[0], PercentBytes(bs[1..]));
      assert bs == [bs[0]] + bs[1..];
    }
  }

  /** `decodeURIComponent`'s byte level undoes `encodeURIComponent`: the
      encoded id decodes to the UTF-8 bytes of the id. */
  lemma EncodeUriComponentRoundTrip(s: string)
    ensures PercentDecode(EncodeUriComponent(s)) == Some(Utf8Encode(s))
  {
    PercentRoundTrip(Utf8Encode(s));
  }

  /** Characters that may appear in encoded text. */
  predicate IsUriSafe(c: char)
  {
    IsUnreserved(c) || c == '%' || IsHexDigit(c)
  }

  lemma {:induction false} PercentBytesSafe(bs: seq<Byte>)
    ensures forall i :: 0 <= i < |PercentBytes(bs)| ==> IsUriSafe(PercentBytes(bs)[i])
  {
    if |bs| > 0 {
      PercentBytesSafe(bs[1..]);
      var h, t := PercentByte(bs[0]), PercentBytes(bs[1..]);
      forall i | 0 <= i < |h| ensures IsUriSafe(h[i]) { }
      assert PercentBytes(bs) == h + t;
    }
  }

  /** The encoded text holds only unreserved characters, `%` and hex
      digits: in particular no `/`, `?`, `#` or `&`, so an encoded id stays
      one path segment. */
  lemma EncodeUriComponentSafe(s: string)
    ensures forall i :: 0 <= i < |EncodeUriComponent(s)| ==> IsUriSafe(EncodeUriComponent(s)[i])
    ensures forall c :: c in "/?#&" ==> c !in EncodeUriComponent(s)
  {
    PercentBytesSafe(Utf8Encode(s));
  }

  /** Text of unreserved characters is encoded as itself. */
  lemma {:induction false} EncodeUnreserved(s: string)
    requires forall i :: 0 <= i < |s| ==> IsUnreserved(s[i])
    ensures EncodeUriComponent(s) == s
  {
    if |s| > 0 {
      EncodeUnreserved(s[1..]);
      assert s[0] as int < 128;
      assert Utf8Encode(s) == [s[0] as int] + Utf8Encode(s[1..]);
      assert s == [s[0]] + s[1..];
    }
  }

  lemma {:induction false} Utf8EncodeAppend(a: string, b: string)
    ensures Utf8Encode(a + b) == Utf8Encode(a) + Utf8Encode(b)
  {
    if |a| == 0 {
      assert a + b == b;
    } else {
      var ab := a + b;
      assert ab[0] == a[0] && ab[1..] == a[1..] + b;
      calc {
        Utf8Encode(ab);
        Utf8Char(a[0]) + Utf8Encode(a[1..] + b);
        { Utf8EncodeAppend(a[1..], b); }
        Utf8Char(a[0]) + (Utf8Encode(a[1..]) + Utf8Encode(b));
        Utf8Encode(a) + Utf8Encode(b);
      }
    }
  }

  lemma {:induction false} PercentBytesAppend(a: seq<Byte>, b: seq<Byte>)
    ensures PercentBytes(a + b) == PercentBytes(a) + PercentBytes(b)
  {
    if |a| == 0 {
      assert a + b == b;
    } else {
      var ab := a + b;
      assert ab[0] == a[0] && ab[1..] == a[1..] + b;
      calc {
        PercentBytes(ab);
        PercentByte(a[0]) + PercentBytes(a[1..] + b);
        { PercentBytesAppend(a[1..], b); }
        PercentByte(a[0]) + (PercentBytes(a[1..]) + PercentBytes(b));
        PercentBytes(a) + PercentBytes(b);
      }
    }
  }

  lemma SlashEncoding()
    ensures Utf8Encode("/") == [47] && PercentBytes([47]) == "%2F"
  {
    assert Utf8Encode("/") == Utf8Char('/') + Utf8Encode("");
    assert !IsUnreserved('/');
    assert PercentBytes([47]) == PercentByte(47) + PercentBytes([]);
  }

  /** A namespaced id `group/project` is encoded part by part, its slash
      written as `%2F`. */
  lemma EncodeNamespacedId(group: string, project: string)
    ensures EncodeUriComponent(group + "/" + project)
         == EncodeUriComponent(group) + "%2F" + EncodeUriComponent(project)
  {
    var g, p := Utf8Encode(group), Utf8Encode(project);
    SlashEncoding();
    calc {
      EncodeUriComponent(group + "/" + project);
      PercentBytes(Utf8Encode(group + "/" + project));
      { Utf8EncodeAppend(group + "/", project); Utf8EncodeAppend(group, "/"); }
      PercentBytes(g + [47] + p);
      { PercentBytesAppend(g + [47], p); PercentBytesAppend(g, [47]); }
      PercentBytes(g) + "%2F" + PercentBytes(p);
    }
  }
}
