/**
 The text conversions the services lean on: Python's `str(int)`, zero-padded decimals, lower-case
 hexadecimal, and the UTF-8 and UTF-16BE codecs. A `char` is a Unicode scalar value, so a string
 never holds a lone surrogate.
 */
module Text {
  import opened Wrappers
  import Lex

  type Byte = b: int | 0 <= b < 0x100
  type Bytes = seq<Byte>

  /* ---------- Decimal ---------- */

  function DigitChar(d: int): (c: char)
    requires 0 <= d < 10
    ensures IsDigit(c) && DigitValue(c) == d
  {
    (d + 0x30) as char
  }

  predicate IsDigit(c: char) {
    '0' <= c <= '9'
  }

  function DigitValue(c: char): (d: int)
    requires IsDigit(c)
    ensures 0 <= d < 10
  {
    c as int - 0x30
  }

  function NatText(n: nat): string {
    if n < 10 then [DigitChar(n)] else NatText(n / 10) + [DigitChar(n % 10)]
  }

  /** Python's `str` of an integer. */
  function IntText(n: int): string {
    if n < 0 then "-" + NatText(-n) else NatText(n)
  }

  ghost predicate AllDigits(s: string) {
    forall i :: 0 <= i < |s| ==> IsDigit(s[i])
  }

  function NatValue(s: string): nat
    requires AllDigits(s)
  {
    if s == [] then 0 else 10 * NatValue(s[..|s| - 1]) + DigitValue(s[|s| - 1])
  }

  lemma {:induction false} NatTextValue(n: nat)
    ensures |NatText(n)| > 0 && AllDigits(NatText(n))
    ensures NatValue(NatText(n)) == n
  {
    if n >= 10 {
      NatTextValue(n / 10);
      assert NatText(n)[..|NatText(n)| - 1] == NatText(n / 10);
    } else {
      assert NatText(n)[..0] == [];
    }
  }

  /** The last `width` decimal digits of `n`, zero-padded: Python's `f"{n:0{width}d}"` when `n` fits. */
  function Padded(n: nat, width: nat): (s: string)
    ensures |s| == width
  {
    if width == 0 then [] else Padded(n / 10, width - 1) + [DigitChar(n % 10)]
  }

  function Pow10(k: nat): (p: nat)
    ensures p >= 1
  {
    if k == 0 then 1 else 10 * Pow10(k - 1)
  }

  lemma {:induction false} PaddedInjective(m: nat, n: nat, width: nat)
    requires m < Pow10(width) && n < Pow10(width)
    requires Padded(m, width) == Padded(n, width)
    ensures m == n
  {
    if width > 0 {
      var p, q := Padded(m / 10, width - 1), Padded(n / 10, width - 1);
      assert Padded(m, width)[..width - 1] == p && Padded(n, width)[..width - 1] == q;
      assert Padded(m, width)[width - 1] == DigitChar(m % 10);
      assert Padded(n, width)[width - 1] == DigitChar(n % 10);
      assert DigitValue(DigitChar(m % 10)) == DigitValue(DigitChar(n % 10));
      PaddedInjective(m / 10, n / 10, width - 1);
    }
  }

  /** The padded form is the decimal digits of the number, zeros in front. */
  lemma {:induction false} PaddedValue(n: nat, width: nat)
    requires n < Pow10(width)
    ensures AllDigits(Padded(n, width)) && NatValue(Padded(n, width)) == n
  {
    if width > 0 {
      PaddedValue(n / 10, width - 1);
      assert Padded(n, width)[..width - 1] == Padded(n / 10, width - 1);
    }
  }

  /* ---------- Hexadecimal ---------- */

  function HexChar(d: int): (c: char)
    requires 0 <= d < 16
    ensures HexValue(c) == Some(d)
  {
    if d < 10 then (d + 0x30) as char else (d - 10 + 0x61) as char
  }

  /** Either case is read, as `bytes.fromhex` and `\u` escapes do. */
  function HexValue(c: char): (r: Option<int>)
    ensures r.Some? ==> 0 <= r.value < 16
  {
    if '0' <= c <= '9' then Some(c as int - 0x30)
    else if 'a' <= c <= 'f' then Some(c as int - 0x61 + 10)
    else if 'A' <= c <= 'F' then Some(c as int - 0x41 + 10)
    else None
  }

  /** `bytes.hex()`, and the form of `hexdigest()`. */
  function Hex(bs: Bytes): (s: string)
    ensures |s| == 2 * |bs|
  {
    if bs == [] then [] else [HexChar(bs[0] / 16), HexChar(bs[0] % 16)] + Hex(bs[1..])
  }

  predicate IsBlank(c: char) {
    c == ' ' || '\t' <= c <= '\r'
  }

  /** `bytes.fromhex`, which skips blanks between bytes; `None` where Python raises. */
  function FromHex(s: string): Option<Bytes> {
    if s == [] then Some([])
    else if IsBlank(s[0]) then FromHex(s[1..])
    else if |s| == 1 then None
    else
      match (HexValue(s[0]), HexValue(s[1]), FromHex(s[2..]))
      case (Some(h), Some(l), Some(rest)) => Some([16 * h + l] + rest)
      case _ => None
  }

  lemma {:induction false} FromHexOfHex(bs: Bytes)
    ensures FromHex(Hex(bs)) == Some(bs)
  {
    if bs != [] {
      FromHexOfHex(bs[1..]);
      assert Hex(bs)[2..] == Hex(bs[1..]);
      assert bs == [bs[0]] + bs[1..];
    }
  }

  lemma HexInjective(a: Bytes, b: Bytes)
    requires Hex(a) == Hex(b)
    ensures a == b
  {
    FromHexOfHex(a);
    FromHexOfHex(b);
  }

  /** Blanks are skipped between bytes only, and either case is read. */
  lemma HexExamples()
    ensures Hex([0xAB]) == "ab" && Hex([0x0F]) == "0f" && FromHex("") == Some([])
    ensures FromHex("aB") == FromHex(" aB") == FromHex("aB\n") == Some([0xAB]) && FromHex("a B").None?
    ensures FromHex("a").None? && FromHex("g0").None? && FromHex("0g").None?
  {
    assert Hex([0xAB]) == [HexChar(10), HexChar(11)] + Hex([]);
    assert Hex([0x0F]) == [HexChar(0), HexChar(15)] + Hex([]);
    assert FromHex("") == Some([]) && "aB"[2..] == "" && " aB"[1..] == "aB";
    assert FromHex("aB").value == [0xAB];
    var spaced := "aB\n";
    assert spaced[2..] == [spaced[2]] && spaced[2..][1..] == "";
    assert FromHex(spaced).value == [0xAB];
  }

  /* ---------- UTF-16BE ---------- */

  /** The UTF-16 code units of one scalar value. */
  function Units(c: char): (u: seq<int>)
    ensures 1 <= |u| <= 2 && forall i :: 0 <= i < |u| ==> 0 <= u[i] < 0x10000
  {
    var n := c as int;
    if n < 0x10000 then [n] else [0xD800 + (n - 0x10000) / 0x400, 0xDC00 + (n - 0x10000) % 0x400]
  }

  function Utf16(s: string): (u: seq<int>)
    ensures forall i :: 0 <= i < |u| ==> 0 <= u[i] < 0x10000
  {
    if s == [] then [] else Units(s[0]) + Utf16(s[1..])
  }

  function BigEndian(u: seq<int>): (b: Bytes)
    requires forall i :: 0 <= i < |u| ==> 0 <= u[i] < 0x10000
  {
    if u == [] then [] else [u[0] / 0x100, u[0] % 0x100] + BigEndian(u[1..])
  }

  /** Python's `s.encode("utf-16-be")`. */
  function Utf16Be(s: string): Bytes {
    BigEndian(Utf16(s))
  }

  /** A scalar above the basic plane is a high surrogate and a low one. */
  lemma SurrogatePairs(c: char)
    ensures c as int < 0x10000 ==> Units(c) == [c as int]
    ensures c as int >= 0x10000 ==>
              && |Units(c)| == 2 && 0xD800 <= Units(c)[0] < 0xDC00 <= Units(c)[1] < 0xE000
              && c as int == 0x10000 + (Units(c)[0] - 0xD800) * 0x400 + (Units(c)[1] - 0xDC00)
  {}

  lemma UnitsPrefixFree(c: char, d: char, r: seq<int>, t: seq<int>)
    requires Units(c) + r == Units(d) + t
    ensures c == d && r == t
  {
    var u, v := Units(c), Units(d);
    assert (u + r)[0] == u[0] && (v + t)[0] == v[0];
    if |u| == 2 {
      assert (u + r)[1] == u[1];
    }
    if |v| == 2 {
      assert (v + t)[1] == v[1];
    }
    assert |u| == |v|;
    assert c as int == d as int;
    assert r == (u + r)[|u|..] && t == (v + t)[|v|..];
  }

  lemma {:induction false} Utf16Injective(s: string, t: string)
    requires Utf16(s) == Utf16(t)
    ensures s == t
  {
    if s == [] || t == [] {
      assert |Utf16(s)| == 0 <==> s == [];
      assert |Utf16(t)| == 0 <==> t == [];
    } else {
      UnitsPrefixFree(s[0], t[0], Utf16(s[1..]), Utf16(t[1..]));
      Utf16Injective(s[1..], t[1..]);
      assert s == [s[0]] + s[1..] && t == [t[0]] + t[1..];
    }
  }

  /** Comparing UTF-16BE bytes compares UTF-16 code units, the order of section 3.2.3 of RFC 8785. */
  lemma {:induction false} BigEndianKeepsOrder(u: seq<int>, v: seq<int>)
    requires forall i :: 0 <= i < |u| ==> 0 <= u[i] < 0x10000
    requires forall i :: 0 <= i < |v| ==> 0 <= v[i] < 0x10000
    ensures Lex.Less(BigEndian(u), BigEndian(v)) == Lex.Less(u, v)
  {
    if u != [] && v != [] {
      BigEndianKeepsOrder(u[1..], v[1..]);
      Lex.EqualLengthPrefix([u[0] / 0x100, u[0] % 0x100], [v[0] / 0x100, v[0] % 0x100],
                            BigEndian(u[1..]), BigEndian(v[1..]));
      TwoByteOrder(u[0], v[0]);
    }
  }

  lemma TwoByteOrder(x: int, y: int)
    requires 0 <= x < 0x10000 && 0 <= y < 0x10000
    ensures Lex.Less([x / 0x100, x % 0x100], [y / 0x100, y % 0x100]) == (x < y)
    ensures [x / 0x100, x % 0x100] == [y / 0x100, y % 0x100] ==> x == y
  {
    PairOrder(x / 0x100, x % 0x100, y / 0x100, y % 0x100);
    if [x / 0x100, x % 0x100] == [y / 0x100, y % 0x100] {
      assert [x / 0x100, x % 0x100][0] == x / 0x100 && [x / 0x100, x % 0x100][1] == x % 0x100;
      assert [y / 0x100, y % 0x100][0] == y / 0x100 && [y / 0x100, y % 0x100][1] == y % 0x100;
    }
  }

  lemma PairOrder(a: int, b: int, c: int, d: int)
    ensures Lex.Less([a, b], [c, d]) == (a < c || (a == c && b < d))
  {
    assert [a, b][1..] == [b] && [c, d][1..] == [d];
    assert Lex.Less([b], [d]) == (b < d);
  }

  /** UTF-16BE keeps distinct strings apart. */
  lemma Utf16BeInjective(s: string, t: string)
    requires Utf16Be(s) == Utf16Be(t)
    ensures s == t
  {
    BigEndianKeepsOrder(Utf16(s), Utf16(t));
    BigEndianKeepsOrder(Utf16(t), Utf16(s));
    Lex.Irreflexive(Utf16Be(s));
    Lex.Total(Utf16(s), Utf16(t));
    Utf16Injective(s, t);
  }

  /* ---------- UTF-8 ---------- */

  function Utf8Char(c: char): (b: Bytes)
    ensures 1 <= |b| <= 4
  {
    var n := c as int;
    if n < 0x80 then [n]
    else if n < 0x800 then [0xC0 + n / 0x40, 0x80 + n % 0x40]
    else if n < 0x10000 then [0xE0 + n / 0x1000, 0x80 + n / 0x40 % 0x40, 0x80 + n % 0x40]
    else [0xF0 + n / 0x40000, 0x80 + n / 0x1000 % 0x40, 0x80 + n / 0x40 % 0x40, 0x80 + n % 0x40]
  }

  /** Python's `s.encode("utf-8")`. */
  function Utf8(s: string): Bytes {
    if s == [] then [] else Utf8Char(s[0]) + Utf8(s[1..])
  }

  /** ASCII characters are their own bytes. */
  lemma {:induction false} AsciiBytes(s: string)
    requires forall i :: 0 <= i < |s| ==> s[i] as int < 0x80
    ensures |Utf8(s)| == |s| && forall i :: 0 <= i < |s| ==> Utf8(s)[i] == s[i] as int
  {
    if s != "" {
      AsciiBytes(s[1..]);
    }
  }

  /** How many bytes the lead byte announces. */
  function Utf8Length(lead: Byte): int {
    if lead < 0x80 then 1 else if lead < 0xE0 then 2 else if lead < 0xF0 then 3 else 4
  }

  /** The scalar a well-formed byte group stands for. */
  function Utf8Value(b: seq<int>): int
    requires 1 <= |b| <= 4
  {
    if |b| == 1 then b[0]
    else if |b| == 2 then (b[0] - 0xC0) * 0x40 + (b[1] - 0x80)
    else if |b| == 3 then (b[0] - 0xE0) * 0x1000 + (b[1] - 0x80) * 0x40 + (b[2] - 0x80)
    else (b[0] - 0xF0) * 0x40000 + (b[1] - 0x80) * 0x1000 + (b[2] - 0x80) * 0x40 + (b[3] - 0x80)
  }

  lemma Utf8CharValue(c: char)
    ensures Utf8Value(Utf8Char(c)) == c as int
    ensures Utf8Length(Utf8Char(c)[0]) == |Utf8Char(c)|
  {
    var n := c as int;
    assert n / 0x1000 == (n / 0x40) / 0x40;
    assert n / 0x40000 == (n / 0x1000) / 0x40;
  }

  /** Section 3 of RFC 3629: the shortest form, a lead byte that tells its length and continuation bytes. */
  lemma Utf8Form(c: char)
    ensures var n, b := c as int, Utf8Char(c);
            && |b| == (if n < 0x80 then 1 else if n < 0x800 then 2 else if n < 0x10000 then 3 else 4)
            && (|b| == 1 ==> b[0] == n)
            && (|b| == 2 ==> 0xC2 <= b[0] <= 0xDF) && (|b| == 3 ==> 0xE0 <= b[0] <= 0xEF)
            && (|b| == 4 ==> 0xF0 <= b[0] <= 0xF4)
            && (forall i :: 1 <= i < |b| ==> 0x80 <= b[i] <= 0xBF)
  {}

  lemma Utf8CharPrefixFree(c: char, d: char, r: Bytes, t: Bytes)
    requires Utf8Char(c) + r == Utf8Char(d) + t
    ensures c == d && r == t
  {
    Utf8CharValue(c);
    Utf8CharValue(d);
    SplitEqual(Utf8Char(c), Utf8Char(d), r, t);
  }

  lemma SplitEqual(u: Bytes, v: Bytes, r: Bytes, t: Bytes)
    requires |u| > 0 && |v| > 0 && u + r == v + t
    requires Utf8Length(u[0]) == |u| && Utf8Length(v[0]) == |v|
    ensures u == v && r == t
  {
    assert (u + r)[0] == u[0] && (v + t)[0] == v[0];
    assert u == (u + r)[..|u|] && v == (v + t)[..|v|];
    assert r == (u + r)[|u|..] && t == (v + t)[|v|..];
  }

  lemma {:induction false} Utf8Injective(s: string, t: string)
    requires Utf8(s) == Utf8(t)
    ensures s == t
  {
    if s == [] || t == [] {
      assert |Utf8(s)| == 0 <==> s == [];
      assert |Utf8(t)| == 0 <==> t == [];
    } else {
      Utf8CharPrefixFree(s[0], t[0], Utf8(s[1..]), Utf8(t[1..]));
      Utf8Injective(s[1..], t[1..]);
      assert s == [s[0]] + s[1..] && t == [t[0]] + t[1..];
    }
  }

  /* ---------- Code points and case ---------- */

  /** How Python and the database compare text: by code point. */
  function Codes(s: string): (r: seq<int>)
    ensures |r| == |s| && forall i :: 0 <= i < |s| ==> r[i] == s[i] as int
  {
    seq(|s|, i requires 0 <= i < |s| => s[i] as int)
  }

  /** Capital letters become the small letters at the same place of the alphabet; all else stays. */
  lemma LowerCharacter(c: char)
    ensures 'A' <= c <= 'Z' ==> Lower([c]) == ["abcdefghijklmnopqrstuvwxyz"[c as int - 'A' as int]]
    ensures !('A' <= c <= 'Z') ==> Lower([c]) == [c]
  {}

  lemma CodesInjective(s: string, t: string)
    requires Codes(s) == Codes(t)
    ensures s == t
  {
    forall i | 0 <= i < |s|
      ensures s[i] == t[i]
    {
      assert Codes(s)[i] == Codes(t)[i];
    }
  }

  /** `str.lower()` on the ASCII letters, which are the only ones the configured words hold. */
  function Lower(s: string): (r: string)
    ensures |r| == |s|
  {
    seq(|s|, i requires 0 <= i < |s| => if 'A' <= s[i] <= 'Z' then (s[i] as int + 0x20) as char else s[i])
  }
}
