/**
 ULIDs (backend/app/models/audit_log.py): a 48-bit time and 80 random bits in Crockford's base 32, so that
 the text sorts as the numbers do.
 */
module Ulid {
  import opened Text
  import opened Wrappers
  import Lex

  /** The alphabet, which leaves out I, L, O and U. */
  const CROCKFORD := "0123456789ABCDEFGHJKMNPQRSTVWXYZ"

  function Pow32(k: nat): (p: nat)
    ensures p >= 1
  {
    if k == 0 then 1 else 32 * Pow32(k - 1)
  }

  /** The `length` low-order digits of `value` in base 32, most significant first. */
  function Digits(value: nat, length: nat): (ds: seq<int>)
    ensures |ds| == length && forall i :: 0 <= i < length ==> 0 <= ds[i] < 32
  {
    if length == 0 then [] else Digits(value / 32, length - 1) + [value % 32]
  }

  function DigitText(ds: seq<int>): (s: string)
    requires forall i :: 0 <= i < |ds| ==> 0 <= ds[i] < 32
    ensures |s| == |ds|
  {
    seq(|ds|, i requires 0 <= i < |ds| => CROCKFORD[ds[i]])
  }

  /** What `_encode_crockford` returns. */
  function EncodeCrockford(value: nat, length: nat): (s: string)
    ensures |s| == length
  {
    DigitText(Digits(value, length))
  }

  /** The first `i` digits are those of `v`. */
  ghost predicate StartWith(digits: seq<int>, i: nat, v: nat) {
    i <= |digits| && digits[..i] == Digits(v, i)
  }

  lemma LastDigit(digits: seq<int>, i: nat, v: nat)
    requires i > 0 && StartWith(digits, i, v)
    ensures digits[i - 1] == v % 32 && StartWith(digits, i - 1, v / 32)
  {
    assert digits[..i - 1] == digits[..i][..i - 1];
    assert digits[i - 1] == digits[..i][i - 1];
  }

  /** `_encode_crockford`: fills the buffer from the right. */
  method EncodeInto(value: nat, out: array<char>)
    modifies out
    ensures out[..] == EncodeCrockford(value, out.Length)
  {
    ghost var digits := Digits(value, out.Length);
    assert digits[..out.Length] == digits;
    var v := value;
    var i := out.Length;
    while i > 0
      invariant 0 <= i <= out.Length && StartWith(digits, i, v)
      invariant forall j :: i <= j < out.Length ==> out[j] == CROCKFORD[digits[j]]
    {
      LastDigit(digits, i, v);
      i := i - 1;
      out[i] := CROCKFORD[v % 32];
      v := v / 32;
    }
  }

  /* ---------- Reading it back ---------- */

  function IndexOf(c: char, alphabet: string): (r: Option<nat>)
    ensures r.Some? ==> r.value < |alphabet| && alphabet[r.value] == c
  {
    if alphabet == "" then None
    else if alphabet[0] == c then Some(0)
    else
      match IndexOf(c, alphabet[1..])
      case None => None
      case Some(i) => Some(i + 1)
  }

  function Decode(s: string): Option<nat> {
    if s == "" then Some(0)
    else
      match (Decode(s[..|s| - 1]), IndexOf(s[|s| - 1], CROCKFORD))
      case (Some(high), Some(low)) => Some(32 * high + low)
      case _ => None
  }

  /** Along the alphabet the characters ascend. */
  lemma AlphabetAscends(i: nat, j: nat)
    requires i < j < 32
    ensures CROCKFORD[i] < CROCKFORD[j]
  {}

  lemma {:induction false} IndexOfDistinct(alphabet: string, i: nat)
    requires i < |alphabet| && forall a, b :: 0 <= a < b < |alphabet| ==> alphabet[a] != alphabet[b]
    ensures IndexOf(alphabet[i], alphabet) == Some(i)
  {
    if i > 0 {
      var rest := alphabet[1..];
      assert rest[i - 1] == alphabet[i] && alphabet[0] != alphabet[i];
      IndexOfDistinct(rest, i - 1);
    }
  }

  lemma AlphabetIndex(i: nat)
    requires i < 32
    ensures IndexOf(CROCKFORD[i], CROCKFORD) == Some(i)
  {
    forall a, b | 0 <= a < b < |CROCKFORD|
      ensures CROCKFORD[a] != CROCKFORD[b]
    {
      AlphabetAscends(a, b);
    }
    IndexOfDistinct(CROCKFORD, i);
  }

  /** Decoding gives the value back, reduced to what the length can hold. */
  lemma {:induction false} DecodeUndoesEncode(value: nat, length: nat)
    ensures Decode(EncodeCrockford(value, length)) == Some(value % Pow32(length))
  {
    if length > 0 {
      var s := EncodeCrockford(value, length);
      assert s[..length - 1] == EncodeCrockford(value / 32, length - 1);
      assert s[length - 1] == CROCKFORD[value % 32];
      AlphabetIndex(value % 32);
      DecodeUndoesEncode(value / 32, length - 1);
      SplitModulus(value, Pow32(length - 1));
    }
  }

  lemma SplitModulus(value: nat, p: nat)
    requires p >= 1
    ensures value % (32 * p) == 32 * (value / 32 % p) + value % 32
  {
    var q, r := value / 32 / p, value / 32 % p;
    assert value == 32 * (value / 32) + value % 32;
    assert value / 32 == p * q + r;
    var low := 32 * r + value % 32;
    assert value == 32 * p * q + low;
    assert 0 <= low < 32 * p;
    UniqueRemainder(value, 32 * p, q, low);
  }

  lemma MultipleSize(m: nat, d: int)
    ensures d >= 1 ==> m * d >= m
    ensures d <= -1 ==> m * d <= -(m as int)
  {}

  lemma UniqueRemainder(x: nat, m: nat, q: nat, r: nat)
    requires m >= 1 && x == m * q + r && r < m
    ensures x % m == r
  {
    var d := x / m - q;
    MultipleSize(m, d);
    assert x == m * (x / m) + x % m;
    assert m * d == r - x % m;
    assert d == 0;
  }

  lemma DecodeFits(value: nat, length: nat)
    requires value < Pow32(length)
    ensures Decode(EncodeCrockford(value, length)) == Some(value)
  {
    DecodeUndoesEncode(value, length);
    UniqueRemainder(value, Pow32(length), 0, value);
  }

  /* ---------- Order ---------- */

  function Code(value: nat, length: nat): seq<int> {
    Codes(EncodeCrockford(value, length))
  }

  lemma LastDigitOrder(v: nat, w: nat)
    ensures var x, y := CROCKFORD[v % 32] as int, CROCKFORD[w % 32] as int;
            Lex.Less([x], [y]) == (v % 32 < w % 32) && (x == y <==> v % 32 == w % 32)
  {
    if v % 32 < w % 32 {
      AlphabetAscends(v % 32, w % 32);
    } else if w % 32 < v % 32 {
      AlphabetAscends(w % 32, v % 32);
    }
  }

  lemma SplitCode(value: nat, length: nat)
    requires length > 0
    ensures Code(value, length) == Code(value / 32, length - 1) + [CROCKFORD[value % 32] as int]
  {}

  /** Texts of one length compare as the numbers do. */
  lemma {:induction false} EncodingKeepsOrder(v: nat, w: nat, length: nat)
    requires v < Pow32(length) && w < Pow32(length)
    ensures Lex.Less(Code(v, length), Code(w, length)) <==> v < w
    ensures Code(v, length) == Code(w, length) <==> v == w
  {
    if length > 0 {
      EncodingKeepsOrder(v / 32, w / 32, length - 1);
      SplitCode(v, length);
      SplitCode(w, length);
      LastDigitOrder(v, w);
      Lex.EqualLengthPrefix(Code(v / 32, length - 1), Code(w / 32, length - 1),
                            [CROCKFORD[v % 32] as int], [CROCKFORD[w % 32] as int]);
      AppendEqual(Code(v / 32, length - 1), CROCKFORD[v % 32] as int,
                  Code(w / 32, length - 1), CROCKFORD[w % 32] as int);
    }
  }

  lemma AppendEqual(p: seq<int>, x: int, q: seq<int>, y: int)
    ensures p + [x] == q + [y] <==> p == q && x == y
  {
    if p + [x] == q + [y] {
      assert p == (p + [x])[..|p|] && q == (q + [y])[..|q|];
      assert (p + [x])[|p|] == x && (q + [y])[|q|] == y;
    }
  }

  const TIME_SPAN: nat := 0x1_0000_0000_0000

  const RANDOM_SPAN: nat := 0x1_0000_0000_0000_0000_0000

  /** `new_ulid` at `ms` milliseconds, with `random` as the ten random bytes. */
  function NewUlid(ms: nat, random: nat): (s: string)
    ensures |s| == 26
  {
    EncodeCrockford(ms % TIME_SPAN, 10) + EncodeCrockford(random, 16)
  }

  lemma Spans()
    ensures TIME_SPAN <= Pow32(10) && RANDOM_SPAN == Pow32(16)
  {
    assert Pow32(4) == 0x10_0000;
    assert Pow32(8) == 0x100_0000_0000;
    assert Pow32(10) == 1024 * Pow32(8);
    assert Pow32(12) == 0x10_0000 * Pow32(8);
    assert Pow32(16) == 0x10_0000 * Pow32(12);
  }

  /**
   ULIDs sort as strings by time and then by their random part, for times whose low 48 bits do so; equal
   ULIDs have equal parts.
   */
  lemma UlidsSortByTime(ms: nat, r: nat, ns: nat, q: nat)
    requires r < RANDOM_SPAN && q < RANDOM_SPAN
    ensures var x, y := ms % TIME_SPAN, ns % TIME_SPAN;
            && (Lex.Less(Codes(NewUlid(ms, r)), Codes(NewUlid(ns, q))) <==> x < y || (x == y && r < q))
            && (NewUlid(ms, r) == NewUlid(ns, q) <==> x == y && r == q)
  {
    var x, y := ms % TIME_SPAN, ns % TIME_SPAN;
    Spans();
    EncodingKeepsOrder(x, y, 10);
    EncodingKeepsOrder(r, q, 16);
    assert Codes(NewUlid(ms, r)) == Code(x, 10) + Code(r, 16);
    assert Codes(NewUlid(ns, q)) == Code(y, 10) + Code(q, 16);
    Lex.EqualLengthPrefix(Code(x, 10), Code(y, 10), Code(r, 16), Code(q, 16));
    if NewUlid(ms, r) == NewUlid(ns, q) {
      assert Code(x, 10) == (Code(x, 10) + Code(r, 16))[..10] && Code(y, 10) == (Code(y, 10) + Code(q, 16))[..10];
      assert Code(r, 16) == (Code(x, 10) + Code(r, 16))[10..] && Code(q, 16) == (Code(y, 10) + Code(q, 16))[10..];
    }
  }

  /** Before the clock exceeds 48 bits, a later millisecond gives a larger text. */
  lemma LaterIsLarger(ms: nat, r: nat, ns: nat, q: nat)
    requires r < RANDOM_SPAN && q < RANDOM_SPAN && ms < ns < 0x1_0000_0000_0000
    ensures Lex.Less(Codes(NewUlid(ms, r)), Codes(NewUlid(ns, q)))
  {
    SmallModulus(ms, TIME_SPAN);
    SmallModulus(ns, TIME_SPAN);
    UlidsSortByTime(ms, r, ns, q);
  }

  lemma SmallModulus(x: nat, m: nat)
    requires x < m
    ensures x % m == x
  {}

  lemma CrockfordCharacter(d: nat)
    requires d < 32
    ensures var c := CROCKFORD[d];
            ('0' <= c <= '9' || 'A' <= c <= 'Z') && c != 'I' && c != 'L' && c != 'O' && c != 'U'
  {}

  /** The text uses the 32 digits and letters of Crockford's alphabet, and so neither I, L, O nor U. */
  lemma UlidIsCrockford(ms: nat, random: nat, i: nat)
    requires i < 26
    ensures var c := NewUlid(ms, random)[i];
            ('0' <= c <= '9' || 'A' <= c <= 'Z') && c != 'I' && c != 'L' && c != 'O' && c != 'U'
  {
    var d := if i < 10 then Digits(ms % TIME_SPAN, 10)[i] else Digits(random, 16)[i - 10];
    assert NewUlid(ms, random)[i] == CROCKFORD[d];
    CrockfordCharacter(d);
  }

  /** Digits, then the letters in order, without I, L, O and U. */
  function CrockfordDigit(d: nat): char
    requires d < 32
  {
    if d < 10 then ('0' as int + d) as char
    else if d < 18 then ('A' as int + d - 10) as char
    else if d < 20 then ('J' as int + d - 18) as char
    else if d < 22 then ('M' as int + d - 20) as char
    else if d < 27 then ('P' as int + d - 22) as char
    else ('V' as int + d - 27) as char
  }

  lemma AlphabetAt(d: nat)
    requires d < 32
    ensures CROCKFORD[d] == CrockfordDigit(d)
  {}

  /** The digits of 0 to 31, in order. */
  lemma AlphabetIsCrockford(d: nat)
    requires d < 32
    ensures EncodeCrockford(d, 1) == [CrockfordDigit(d)]
  {
    AlphabetAt(d);
    assert Digits(d, 1) == [d];
  }

  /** Both parts can be read back. */
  lemma UlidDecodes(ms: nat, random: nat)
    requires random < 0x1_0000_0000_0000_0000_0000
    ensures Decode(NewUlid(ms, random)[..10]) == Some(ms % 0x1_0000_0000_0000)
    ensures Decode(NewUlid(ms, random)[10..]) == Some(random)
  {
    Spans();
    DecodeFits(ms % TIME_SPAN, 10);
    DecodeFits(random, 16);
    Parts(EncodeCrockford(ms % TIME_SPAN, 10), EncodeCrockford(random, 16));
  }

  lemma Parts(s: string, t: string)
    ensures (s + t)[..|s|] == s && (s + t)[|s|..] == t
  {}
}
