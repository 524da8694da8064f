/**
 The text a canonical encoder has to produce (section 3.2 of RFC 8785, for the values it is used on), said
 without an encoder, and the printing methods of verifier/app/canonical.py proved against it.
 */
module CanonicalText {
  import opened Json
  import opened Text
  import opened Wrappers
  import opened CanonicalJson
  import opened CanonicalParser
  import opened CanonicalIdentity
  import KeyedSort
  import Lex

  /* ---------- The text of a value ---------- */

  /** How a character stands in a string literal. */
  ghost predicate IsEscape(c: char, e: string) {
    if (exists x :: Unescape(x) == Some(c)) then |e| == 2 && e[0] == '\\' && Unescape(e[1]) == Some(c)
    else if c as int < 0x10 then e == "\\u000" + ["0123456789abcdef"[c as int]]
    else if c as int < 0x20 then e == "\\u001" + ["0123456789abcdef"[c as int - 0x10]]
    else e == [c]
  }

  function Concat(pieces: seq<string>): string {
    if pieces == [] then "" else pieces[0] + Concat(pieces[1..])
  }

  /** `",".join(parts)` */
  function Joined(parts: seq<string>): string {
    if parts == [] then "" else if |parts| == 1 then parts[0] else parts[0] + "," + Joined(parts[1..])
  }

  /** The text is a string literal, one piece for each character. */
  ghost predicate IsLiteral(s: string, pieces: seq<string>, t: string) {
    && |pieces| == |s| && (forall i :: 0 <= i < |s| ==> IsEscape(s[i], pieces[i]))
    && t == "\"" + Concat(pieces) + "\""
  }

  ghost predicate IsStrText(s: string, t: string) {
    exists pieces :: IsLiteral(s, pieces, t)
  }

  /** Decimal digits without a zero in front. */
  ghost predicate IsDecimal(n: nat, d: string) {
    d != "" && AllDigits(d) && NatValue(d) == n && (d[0] == '0' ==> d == "0")
  }

  ghost predicate IsNumText(n: int, t: string) {
    if n < 0 then t != "" && t[0] == '-' && IsDecimal(-n, t[1..]) else IsDecimal(n, t)
  }

  /** The indices below `|members|`, each once, in ascending order of the names' UTF-16 code units. */
  ghost predicate IsNameOrder(members: seq<Member>, order: seq<nat>) {
    && (forall k :: 0 <= k < |order| ==> order[k] < |members|)
    && (forall i: nat :: i < |members| ==> i in order)
    && (forall k, l :: 0 <= k < l < |order| ==>
          order[k] < |members| && order[l] < |members| &&
          Lex.Less(Utf16(members[order[k]].key), Utf16(members[order[l]].key)))
  }

  /** The canonical text of a value. */
  ghost predicate IsText(v: Json, t: string)
    decreases v, 1
  {
    match v
    case Null => t == "null"
    case Bool(b) => t == if b then "true" else "false"
    case Num(n) => IsNumText(n, t)
    case Str(s) => IsStrText(s, t)
    case Arr(_) => exists parts :: IsArrayText(v, parts, t)
    case Obj(_) => exists order, names, parts :: IsObjectText(v, order, names, parts, t)
  }

  ghost predicate IsArrayText(v: Json, parts: seq<string>, t: string)
    requires v.Arr?
    decreases v, 0
  {
    && |parts| == |v.items| && (forall i :: 0 <= i < |parts| ==> IsText(v.items[i], parts[i]))
    && t == "[" + Joined(parts) + "]"
  }

  ghost predicate IsObjectText(v: Json, order: seq<nat>, names: seq<string>, parts: seq<string>, t: string)
    requires v.Obj?
    decreases v, 0
  {
    && IsNameOrder(v.members, order) && |names| == |parts| == |order|
    && (forall k :: 0 <= k < |order| ==> IsStrText(v.members[order[k]].key, names[k]))
    && (forall k :: 0 <= k < |order| ==> IsText(v.members[order[k]].val, parts[k]))
    && t == "{" + Joined(Pairs(names, parts)) + "}"
  }

  /** Names and values with colons between them. */
  function Pairs(names: seq<string>, parts: seq<string>): (r: seq<string>)
    requires |names| == |parts|
    ensures |r| == |names|
  {
    seq(|names|, k requires 0 <= k < |names| => names[k] + ":" + parts[k])
  }

  /* ---------- Characters, strings and numbers ---------- */

  /** The seven characters with an escape of their own. */
  lemma ShortEscapes()
    ensures EscapeChar('\\') == "\\\\" && EscapeChar('\"') == "\\\"" && EscapeChar('\n') == "\\n"
    ensures EscapeChar('\r') == "\\r" && EscapeChar('\t') == "\\t"
    ensures EscapeChar(0x08 as char) == "\\b" && EscapeChar(0x0C as char) == "\\f"
    ensures forall x, c :: Unescape(x) == Some(c) ==> EscapeChar(c) == ['\\', x]
  {}

  lemma HasShortEscape(c: char)
    ensures (exists x :: Unescape(x) == Some(c)) <==> c in "\\\"\n\r\t" || c as int in {0x08, 0x0C}
  {
    assert Unescape('\\') == Some('\\') && Unescape('"') == Some('"') && Unescape('n') == Some('\n');
    assert Unescape('r') == Some('\r') && Unescape('t') == Some('\t');
    assert Unescape('b') == Some(0x08 as char) && Unescape('f') == Some(0x0C as char);
  }

  lemma HexDigits(d: int)
    requires 0 <= d < 16
    ensures HexChar(d) == "0123456789abcdef"[d]
  {}

  /** The other control characters. */
  lemma ControlEscape(c: char)
    requires c as int < 0x20 && c !in "\n\r\t" && c as int !in {0x08, 0x0C}
    ensures EscapeChar(c) == "\\u00" + (if c as int < 0x10 then "0" + ["0123456789abcdef"[c as int]]
                                         else "1" + ["0123456789abcdef"[c as int - 0x10]])
  {
    HexDigits(c as int % 16);
  }

  /** All others stand for themselves. */
  lemma PlainCharacter(c: char)
    requires c as int >= 0x20 && c !in "\\\""
    ensures EscapeChar(c) == [c]
  {}

  lemma ShortEscape(c: char, e: string)
    requires exists x :: Unescape(x) == Some(c)
    ensures IsEscape(c, e) <==> e == EscapeChar(c)
  {
    ShortEscapes();
  }

  /** The escape of a character is the only one there may be. */
  lemma EscapeIsUnique(c: char, e: string)
    ensures IsEscape(c, e) <==> e == EscapeChar(c)
  {
    HasShortEscape(c);
    if exists x :: Unescape(x) == Some(c) {
      ShortEscape(c, e);
    } else if c as int < 0x20 {
      ControlEscape(c);
      assert "\\u000" == "\\u00" + "0" && "\\u001" == "\\u00" + "1";
    } else {
      PlainCharacter(c);
    }
  }

  function Escapes(s: string): (r: seq<string>)
    ensures |r| == |s|
  {
    seq(|s|, i requires 0 <= i < |s| => EscapeChar(s[i]))
  }

  lemma {:induction false} ConcatEscapes(s: string)
    ensures Concat(Escapes(s)) == EscapeBody(s)
  {
    if s != "" {
      assert Escapes(s)[1..] == Escapes(s[1..]);
      ConcatEscapes(s[1..]);
    }
  }

  lemma LiteralIsUnique(s: string, pieces: seq<string>, t: string)
    ensures IsLiteral(s, pieces, t) <==> pieces == Escapes(s) && t == EscapeStr(s)
  {
    ConcatEscapes(s);
    forall i | 0 <= i < |s| && |pieces| == |s|
      ensures IsEscape(s[i], pieces[i]) <==> pieces[i] == EscapeChar(s[i])
    {
      EscapeIsUnique(s[i], pieces[i]);
    }
  }

  lemma StrTextIsUnique(s: string, t: string)
    ensures IsStrText(s, t) <==> t == EscapeStr(s)
  {
    LiteralIsUnique(s, Escapes(s), t);
    forall pieces | IsLiteral(s, pieces, t)
      ensures t == EscapeStr(s)
    {
      LiteralIsUnique(s, pieces, t);
    }
  }

  lemma {:induction false} NoLeadingZero(n: nat)
    ensures IsDecimal(n, NatText(n))
  {
    NatTextValue(n);
    if n >= 10 {
      NoLeadingZero(n / 10);
      assert NatText(n)[0] == NatText(n / 10)[0];
      ValueOfOne("0");
    }
  }

  lemma AppendDigit(m: nat, c: char)
    requires m > 0 && IsDigit(c)
    ensures NatText(10 * m + DigitValue(c)) == NatText(m) + [c]
  {
    var n := 10 * m + DigitValue(c);
    assert n / 10 == m && n % 10 == DigitValue(c);
    assert DigitChar(DigitValue(c)) == c;
  }

  lemma ValueOfOne(d: string)
    requires |d| == 1 && AllDigits(d)
    ensures NatValue(d) == DigitValue(d[0]) && NatText(NatValue(d)) == d
  {
    assert NatValue(d[..0]) == 0;
  }

  lemma DecimalFront(front: string, m: nat, c: char)
    requires front != "" && front[0] != '0' && AllDigits(front) && NatValue(front) == m && IsDigit(c)
    requires IsDecimal(m, front) <==> front == NatText(m)
    ensures front + [c] == NatText(10 * m + DigitValue(c))
  {
    assert IsDecimal(m, front);
    if m > 0 {
      AppendDigit(m, c);
    }
  }

  /** A number has one decimal text without a zero in front. */
  lemma {:induction false} DecimalIsUnique(n: nat, d: string)
    ensures IsDecimal(n, d) <==> d == NatText(n)
    decreases |d|
  {
    NoLeadingZero(n);
    if IsDecimal(n, d) {
      if |d| == 1 {
        ValueOfOne(d);
      } else {
        var front := d[..|d| - 1];
        DecimalIsUnique(NatValue(front), front);
        DecimalFront(front, NatValue(front), d[|d| - 1]);
        assert d == front + [d[|d| - 1]];
      }
    }
  }

  lemma NumTextIsUnique(n: int, t: string)
    ensures IsNumText(n, t) <==> t == IntText(n)
  {
    if n < 0 {
      if t != "" {
        DecimalIsUnique(-n, t[1..]);
        assert t == [t[0]] + t[1..];
      }
      assert IntText(n)[1..] == NatText(-n);
    } else {
      DecimalIsUnique(n, t);
    }
  }

  /* ---------- Arrays and objects ---------- */

  function Encodings(items: seq<Json>): (r: seq<string>)
    ensures |r| == |items|
  {
    seq(|items|, i requires 0 <= i < |items| => Encode(items[i]))
  }

  lemma {:induction false} ItemsJoined(items: seq<Json>)
    ensures EncodeItems(items) == Joined(Encodings(items))
  {
    if items != [] {
      assert Encodings(items)[1..] == Encodings(items[1..]);
      ItemsJoined(items[1..]);
    }
  }

  function NameTexts(members: seq<Member>): (r: seq<string>)
    ensures |r| == |members|
  {
    seq(|members|, k requires 0 <= k < |members| => EscapeStr(members[k].key))
  }

  function ValueTexts(members: seq<Member>): (r: seq<string>)
    ensures |r| == |members|
  {
    seq(|members|, k requires 0 <= k < |members| => Encode(members[k].val))
  }

  lemma {:induction false} MembersJoined(members: seq<Member>)
    ensures EncodeMembers(members) == Joined(Pairs(NameTexts(members), ValueTexts(members)))
  {
    if members != [] {
      assert Pairs(NameTexts(members), ValueTexts(members))[1..] ==
             Pairs(NameTexts(members[1..]), ValueTexts(members[1..]));
      MembersJoined(members[1..]);
    }
  }

  /** The order lists the members as sorting does. */
  ghost predicate Lists(members: seq<Member>, order: seq<nat>) {
    && |order| == |members|
    && (forall k :: 0 <= k < |order| ==> order[k] < |members| && members[order[k]] == SortMembers(members)[k])
  }

  lemma {:induction false} FirstOfOrder(members: seq<Member>, n: nat) returns (order: seq<nat>)
    requires n <= |members|
    ensures |order| == n
    ensures forall k :: 0 <= k < n ==> order[k] < |members| && members[order[k]] == SortMembers(members)[k]
  {
    order := [];
    if n > 0 {
      var before := FirstOfOrder(members, n - 1);
      var i := UnsortedIndexOf(members, n - 1);
      order := before + [i];
    }
  }

  lemma SortingIsNameOrder(members: seq<Member>, order: seq<nat>)
    requires UniqueKeys(members) && Lists(members, order)
    ensures IsNameOrder(members, order)
  {
    forall i: nat | i < |members|
      ensures i in order
    {
      var k := SortedIndexOf(members, i);
      assert order[k] == i;
    }
    forall k, l | 0 <= k < l < |order|
      ensures Lex.Less(Utf16(members[order[k]].key), Utf16(members[order[l]].key))
    {
      MembersInCodeUnitOrder(members, k, l);
    }
  }

  function Ordered(members: seq<Member>, order: seq<nat>): (r: seq<Member>)
    requires forall k :: 0 <= k < |order| ==> order[k] < |members|
    ensures |r| == |order|
  {
    seq(|order|, k requires 0 <= k < |order| => members[order[k]])
  }

  lemma OrderedStrictly(members: seq<Member>, order: seq<nat>)
    requires IsNameOrder(members, order)
    ensures KeyedSort.StrictlyAscending(Ordered(members, order), MemberKey)
  {
    var s := Ordered(members, order);
    forall k, l | 0 <= k < l < |s|
      ensures Lex.Less(MemberKey(s[k]), MemberKey(s[l]))
    {
      BigEndianKeepsOrder(Utf16(s[k].key), Utf16(s[l].key));
    }
  }

  lemma OrderedKeysWithin(members: seq<Member>, order: seq<nat>)
    requires IsNameOrder(members, order)
    ensures KeyedSort.KeysWithin(Ordered(members, order), SortMembers(members), MemberKey, MemberKey)
    ensures KeyedSort.KeysWithin(SortMembers(members), Ordered(members, order), MemberKey, MemberKey)
  {
    var s, sorted := Ordered(members, order), SortMembers(members);
    forall k | 0 <= k < |s|
      ensures KeyedSort.HasKey(sorted, MemberKey, MemberKey(s[k]))
    {
      var j := SortedIndexOf(members, order[k]);
      assert MemberKey(sorted[j]) == MemberKey(s[k]);
    }
    forall k | 0 <= k < |sorted|
      ensures KeyedSort.HasKey(s, MemberKey, MemberKey(sorted[k]))
    {
      var i := UnsortedIndexOf(members, k);
      assert i in order;
      var j :| 0 <= j < |order| && order[j] == i;
      assert MemberKey(s[j]) == MemberKey(sorted[k]);
    }
  }

  lemma NameOrderIsSorting(members: seq<Member>, order: seq<nat>)
    requires UniqueKeys(members) && IsNameOrder(members, order)
    ensures Lists(members, order)
  {
    var s, sorted := Ordered(members, order), SortMembers(members);
    SortedStrictly(members);
    OrderedStrictly(members, order);
    OrderedKeysWithin(members, order);
    KeyedSort.StrictOrderIsUnique(s, sorted, MemberKey, MemberKey);
    forall k | 0 <= k < |s|
      ensures members[order[k]] == sorted[k]
    {
      var i := UnsortedIndexOf(members, k);
      assert MemberKey(s[k]) == MemberKey(sorted[k]);
      Utf16BeInjective(s[k].key, sorted[k].key);
    }
  }

  /* ---------- There is one text, and the encoder prints it ---------- */

  lemma {:induction false} TextIsUnique(v: Json, t: string)
    requires WellFormed(v)
    ensures IsText(v, t) <==> t == Encode(v)
    decreases v, 1
  {
    match v
    case Num(n) => NumTextIsUnique(n, t);
    case Str(s) => StrTextIsUnique(s, t);
    case Arr(items) =>
      ArrayIsPrinted(v);
      forall parts | IsArrayText(v, parts, t)
        ensures t == Encode(v)
      {
        ArrayTextIsUnique(v, parts, t);
      }
    case Obj(members) =>
      forall order, names, parts | IsObjectText(v, order, names, parts, t)
        ensures t == Encode(v)
      {
        ObjectTextIsUnique(v, order, names, parts, t);
      }
      var order := FirstOfOrder(members, |members|);
      assert Lists(members, order);
      ObjectIsPrinted(v, order);
    case _ =>
  }

  lemma {:induction false} ArrayTextIsUnique(v: Json, parts: seq<string>, t: string)
    requires WellFormed(v) && v.Arr? && IsArrayText(v, parts, t)
    ensures t == Encode(v)
    decreases v, 0
  {
    forall i | 0 <= i < |v.items|
      ensures parts[i] == Encode(v.items[i])
    {
      TextIsUnique(v.items[i], parts[i]);
    }
    assert parts == Encodings(v.items);
    ItemsJoined(v.items);
  }

  lemma {:induction false} ArrayIsPrinted(v: Json)
    requires WellFormed(v) && v.Arr?
    ensures IsArrayText(v, Encodings(v.items), Encode(v))
    decreases v, 0
  {
    forall i | 0 <= i < |v.items|
      ensures IsText(v.items[i], Encodings(v.items)[i])
    {
      TextIsUnique(v.items[i], Encodings(v.items)[i]);
    }
    ItemsJoined(v.items);
  }

  lemma {:induction false} ObjectTextIsUnique(v: Json, order: seq<nat>, names: seq<string>, parts: seq<string>,
                                              t: string)
    requires WellFormed(v) && v.Obj? && IsObjectText(v, order, names, parts, t)
    ensures t == Encode(v)
    decreases v, 0
  {
    var sorted := SortMembers(v.members);
    NameOrderIsSorting(v.members, order);
    forall k | 0 <= k < |order|
      ensures names[k] == EscapeStr(sorted[k].key) && parts[k] == Encode(sorted[k].val)
    {
      StrTextIsUnique(v.members[order[k]].key, names[k]);
      TextIsUnique(v.members[order[k]].val, parts[k]);
    }
    assert names == NameTexts(sorted) && parts == ValueTexts(sorted);
    MembersJoined(sorted);
  }

  lemma {:induction false} ObjectIsPrinted(v: Json, order: seq<nat>)
    requires WellFormed(v) && v.Obj? && Lists(v.members, order)
    ensures IsObjectText(v, order, NameTexts(SortMembers(v.members)), ValueTexts(SortMembers(v.members)), Encode(v))
    decreases v, 0
  {
    var sorted := SortMembers(v.members);
    SortingIsNameOrder(v.members, order);
    forall k | 0 <= k < |order|
      ensures IsStrText(v.members[order[k]].key, NameTexts(sorted)[k])
      ensures IsText(v.members[order[k]].val, ValueTexts(sorted)[k])
    {
      StrTextIsUnique(v.members[order[k]].key, NameTexts(sorted)[k]);
      TextIsUnique(v.members[order[k]].val, ValueTexts(sorted)[k]);
    }
    MembersJoined(sorted);
  }

  lemma OnlyText(v: Json)
    requires WellFormed(v)
    ensures IsText(v, Encode(v)) && forall t :: IsText(v, t) ==> t == Encode(v)
  {
    TextIsUnique(v, Encode(v));
    forall t | IsText(v, t)
      ensures t == Encode(v)
    {
      TextIsUnique(v, t);
    }
  }

  /* ---------- Which integers an encoder takes ---------- */

  lemma {:induction false} DigitCount(n: nat, k: nat)
    requires k > 0
    ensures |NatText(n)| <= k <==> n < Pow10(k)
  {
    if n >= 10 {
      NatTextValue(n / 10);
      if k > 1 {
        DigitCount(n / 10, k - 1);
      } else {
        assert Pow10(1) == 10 * Pow10(0);
      }
    } else {
      assert Pow10(k) >= 10;
    }
  }

  /** Python prints an integer whose magnitude has up to 4300 digits. */
  lemma PrintedIntegers(n: int, magnitude: nat, digits: nat)
    requires magnitude == (if n < 0 then -n else n) && digits == 4300
    ensures Prints(n) <==> magnitude < Pow10(digits)
  {
    DigitCount(magnitude, digits);
  }

  /** The library takes an integer that is exact in a double. */
  lemma SafeIntegers(n: int)
    ensures IsSafe(n) <==> -9007199254740992 < n < 9007199254740992
  {}

  /* ---------- The printer with its loops ---------- */

  /** What stands between the last member printed and the next. */
  function Comma(n: nat): string {
    if n == 0 then "" else ","
  }

  lemma AppendToTail(members: seq<Member>, m: Member)
    requires members != []
    ensures (members + [m])[0] == members[0] && (members + [m])[1..] == members[1..] + [m]
  {}

  lemma Regroup(first: string, tail: string, last: string)
    ensures first + "," + (tail + "," + last) == (first + "," + tail) + "," + last
  {}

  lemma {:induction false} OneMoreMember(members: seq<Member>, m: Member)
    ensures EncodeMembers(members + [m]) == EncodeMembers(members) + Comma(|members|) + EncodeMember(m)
  {
    if |members| == 0 {
      assert members + [m] == [m];
    } else if |members| == 1 {
      AppendToTail(members, m);
      assert members[1..] + [m] == [m];
    } else {
      AppendToTail(members, m);
      OneMoreMember(members[1..], m);
      Regroup(EncodeMember(members[0]), EncodeMembers(members[1..]), EncodeMember(m));
    }
  }

  lemma {:induction false} OneMoreItem(items: seq<Json>, v: Json)
    ensures EncodeItems(items + [v]) == EncodeItems(items) + Comma(|items|) + Encode(v)
  {
    if |items| == 0 {
      assert items + [v] == [v];
    } else {
      assert (items + [v])[1..] == items[1..] + [v];
      if |items| == 1 {
        assert items[1..] + [v] == [v];
      } else {
        OneMoreItem(items[1..], v);
        Regroup(Encode(items[0]), EncodeItems(items[1..]), Encode(v));
      }
    }
  }

  lemma {:induction false} MemberIsSmaller(members: seq<Member>, i: nat)
    requires i < |members|
    ensures Size(members[i].val) <= MembersSize(members)
  {
    if i > 0 {
      MemberIsSmaller(members[1..], i - 1);
    }
  }

  lemma {:induction false} ItemIsSmaller(items: seq<Json>, i: nat)
    requires i < |items|
    ensures Size(items[i]) <= ItemsSize(items)
  {
    if i > 0 {
      ItemIsSmaller(items[1..], i - 1);
    }
  }

  /** The text is that of the first `i` items. */
  ghost predicate ItemsPrinted(items: seq<Json>, i: nat, text: string) {
    i <= |items| && text == EncodeItems(items[..i])
  }

  lemma NextItem(items: seq<Json>, i: nat, text: string, next: string)
    requires i < |items| && ItemsPrinted(items, i, text) && next == text + Comma(i) + Encode(items[i])
    ensures ItemsPrinted(items, i + 1, next)
  {
    var before := items[..i];
    assert items[..i + 1] == before + [items[i]];
    OneMoreItem(before, items[i]);
  }

  /** The text is that of the first `i` members. */
  ghost predicate MembersPrinted(members: seq<Member>, i: nat, text: string) {
    i <= |members| && text == EncodeMembers(members[..i])
  }

  lemma NextMember(members: seq<Member>, i: nat, text: string, next: string)
    requires i < |members| && MembersPrinted(members, i, text) && next == text + Comma(i) + EncodeMember(members[i])
    ensures MembersPrinted(members, i + 1, next)
  {
    var before := members[..i];
    assert members[..i + 1] == before + [members[i]];
    OneMoreMember(before, members[i]);
  }

  predicate AllPrint(items: seq<Json>, n: nat)
    requires n <= |items|
  {
    forall i :: 0 <= i < n ==> AllInts(items[i], Prints)
  }

  predicate AllValuesPrint(members: seq<Member>, n: nat)
    requires n <= |members|
  {
    forall i :: 0 <= i < n ==> AllInts(members[i].val, Prints)
  }

  /** Joins the printed items with commas; `None` where printing one raises. */
  method JoinItems(items: seq<Json>) returns (inner: Option<string>)
    ensures inner.Some? <==> AllPrint(items, |items|)
    ensures inner.Some? ==> ItemsPrinted(items, |items|, inner.value)
    decreases ItemsSize(items), 1
  {
    var text, i := "", 0;
    while i < |items|
      invariant ItemsPrinted(items, i, text) && AllPrint(items, i)
    {
      ItemIsSmaller(items, i);
      var item := EncodeValue(items[i]);
      if item.None? {
        return None;
      }
      var next := text + Comma(i) + item.value;
      NextItem(items, i, text, next);
      text, i := next, i + 1;
    }
    return Some(text);
  }

  /** Joins the printed members of a sorted dictionary with commas; `None` where printing one raises. */
  method JoinMembers(sorted: seq<Member>) returns (inner: Option<string>)
    ensures inner.Some? <==> AllValuesPrint(sorted, |sorted|)
    ensures inner.Some? ==> MembersPrinted(sorted, |sorted|, inner.value)
    decreases MembersSize(sorted), 1
  {
    var text, i := "", 0;
    while i < |sorted|
      invariant MembersPrinted(sorted, i, text) && AllValuesPrint(sorted, i)
    {
      MemberIsSmaller(sorted, i);
      var val := EncodeValue(sorted[i].val);
      if val.None? {
        return None;
      }
      var next := text + Comma(i) + (EscapeStr(sorted[i].key) + ":" + val.value);
      NextMember(sorted, i, text, next);
      text, i := next, i + 1;
    }
    return Some(text);
  }

  lemma SortKeepsInts(members: seq<Member>, takes: int -> bool)
    ensures AllInts(Obj(SortMembers(members)), takes) <==> AllInts(Obj(members), takes)
  {
    var sorted := SortMembers(members);
    if AllInts(Obj(members), takes) {
      forall k | 0 <= k < |sorted|
        ensures AllInts(sorted[k].val, takes)
      {
        var i := UnsortedIndexOf(members, k);
      }
    }
    if AllInts(Obj(sorted), takes) {
      forall i | 0 <= i < |members|
        ensures AllInts(members[i].val, takes)
      {
        var k := SortedIndexOf(members, i);
      }
    }
  }

  /** `_legacy_encode`, case by case; `None` where it raises, on an integer too long to print. */
  method EncodeValue(value: Json) returns (text: Option<string>)
    ensures text == if AllInts(value, Prints) then Some(Encode(value)) else None
    decreases Size(value), 0
  {
    match value {
      case Null => text := Some("null");
      case Bool(b) => text := Some(if b then "true" else "false");
      case Num(n) => text := if Prints(n) then Some(IntText(n)) else None;
      case Str(s) => text := Some(EscapeStr(s));
      case Arr(items) =>
        var inner := JoinItems(items);
        assert items[..|items|] == items;
        text := if inner.Some? then Some("[" + inner.value + "]") else None;
      case Obj(members) =>
        SortKeepsInts(members, Prints);
        var sorted := SortMembers(members);
        var inner := JoinMembers(sorted);
        assert sorted[..|sorted|] == sorted;
        text := if inner.Some? then Some("{" + inner.value + "}") else None;
    }
  }

  /**
   `_legacy_encode` raises exactly on a value with an integer too long to print. Otherwise it prints the one
   canonical text of the value, from which an equal value, and nothing more, is read back.
   */
  method LegacyEncode(value: Json) returns (text: Option<string>)
    ensures text.Some? <==> AllInts(value, Prints)
    ensures text.Some? ==>
              && Utf8(text.value) == LegacyBytes(value) && (WellFormed(value) ==> IsText(value, text.value))
              && var r := ReadValue(text.value); r.Read? && SameValue(value, r.val) && r.rest == ""
  {
    text := EncodeValue(value);
    ReadBack(value, "");
    if WellFormed(value) {
      TextIsUnique(value, Encode(value));
    }
    assert Encode(value) + "" == Encode(value);
  }

  /* ---------- verify_canonical_match ---------- */

  /**
   Checks a signature over the library's canonical bytes, then over the legacy ones. `rfc` is `None` where the
   library refuses the value; the hand-written encoder may raise too. Skipping the second call when both
   encodings agree changes nothing.
   */
  method VerifyCanonicalMatch(obj: Json, rfc: Option<Bytes>, verifier: Bytes -> bool) returns (ok: bool)
    ensures ok <==> || (rfc.Some? && verifier(rfc.value))
                    || (LegacyEncoder(obj).Some? && verifier(LegacyEncoder(obj).value))
    ensures WellFormed(obj) ==>
              (ok <==> || (rfc.Some? && verifier(rfc.value))
                       || (AllInts(obj, Prints) && exists t :: IsText(obj, t) && verifier(Utf8(t))))
  {
    if WellFormed(obj) {
      OnlyText(obj);
    }
    if rfc.Some? && verifier(rfc.value) {
      return true;
    }
    var text := LegacyEncode(obj);
    if text.None? {
      return false;
    }
    var oldBytes := Utf8(text.value);
    if rfc.Some? && oldBytes == rfc.value {
      return false;
    }
    return verifier(oldBytes);
  }
}
