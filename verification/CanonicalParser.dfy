/**
 A reader for canonical JSON text, and the proof that it undoes the printer. Every result about hash
 chains rests on this: the encoding is injective and no encoding is a prefix of another.
 */
module CanonicalParser {
  import opened Json
  import opened Text
  import opened Wrappers
  import opened CanonicalJson

  datatype Read<+T> = Fail | Read(val: T, rest: string)

  /* ---------- The reader ---------- */

  function Starts(s: string, word: string): bool {
    |word| <= |s| && s[..|word|] == word
  }

  /** Reads the remainder of a string literal, after its opening quote. */
  function ReadBody(s: string): (r: Read<string>)
    ensures r.Read? ==> |r.rest| < |s|
  {
    if s == [] then Fail
    else if s[0] == '"' then Read([], s[1..])
    else if s[0] == '\\' then
      if |s| < 2 then Fail
      else if s[1] == 'u' then
        match ReadHex4(s[2..])
        case Fail => Fail
        case Read(c, rest) => Prepend(c, ReadBody(rest))
      else
        match Unescape(s[1])
        case None => Fail
        case Some(c) => Prepend(c, ReadBody(s[2..]))
    else Prepend(s[0], ReadBody(s[1..]))
  }

  function Prepend(c: char, r: Read<string>): Read<string> {
    if r.Fail? then Fail else Read([c] + r.val, r.rest)
  }

  function Unescape(c: char): Option<char> {
    if c == '\\' || c == '"' then Some(c)
    else if c == 'b' then Some(0x08 as char)
    else if c == 'f' then Some(0x0C as char)
    else if c == 'n' then Some('\n')
    else if c == 'r' then Some('\r')
    else if c == 't' then Some('\t')
    else None
  }

  function ReadHex4(s: string): (r: Read<char>)
    ensures r.Read? ==> |r.rest| < |s|
  {
    if |s| < 4 then Fail
    else
      match (HexValue(s[0]), HexValue(s[1]), HexValue(s[2]), HexValue(s[3]))
      case (Some(a), Some(b), Some(c), Some(d)) =>
        var n := 0x1000 * a + 0x100 * b + 0x10 * c + d;
        if 0xD800 <= n < 0xE000 then Fail else Read(n as char, s[4..])
      case _ => Fail
  }

  /** How many digits `s` starts with. */
  function DigitRun(s: string): (k: nat)
    ensures k <= |s| && AllDigits(s[..k])
    ensures k < |s| ==> !IsDigit(s[k])
  {
    if s == [] || !IsDigit(s[0]) then 0
    else
      var k := DigitRun(s[1..]);
      assert s[..k + 1] == [s[0]] + s[1..][..k];
      k + 1
  }

  function ReadNumber(s: string): (r: Read<Json>)
    ensures r.Read? ==> |r.rest| < |s|
  {
    if s != [] && s[0] == '-' then
      var k := DigitRun(s[1..]);
      if k == 0 then Fail else Read(Num(0 - NatValue(s[1..][..k])), s[1..][k..])
    else
      var k := DigitRun(s);
      if k == 0 then Fail else Read(Num(NatValue(s[..k])), s[k..])
  }

  function ReadValue(s: string): (r: Read<Json>)
    ensures r.Read? ==> |r.rest| < |s|
    decreases |s|, 0
  {
    if s == [] then Fail
    else if s[0] == 'n' then if Starts(s, "null") then Read(Null, s[4..]) else Fail
    else if s[0] == 't' then if Starts(s, "true") then Read(Bool(true), s[4..]) else Fail
    else if s[0] == 'f' then if Starts(s, "false") then Read(Bool(false), s[5..]) else Fail
    else if s[0] == '"' then
      match ReadBody(s[1..])
      case Fail => Fail
      case Read(body, rest) => Read(Str(body), rest)
    else if s[0] == '[' then
      if |s| > 1 && s[1] == ']' then Read(Arr([]), s[2..])
      else
        match ReadItems(s[1..])
        case Fail => Fail
        case Read(items, rest) => Read(Arr(items), rest)
    else if s[0] == '{' then
      if |s| > 1 && s[1] == '}' then Read(Obj([]), s[2..])
      else
        match ReadMembers(s[1..])
        case Fail => Fail
        case Read(members, rest) => Read(Obj(members), rest)
    else ReadNumber(s)
  }

  /** One value or more, separated by commas and closed by a bracket. */
  function ReadItems(s: string): (r: Read<seq<Json>>)
    ensures r.Read? ==> |r.rest| < |s|
    decreases |s|, 1
  {
    match ReadValue(s)
    case Fail => Fail
    case Read(v, rest) =>
      if rest == [] then Fail
      else if rest[0] == ']' then Read([v], rest[1..])
      else if rest[0] != ',' then Fail
      else
        match ReadItems(rest[1..])
        case Fail => Fail
        case Read(vs, end) => Read([v] + vs, end)
  }

  function ReadMember(s: string): (r: Read<Member>)
    ensures r.Read? ==> |r.rest| < |s|
    decreases |s|, 1
  {
    if s == [] || s[0] != '"' then Fail
    else
      match ReadBody(s[1..])
      case Fail => Fail
      case Read(key, rest) =>
        if rest == [] || rest[0] != ':' then Fail
        else
          match ReadValue(rest[1..])
          case Fail => Fail
          case Read(v, end) => Read(Member(key, v), end)
  }

  function ReadMembers(s: string): (r: Read<seq<Member>>)
    ensures r.Read? ==> |r.rest| < |s|
    decreases |s|, 2
  {
    match ReadMember(s)
    case Fail => Fail
    case Read(m, rest) =>
      if rest == [] then Fail
      else if rest[0] == '}' then Read([m], rest[1..])
      else if rest[0] != ',' then Fail
      else
        match ReadMembers(rest[1..])
        case Fail => Fail
        case Read(ms, end) => Read([m] + ms, end)
  }

  /* ---------- What survives printing: the value with members in key order ---------- */

  function Normal(v: Json): Json
    decreases Size(v), 0
  {
    match v
    case Arr(items) => Arr(NormalItems(items))
    case Obj(members) => Obj(NormalMembers(SortMembers(members)))
    case _ => v
  }

  function NormalItems(items: seq<Json>): (r: seq<Json>)
    ensures |r| == |items|
    decreases ItemsSize(items), 1
  {
    if items == [] then [] else [Normal(items[0])] + NormalItems(items[1..])
  }

  function NormalMembers(members: seq<Member>): (r: seq<Member>)
    ensures |r| == |members|
    decreases MembersSize(members), 1
  {
    if members == [] then []
    else [Member(members[0].key, Normal(members[0].val))] + NormalMembers(members[1..])
  }

  /* ---------- Reading undoes printing ---------- */

  lemma ReadEscapedChar(c: char, rest: string)
    ensures ReadBody(EscapeChar(c) + rest) == Prepend(c, ReadBody(rest))
  {
    var e := EscapeChar(c);
    var s := e + rest;
    if e == [c] {
      assert s[1..] == rest;
    } else if |e| == 2 {
      assert s[0] == '\\' && s[1] == e[1] && s[2..] == rest;
      assert Unescape(e[1]) == Some(c);
    } else {
      assert s[0] == '\\' && s[1] == 'u';
      var h := s[2..];
      assert h[0] == '0' && h[1] == '0' && h[2] == HexChar(c as int / 16) && h[3] == HexChar(c as int % 16);
      assert h[4..] == rest;
      assert ReadHex4(h) == Read(c, rest);
    }
  }

  lemma {:induction false} ReadEscapedBody(v: string, rest: string)
    ensures ReadBody(EscapeBody(v) + "\"" + rest) == Read(v, rest)
  {
    if v == [] {
      assert (EscapeBody(v) + "\"" + rest)[1..] == rest;
    } else {
      var tail := EscapeBody(v[1..]) + "\"" + rest;
      assert EscapeBody(v) + "\"" + rest == EscapeChar(v[0]) + tail;
      ReadEscapedChar(v[0], tail);
      ReadEscapedBody(v[1..], rest);
      assert [v[0]] + v[1..] == v;
    }
  }

  lemma ReadEscapedStr(v: string, rest: string)
    ensures |EscapeStr(v) + rest| > 0 && (EscapeStr(v) + rest)[0] == '"'
    ensures ReadBody((EscapeStr(v) + rest)[1..]) == Read(v, rest)
  {
    assert (EscapeStr(v) + rest)[1..] == EscapeBody(v) + "\"" + rest;
    ReadEscapedBody(v, rest);
  }

  ghost predicate NoDigit(rest: string) {
    rest == [] || !IsDigit(rest[0])
  }

  lemma {:induction false} DigitRunStops(d: string, rest: string)
    requires AllDigits(d) && NoDigit(rest)
    ensures DigitRun(d + rest) == |d|
  {
    if d == [] {
      assert d + rest == rest;
    } else {
      assert (d + rest)[1..] == d[1..] + rest;
      DigitRunStops(d[1..], rest);
    }
  }

  lemma DigitsOf(d: string, rest: string)
    requires d != "" && AllDigits(d) && NoDigit(rest)
    ensures DigitRun(d + rest) == |d| && (d + rest)[..|d|] == d && (d + rest)[|d|..] == rest
    ensures IsDigit((d + rest)[0])
  {
    DigitRunStops(d, rest);
  }

  lemma ReadDigits(d: string, rest: string)
    requires d != "" && AllDigits(d) && NoDigit(rest)
    ensures ReadNumber(d + rest) == Read(Num(NatValue(d)), rest)
  {
    var s := d + rest;
    DigitsOf(d, rest);
    assert IsDigit(s[0]);
    assert s[..DigitRun(s)] == d && s[DigitRun(s)..] == rest;
  }

  lemma ReadMinus(t: string, d: string, rest: string)
    requires DigitRun(t) == |d| && d != "" && |t| >= |d| && t[..|d|] == d && t[|d|..] == rest && AllDigits(d)
    ensures ReadNumber("-" + t) == Read(Num(0 - NatValue(d)), rest)
  {
    assert ("-" + t)[1..] == t;
  }

  lemma ReadPrintedNumber(n: int, rest: string)
    requires NoDigit(rest)
    ensures ReadNumber(IntText(n) + rest) == Read(Num(n), rest)
  {
    if n < 0 {
      var d := NatText(-n);
      NatTextValue(-n);
      DigitsOf(d, rest);
      ReadMinus(d + rest, d, rest);
      assert IntText(n) + rest == "-" + (d + rest);
    } else {
      NatTextValue(n);
      ReadDigits(NatText(n), rest);
    }
  }

  /** The first character of an encoding tells its kind; none is a closing bracket. */
  lemma FirstChar(v: Json)
    ensures |Encode(v)| > 0
    ensures Encode(v)[0] == (match v
                             case Null => 'n'
                             case Bool(b) => if b then 't' else 'f'
                             case Str(_) => '"'
                             case Arr(_) => '['
                             case Obj(_) => '{'
                             case Num(n) => IntText(n)[0])
    ensures v.Num? ==> Encode(v)[0] == '-' || IsDigit(Encode(v)[0])
  {
    if v.Num? {
      NatTextValue(if v.n < 0 then -v.n else v.n);
    }
  }

  /** Reading the printed form of a value gives the value back, members in key order, and the rest untouched. */
  lemma {:induction false} ReadEncoded(v: Json, rest: string)
    requires NoDigit(rest)
    ensures ReadValue(Encode(v) + rest) == Read(Normal(v), rest)
    decreases Size(v), 0
  {
    FirstChar(v);
    var s := Encode(v) + rest;
    assert s[0] == Encode(v)[0];
    match v
    case Null => assert s[..4] == "null" && s[4..] == rest;
    case Bool(b) =>
      if b {
        assert s[..4] == "true" && s[4..] == rest;
      } else {
        assert s[..5] == "false" && s[5..] == rest;
      }
    case Num(n) => ReadPrintedNumber(n, rest);
    case Str(t) => ReadEscapedStr(t, rest);
    case Arr(items) => ReadEncodedArray(items, rest);
    case Obj(members) => ReadEncodedObject(members, rest);
  }

  lemma {:induction false} ReadEncodedArray(items: seq<Json>, rest: string)
    ensures ReadValue(Encode(Arr(items)) + rest) == Read(Normal(Arr(items)), rest)
    decreases ItemsSize(items), 3
  {
    var s := Encode(Arr(items)) + rest;
    assert s == "[" + (EncodeItems(items) + "]" + rest);
    assert s[1..] == EncodeItems(items) + "]" + rest;
    if items == [] {
      assert s[2..] == rest;
    } else {
      ReadEncodedItems(items, rest);
      FirstChar(items[0]);
      assert s[1] == Encode(items[0])[0];
    }
  }

  lemma {:induction false} ReadEncodedItems(items: seq<Json>, rest: string)
    requires items != []
    ensures ReadItems(EncodeItems(items) + "]" + rest) == Read(NormalItems(items), rest)
    decreases ItemsSize(items), 2
  {
    var s := EncodeItems(items) + "]" + rest;
    if |items| == 1 {
      assert s == Encode(items[0]) + ("]" + rest);
      ReadEncoded(items[0], "]" + rest);
      assert NormalItems(items) == [Normal(items[0])];
    } else {
      var tail := EncodeItems(items[1..]) + "]" + rest;
      assert s == Encode(items[0]) + ("," + tail);
      ReadEncoded(items[0], "," + tail);
      assert ("," + tail)[1..] == tail;
      ReadEncodedItems(items[1..], rest);
    }
  }

  lemma MemberStep(s: string, key: string, colon: string, v: Json, end: string)
    requires s != [] && s[0] == '"' && ReadBody(s[1..]) == Read(key, colon)
    requires colon != [] && colon[0] == ':' && ReadValue(colon[1..]) == Read(v, end)
    ensures ReadMember(s) == Read(Member(key, v), end)
  {}

  /** A mark between two texts: where it ends up, and what follows it. */
  lemma Marked(a: string, mark: string, b: string, rest: string)
    requires |mark| == 1
    ensures a + mark + b + rest == a + (mark + (b + rest))
    ensures (mark + (b + rest))[0] == mark[0] && (mark + (b + rest))[1..] == b + rest
  {}

  lemma MemberText(m: Member, rest: string)
    ensures var s := EncodeMember(m) + rest;
            s != [] && s[0] == '"' && ReadBody(s[1..]) == Read(m.key, ":" + (Encode(m.val) + rest))
  {
    Marked(EscapeStr(m.key), ":", Encode(m.val), rest);
    ReadEscapedStr(m.key, ":" + (Encode(m.val) + rest));
  }

  lemma {:induction false} ReadEncodedMember(m: Member, rest: string)
    requires NoDigit(rest)
    ensures ReadMember(EncodeMember(m) + rest) == Read(Member(m.key, Normal(m.val)), rest)
    decreases Size(m.val), 1
  {
    MemberText(m, rest);
    ReadEncoded(m.val, rest);
    Marked("", ":", Encode(m.val), rest);
    MemberStep(EncodeMember(m) + rest, m.key, ":" + (Encode(m.val) + rest), Normal(m.val), rest);
  }

  lemma LastMemberStep(s: string, m: Member, close: string)
    requires ReadMember(s) == Read(m, close) && close != [] && close[0] == '}'
    ensures ReadMembers(s) == Read([m], close[1..])
  {}

  lemma NextMemberStep(s: string, m: Member, comma: string, ms: seq<Member>, end: string)
    requires ReadMember(s) == Read(m, comma) && comma != [] && comma[0] == ','
    requires ReadMembers(comma[1..]) == Read(ms, end)
    ensures ReadMembers(s) == Read([m] + ms, end)
  {}

  lemma {:induction false} ReadEncodedMembers(members: seq<Member>, rest: string)
    requires members != []
    ensures ReadMembers(EncodeMembers(members) + ("}" + rest)) == Read(NormalMembers(members), rest)
    decreases MembersSize(members), 2
  {
    var end := "}" + rest;
    var first, m := EncodeMember(members[0]), Member(members[0].key, Normal(members[0].val));
    Marked("", "}", "", rest);
    if |members| == 1 {
      ReadEncodedMember(members[0], end);
      LastMemberStep(first + end, m, end);
      assert NormalMembers(members) == [m] && end[1..] == rest;
    } else {
      var others := EncodeMembers(members[1..]);
      Marked(first, ",", others, end);
      ReadEncodedMember(members[0], "," + (others + end));
      ReadEncodedMembers(members[1..], rest);
      NextMemberStep(first + ("," + (others + end)), m, "," + (others + end), NormalMembers(members[1..]), rest);
    }
  }

  lemma ObjectStep(s: string, members: seq<Member>, rest: string)
    requires |s| > 1 && s[0] == '{' && s[1] != '}'
    requires ReadMembers(s[1..]) == Read(members, rest)
    ensures ReadValue(s) == Read(Obj(members), rest)
  {}

  lemma {:induction false} ReadEncodedObject(members: seq<Member>, rest: string)
    ensures ReadValue(Encode(Obj(members)) + rest) == Read(Normal(Obj(members)), rest)
    decreases MembersSize(members), 3
  {
    var sorted := SortMembers(members);
    var inner := EncodeMembers(sorted);
    var s := Encode(Obj(members)) + rest;
    assert s == "{" + (inner + ("}" + rest));
    if members == [] {
      assert s[2..] == rest;
    } else {
      ReadEncodedMembers(sorted, rest);
      MembersStart(sorted);
      assert s[1..] == inner + ("}" + rest);
      ObjectStep(s, NormalMembers(sorted), rest);
    }
  }

  lemma MembersStart(members: seq<Member>)
    requires members != []
    ensures EncodeMembers(members) != "" && EncodeMembers(members)[0] == '"'
  {
    assert EncodeMember(members[0])[0] == '"';
  }

  /** No encoding is a proper prefix of another, unless digits would run on. */
  lemma EncodingIsPrefixFree(v: Json, w: Json, r: string, t: string)
    requires NoDigit(r) && NoDigit(t)
    requires Encode(v) + r == Encode(w) + t
    ensures Normal(v) == Normal(w) && r == t
  {
    ReadEncoded(v, r);
    ReadEncoded(w, t);
  }
}
