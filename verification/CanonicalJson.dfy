/**
 The hand-written canonical JSON encoder (verifier/app/canonical.py): a printer that sorts object
 members by the UTF-16BE bytes of their keys.
 */
module CanonicalJson {
  import opened Json
  import opened Text
  import opened Wrappers
  import KeyedSort
  import Lex

  /** Sort key of an object member: the UTF-16BE bytes of its name. */
  function MemberKey(m: Member): seq<int> {
    Utf16Be(m.key)
  }

  function SortMembers(members: seq<Member>): (r: seq<Member>)
    ensures |r| == |members|
    ensures MembersSize(r) == MembersSize(members)
  {
    SortKeepsSize(members);
    KeyedSort.Sort(members, MemberKey)
  }

  lemma {:induction false} InsertKeepsSize(m: Member, s: seq<Member>)
    ensures MembersSize(KeyedSort.Insert(m, s, MemberKey)) == Size(m.val) + MembersSize(s)
  {
    if s != [] && Lex.Less(MemberKey(s[0]), MemberKey(m)) {
      InsertKeepsSize(m, s[1..]);
      assert KeyedSort.Insert(m, s, MemberKey)[1..] == KeyedSort.Insert(m, s[1..], MemberKey);
    } else {
      assert ([m] + s)[1..] == s;
    }
  }

  lemma {:induction false} SortKeepsSize(members: seq<Member>)
    ensures MembersSize(KeyedSort.Sort(members, MemberKey)) == MembersSize(members)
  {
    if members != [] {
      SortKeepsSize(members[1..]);
      InsertKeepsSize(members[0], KeyedSort.Sort(members[1..], MemberKey));
    }
  }

  /* ---------- The printer ---------- */

  function EscapeChar(c: char): string {
    if c == '\\' then "\\\\"
    else if c == '"' then "\\\""
    else if c as int == 0x08 then "\\b"
    else if c as int == 0x0C then "\\f"
    else if c == '\n' then "\\n"
    else if c == '\r' then "\\r"
    else if c == '\t' then "\\t"
    else if c as int < 0x20 then "\\u00" + [HexChar(c as int / 16), HexChar(c as int % 16)]
    else [c]
  }

  function EscapeBody(s: string): string {
    if s == [] then [] else EscapeChar(s[0]) + EscapeBody(s[1..])
  }

  /** `_legacy_escape_str` */
  function EscapeStr(s: string): string {
    "\"" + EscapeBody(s) + "\""
  }

  /** `_legacy_encode` */
  function Encode(v: Json): string
    decreases Size(v), 0
  {
    match v
    case Null => "null"
    case Bool(b) => if b then "true" else "false"
    case Num(n) => IntText(n)
    case Str(s) => EscapeStr(s)
    case Arr(items) => "[" + EncodeItems(items) + "]"
    case Obj(members) => "{" + EncodeMembers(SortMembers(members)) + "}"
  }

  function EncodeItems(items: seq<Json>): string
    decreases ItemsSize(items), 2
  {
    if items == [] then ""
    else if |items| == 1 then
      Encode(items[0])
    else
      Encode(items[0]) + "," + EncodeItems(items[1..])
  }

  function EncodeMembers(members: seq<Member>): string
    decreases MembersSize(members), 2
  {
    if members == [] then ""
    else if |members| == 1 then
      EncodeMember(members[0])
    else
      EncodeMember(members[0]) + "," + EncodeMembers(members[1..])
  }

  function EncodeMember(m: Member): string
    decreases Size(m.val), 1
  {
    EscapeStr(m.key) + ":" + Encode(m.val)
  }

  /** The bytes of the encoding. */
  function LegacyBytes(v: Json): Bytes {
    Utf8(Encode(v))
  }

  /* ---------- Values that an encoder refuses ---------- */

  /** An encoder that raises on values with integers it does not take. */
  function Refusing(takes: int -> bool): Json -> Option<Bytes> {
    v => if AllInts(v, takes) then Some(LegacyBytes(v)) else None
  }

  /** Python's `str` raises on integers of more than 4300 digits. */
  predicate Prints(n: int) {
    |NatText(if n < 0 then -n else n)| <= 4300
  }

  /** `legacy_canonical_json_bytes`; `None` where it raises. */
  function LegacyEncoder(v: Json): Option<Bytes> {
    Refusing(Prints)(v)
  }

  /** The RFC 8785 library raises on other integers (backend/app/utils/canonical_json.py:37-42). */
  predicate IsSafe(n: int) {
    -0x1F_FFFF_FFFF_FFFF <= n <= 0x1F_FFFF_FFFF_FFFF
  }
}
