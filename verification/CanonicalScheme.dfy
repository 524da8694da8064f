/**
 The canonical encoders meet what the audit arguments ask of them: they identify values, and no string inside
 a value takes more bytes than the whole encoding.
 */
module CanonicalScheme {
  import opened Wrappers
  import opened Json
  import opened Text
  import opened CanonicalJson
  import opened AuditTrail
  import opened AuditChain
  import opened AuditEvidence
  import KeyedSort

  /** The chain with an encoder that refuses some integers. */
  function Chain(sha: Bytes -> Digest, takes: int -> bool): Scheme {
    Scheme(sha, Refusing(takes))
  }

  /**
   The chain as the backend hashes it, with `canonical_json_bytes`: on the integers it takes, on strings and on
   nesting RFC 8785 prescribes the text that the hand-written encoder prints.
   */
  function RfcChain(sha: Bytes -> Digest): Scheme {
    Chain(sha, IsSafe)
  }

  lemma {:induction false} Utf8Concat(s: string, t: string)
    ensures Utf8(s + t) == Utf8(s) + Utf8(t)
  {
    if s == [] {
      assert s + t == t;
    } else {
      assert (s + t)[1..] == s[1..] + t;
      Utf8Concat(s[1..], t);
    }
  }

  lemma EscapeNeverShortens(c: char)
    ensures |Utf8(EscapeChar(c))| >= |Utf8Char(c)|
  {
    var e := EscapeChar(c);
    assert |Utf8(e)| >= |e| by { Utf8AtLeast(e); }
    if e == [c] {
      assert Utf8(e[1..]) == [];
    } else {
      assert |e| >= 2 && |Utf8Char(c)| == 1;
    }
  }

  lemma {:induction false} Utf8AtLeast(s: string)
    ensures |Utf8(s)| >= |s|
  {
    if s != [] {
      Utf8AtLeast(s[1..]);
    }
  }

  lemma {:induction false} EscapeBodyNeverShortens(s: string)
    ensures |Utf8(EscapeBody(s))| >= |Utf8(s)|
  {
    if s != [] {
      EscapeBodyNeverShortens(s[1..]);
      EscapeNeverShortens(s[0]);
      Utf8Concat(EscapeChar(s[0]), EscapeBody(s[1..]));
    }
  }

  /** The encoding of a member is part of the encoding of the object. */
  lemma {:induction false} MemberFits(members: seq<Member>, m: Member)
    requires m in members
    ensures |Utf8(EncodeMembers(members))| >= |Utf8(EncodeMember(m))|
  {
    if |members| > 1 {
      var head, tail := EncodeMember(members[0]), EncodeMembers(members[1..]);
      Utf8Concat(head + ",", tail);
      Utf8Concat(head, ",");
      if m != members[0] {
        MemberFits(members[1..], m);
      }
    }
  }

  lemma StringFits(k: string, s: string)
    ensures |Utf8(EncodeMember(Member(k, Str(s))))| >= |Utf8(s)|
  {
    EscapeBodyNeverShortens(s);
    Utf8Concat(EscapeStr(k) + ":", EscapeStr(s));
    Utf8Concat("\"" + EscapeBody(s), "\"");
    Utf8Concat("\"", EscapeBody(s));
  }

  lemma {:induction false} StringMemberFits(members: seq<Member>, k: string, s: string)
    requires Member(k, Str(s)) in members
    ensures |LegacyBytes(Obj(members))| >= |Utf8(s)|
  {
    KeyedSort.SortKeeps(members, MemberKey, Member(k, Str(s)));
    MemberFits(SortMembers(members), Member(k, Str(s)));
    StringFits(k, s);
    var inner := EncodeMembers(SortMembers(members));
    Utf8Concat("{" + inner, "}");
    Utf8Concat("{", inner);
  }

  lemma CoreFits(e: Event)
    ensures |LegacyBytes(CanonicaliseCore(e))| >= |Utf8(e.tenantId)|
  {
    assert CoreMembers(e)[1] == Member("tenant_id", Str(e.tenantId));
    StringMemberFits(CoreMembers(e), "tenant_id", e.tenantId);
  }

  lemma RefusingIsRoomy(sha: Bytes -> Digest, takes: int -> bool)
    ensures Roomy(Chain(sha, takes))
  {
    forall e: Event | Encodes(Chain(sha, takes), e)
      ensures |CoreBytes(Chain(sha, takes), e).value| >= |Utf8(e.tenantId)|
    {
      CoreFits(e);
    }
  }

  /** The backend's encoder is canonical and roomy: every theorem about the chain holds with it. */
  lemma RfcChainIsSound(sha: Bytes -> Digest)
    ensures Canonical(RfcChain(sha)) && Roomy(RfcChain(sha))
  {
    RefusingIsCanonical(sha, IsSafe);
    RefusingIsRoomy(sha, IsSafe);
  }

  /**
   Tamper evidence of the backend's chain, about SHA-256 alone: two tables that verify cleanly from position 1
   and end in the same hash belong to one tenant and hold equally many rows, which agree in every hashed field;
   otherwise two of the byte strings they hashed collide.
   */
  lemma RfcTamperEvidence(sha: Bytes -> Digest, t1: seq<Row>, a: string, to1: Option<int>, q: seq<Row>,
                          t2: seq<Row>, b: string, to2: Option<int>, r: seq<Row>)
    returns (x: Bytes, y: Bytes)
    requires UniqueIndex(t1) && ProperTable(t1) && VerifiesCleanly(RfcChain(sha), t1, a, 1, to1)
    requires UniqueIndex(t2) && ProperTable(t2) && VerifiesCleanly(RfcChain(sha), t2, b, 1, to2)
    requires q == WindowRows(t1, a, 1, to1) && r == WindowRows(t2, b, 1, to2) && q != [] && r != []
    requires q[|q| - 1].thisHash == r[|r| - 1].thisHash
    ensures (|q| == |r| && a == b && Agree(q, r, |q|)) || ShowsCollision(RfcChain(sha), a, q, b, r, x, y)
  {
    RfcChainIsSound(sha);
    x, y := TamperEvidence(RfcChain(sha), t1, a, to1, q, t2, b, to2, r);
  }

  /** The smallest integer the encoder refuses, and a list that makes no dictionary. */
  lemma PayloadsThatRaise(sha: Bytes -> Digest, event: Event)
    requires event.payload == Null
    ensures Encodes(RfcChain(sha), event)
    ensures !Encodes(RfcChain(sha), event.(payload := Obj([Member("n", Num(0x20_0000_0000_0000))])))
    ensures !Encodes(RfcChain(sha), event.(payload := Arr([Num(1)])))
  {
    var big := event.(payload := Obj([Member("n", Num(0x20_0000_0000_0000))]));
    var ms := CoreMembers(event);
    forall i | 0 <= i < |ms|
      ensures AllInts(ms[i].val, IsSafe)
    {
      assert ms[i].val.Null? || ms[i].val.Str?;
    }
    assert !AllInts(big.payload.members[0].val, IsSafe);
    assert !AllInts(big.payload, IsSafe);
    assert CoreMembers(big)[8].val == big.payload;
    assert !AllInts(CanonicaliseCore(big), IsSafe);
    PayloadsHashedAlike(Null);
  }
}
