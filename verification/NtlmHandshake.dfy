/** The NTLM version 2 handshake as a whole: the two sides agree on the user, the
    response and every key; and what becomes of the server's target name. */
module NtlmHandshake {
  import opened Bytes
  import opened Ntlm
  import opened Utf16
  import opened Wrappers
  import C = NtlmClient
  import S = NtlmServer

  // ------------------------------------------------------------------- AV lists

  lemma {:induction false} AvMapSkips(ps: seq<AvPair>, id: nat)
    requires forall p :: p in ps ==> p.id != id
    ensures id !in AvMap(ps)
  {
    if ps != [] { AvMapSkips(ps[..|ps| - 1], id); }
  }

  lemma {:induction false} AvMapFinds(pre: seq<AvPair>, p: AvPair, post: seq<AvPair>)
    requires forall q :: q in post ==> q.id != p.id
    ensures p.id in AvMap(pre + [p] + post) && AvMap(pre + [p] + post)[p.id] == p.value
  {
    var ps := pre + [p] + post;
    if post == [] {
      assert ps[|ps| - 1] == p;
    } else {
      assert ps[..|ps| - 1] == pre + [p] + post[..|post| - 1] && ps[|ps| - 1] == post[|post| - 1];
      AvMapFinds(pre, p, post[..|post| - 1]);
    }
  }

  lemma {:induction false} EolBytes()
    ensures AvBytes(AvPair(AV_EOL, [])) == Zeros(4)
  {
    assert LE(2, 0) == [0, 0] by { assert LE(1, 0) == [0]; }
  }

  /** A block that ends in an end-of-list pair parses to its pairs. */
  lemma {:induction false} ParseInverts(ps: seq<AvPair>)
    requires forall p :: p in ps ==> p.Fits()
    ensures ParseAvPairs(AvListBytes(ps + [AvPair(AV_EOL, [])])) == Some(ps + [AvPair(AV_EOL, [])])
    ensures AvListBytes(ps + [AvPair(AV_EOL, [])]) == AvListBytes(ps) + Zeros(4)
  {
    hide AvBytes, AvListBytes;
    var all := ps + [AvPair(AV_EOL, [])];
    AvListJoin(ps, [AvPair(AV_EOL, [])]); AvListOne(AvPair(AV_EOL, [])); EolBytes();
    AvListInverts(all, []);
    assert AvListBytes(all) + [] == AvListBytes(all) && all + [] == all;
  }

  /** The server's list without its end. */
  function Body(n: S.Names, timeStamp: Bytes): seq<AvPair> {
    [AvPair(AV_TIMESTAMP, timeStamp)] + (S.Named(AV_DNS_COMPUTER, n.dnsName) + (S.Named(AV_DNS_DOMAIN, n.dnsDomain)
    + (S.Named(AV_NB_COMPUTER, n.nbName) + S.Named(AV_NB_DOMAIN, n.nbDomain))))
  }

  predicate Small(b: Bytes) {
    |b| < 0x1_0000
  }

  predicate NamesFit(n: S.Names) {
    && Small(Encoded(n.target)) && Small(Encoded(n.nbName)) && Small(Encoded(n.nbDomain))
    && Small(Encoded(n.dnsName)) && Small(Encoded(n.dnsDomain))
  }

  lemma {:induction false} BodyThenEol(n: S.Names, ts: Bytes)
    ensures S.TargetInfo(n, ts) == Body(n, ts) + [AvPair(AV_EOL, [])]
  {
    hide Encoded, S.Named;
    var a, b, c, d := S.Named(AV_DNS_COMPUTER, n.dnsName), S.Named(AV_DNS_DOMAIN, n.dnsDomain),
      S.Named(AV_NB_COMPUTER, n.nbName), S.Named(AV_NB_DOMAIN, n.nbDomain);
    var t, e := [AvPair(AV_TIMESTAMP, ts)], [AvPair(AV_EOL, [])];
    assert t + (a + (b + (c + (d + e)))) == (t + (a + (b + (c + d)))) + e;
  }

  lemma {:induction false} BodyPairs(n: S.Names, ts: Bytes)
    requires NamesFit(n) && |ts| == 8
    ensures Body(n, ts) != [] && Body(n, ts)[0] == AvPair(AV_TIMESTAMP, ts)
    ensures forall p :: p in Body(n, ts) ==> p.Fits()
    ensures forall p :: p in Body(n, ts)[1..] ==> p.id in {1, 2, 3, 4}
  {
    hide Encoded;
    var rest := S.Named(AV_DNS_COMPUTER, n.dnsName) + (S.Named(AV_DNS_DOMAIN, n.dnsDomain)
    + (S.Named(AV_NB_COMPUTER, n.nbName) + S.Named(AV_NB_DOMAIN, n.nbDomain)));
    assert Body(n, ts)[1..] == rest;
  }

  lemma {:induction false} BodyFacts(n: S.Names, ts: Bytes)
    requires NamesFit(n) && |ts| == 8
    ensures AV_TIMESTAMP in AvMap(S.TargetInfo(n, ts)) && AvMap(S.TargetInfo(n, ts))[AV_TIMESTAMP] == ts
    ensures AV_FLAGS !in AvMap(S.TargetInfo(n, ts))
  {
    hide Body, S.TargetInfo, AvMap;
    BodyThenEol(n, ts);
    BodyPairs(n, ts);
    var b, rest := Body(n, ts), Body(n, ts)[1..] + [AvPair(AV_EOL, [])];
    assert forall p :: p in rest ==> p.id in {0, 1, 2, 3, 4};
    assert b + [AvPair(AV_EOL, [])] == [] + [b[0]] + rest;
    AvMapFinds([], b[0], rest);
    AvMapSkips([] + [b[0]] + rest, AV_FLAGS);
  }

  /** The list the client sends back announces an integrity code. */
  lemma {:induction false} ClientListFacts(n: S.Names, ts: Bytes, spn: Bytes)
    requires NamesFit(n) && |ts| == 8 && Small(spn)
    requires |AvListBytes(S.TargetInfo(n, ts))| >= 4
    ensures var sent := C.ClientInfo(AvListBytes(S.TargetInfo(n, ts)), spn) + Zeros(4);
      && ParseAvPairs(sent).Some?
      && AV_FLAGS in AvMap(ParseAvPairs(sent).value) && AvMap(ParseAvPairs(sent).value)[AV_FLAGS] == LE(4, 2)
  {
    hide AvBytes, AvListBytes, AvMap, ParseAvPairs, LE, Body, S.TargetInfo;
    BodyThenEol(n, ts);
    BodyPairs(n, ts);
    var body, extra := Body(n, ts), C.ExtraPairs(spn);
    ParseInverts(body);
    AvListJoin(body, extra);
    var info := AvListBytes(S.TargetInfo(n, ts));
    assert info[..|info| - 4] == AvListBytes(body);
    ParseInverts(body + extra);
    var f, post := AvPair(AV_FLAGS, LE(4, 2)), extra[1..] + [AvPair(AV_EOL, [])];
    assert body + extra + [AvPair(AV_EOL, [])] == body + [f] + post;
    AvMapFinds(body, f, post);
  }

  // ------------------------------------------------------ reading the challenge

  lemma {:induction false} FieldReadsAt(m: Bytes, slot: nat, off: nat, b: Bytes)
    requires slot + 8 <= |m| < 0x1_0000_0000 && off + |b| <= |m| && Small(b)
    requires m[slot..slot + 8] == Desc(|b|, off) && m[off..off + |b|] == b
    ensures ReadField(m, slot) == Some(b)
  {
    hide Desc, ReadField;
    assert m == m[..off] + b + m[off + |b|..];
    FieldReads(m, slot, m[..off], b, m[off + |b|..]);
  }

  lemma {:induction false} HeadLayout(flags: nat, tiSize: nat, gap: nat, sc: Bytes)
    requires |sc| == 8 && HasBit(flags, NEGOTIATE_VERSION)
    ensures var h := S.HeadBytes(flags, tiSize, gap, sc);
      && |h| == 56 && h[..8] == SIGNATURE && h[8..12] == LE(4, 2) && h[20..24] == LE(4, flags) && h[24..32] == sc
      && h[12..20] == (if gap > 0 then Desc(gap, 56 + tiSize) else Zeros(8)) && h[40..48] == Desc(tiSize, 56 + gap)
  {
    hide LE, Desc, S.NameField, S.HeadStart;
    var h, st := S.HeadBytes(flags, tiSize, gap, sc), S.HeadStart(flags, gap, 56 + tiSize, sc);
    var nf := S.NameField(gap, 56 + tiSize);
    assert h[..40] == st && h[40..48] == Desc(tiSize, 56 + gap);
    StartLayout(flags, gap, 56 + tiSize, sc);
    assert h[..20] == st[..20] && h[20..24] == st[20..24] && h[24..32] == st[24..32];
    NameLayout(gap, 56 + tiSize);
    assert h[..8] == h[..20][..8] && h[8..12] == h[..20][8..12] && h[12..20] == h[..20][12..];
  }

  lemma {:induction false} StartLayout(flags: nat, gap: nat, off: nat, sc: Bytes)
    requires |sc| == 8
    ensures var st := S.HeadStart(flags, gap, off, sc);
      st[..20] == S.NameField(gap, off) && st[20..24] == LE(4, flags) && st[24..32] == sc
  {
    hide LE, S.NameField;
  }

  lemma {:induction false} NameLayout(gap: nat, off: nat)
    ensures var nf := S.NameField(gap, off);
      nf[..8] == SIGNATURE && nf[8..12] == LE(4, 2) && nf[12..] == if gap > 0 then Desc(gap, off) else Zeros(8)
  {
    hide LE, Desc;
  }

  lemma {:induction false} DefaultBits(d: nat)
    requires d == DEFAULT_FLAGS
    ensures HasBit(d, NEGOTIATE_VERSION) && HasBit(d, REQUEST_TARGET) && HasBit(d, TARGET_INFO) && HasBit(d, KEY_EXCH)
  {
  }

  lemma {:induction false} DefaultFlags()
    ensures S.ChallengeFlags(DEFAULT_FLAGS) == DEFAULT_FLAGS == And(DEFAULT_FLAGS, DEFAULT_FLAGS)
    ensures HasBit(DEFAULT_FLAGS, NEGOTIATE_VERSION) && HasBit(DEFAULT_FLAGS, REQUEST_TARGET)
    ensures HasBit(DEFAULT_FLAGS, TARGET_INFO) && HasBit(DEFAULT_FLAGS, KEY_EXCH)
  {
    hide And, HasBit;
    AndSelf(DEFAULT_FLAGS);
    DefaultBits(DEFAULT_FLAGS);
  }

  /** What a client finds where the server says the target name is: the end of the
      target information, or of both when the name is the longer one. */
  function SeenName(n: S.Names, ti: Bytes): Bytes {
    S.ChallengePayload(n, DEFAULT_FLAGS, ti)[|ti|..|ti| + |Encoded(n.target)|]
  }

  lemma {:induction false} PayloadHolds(n: S.Names, ti: Bytes)
    ensures var p, g := S.ChallengePayload(n, DEFAULT_FLAGS, ti), |Encoded(n.target)|;
      S.Gap(n, DEFAULT_FLAGS) == g && |p| == |ti| + g + 4 && p[g..g + |ti|] == ti
  {
    hide Encoded, HasBit;
    DefaultFlags();
    var tn := Encoded(n.target);
    var room := Zeros(|ti| + |tn| + 4);
    SpliceInside(Splice(room, |ti|, tn), |tn|, ti);
  }

  /** The client reads the flags, the nonce and the whole target information. */
  lemma {:induction false} ChallengeReads(n: S.Names, ts: Bytes, sc: Bytes)
    requires |ts| == 8 && |sc| == 8 && Small(Encoded(n.target))
    requires Small(AvListBytes(S.TargetInfo(n, ts)))
    ensures var ti, m := AvListBytes(S.TargetInfo(n, ts)), S.ChallengeMessage(n, DEFAULT_FLAGS, ts, sc);
      && 56 <= |m| && m[..8] == SIGNATURE && U32(m, 8) == 2 && U32(m, 20) == DEFAULT_FLAGS && m[24..32] == sc
      && ReadField(m, 12) == Some(SeenName(n, ti)) && ReadField(m, 40) == Some(ti)
  {
    hide Encoded, AvListBytes, S.TargetInfo, LE, Desc, HasBit, S.HeadBytes, S.ChallengePayload, S.ChallengeFlags, ReadField, U32;
    DefaultFlags();
    var ti, g := AvListBytes(S.TargetInfo(n, ts)), |Encoded(n.target)|;
    PayloadHolds(n, ti);
    HeadLayout(DEFAULT_FLAGS, |ti|, g, sc);
    var h, p := S.HeadBytes(DEFAULT_FLAGS, |ti|, g, sc), S.ChallengePayload(n, DEFAULT_FLAGS, ti);
    var m := h + p;
    HeadOfMessage(h, p);
    U32Exactly(m, 8, 2); U32Exactly(m, 20, DEFAULT_FLAGS);
    assert m[56 + g..56 + g + |ti|] == p[g..g + |ti|];
    FieldReadsAt(m, 40, 56 + g, ti);
    assert m[56 + |ti|..56 + |ti| + g] == SeenName(n, ti);
    if g > 0 { FieldReadsAt(m, 12, 56 + |ti|, SeenName(n, ti)); } else { EmptyField(m, 12); }
  }

  lemma {:induction false} HeadOfMessage(h: Bytes, p: Bytes)
    requires |h| == 56
    ensures var m := h + p;
      && m[..8] == h[..8] && m[8..12] == h[8..12] && m[12..20] == h[12..20] && m[20..24] == h[20..24]
      && m[24..32] == h[24..32] && m[40..48] == h[40..48]
  {
  }

  lemma {:induction false} EmptyField(m: Bytes, slot: nat)
    requires slot + 8 <= |m| && m[slot..slot + 8] == Zeros(8)
    ensures ReadField(m, slot) == Some([])
  {
    assert forall i :: slot <= i < slot + 8 ==> m[i] == m[slot..slot + 8][i - slot] == 0;
  }

  /** The target information overwrites the target name: whatever its length, a
      client reads back a name that does not end in NUL exactly when it is empty. */
  lemma {:induction false} TargetNameReadsBackIff(n: S.Names, ts: Bytes, sc: Bytes)
    requires |ts| == 8 && |sc| == 8 && NamesFit(n) && Small(AvListBytes(S.TargetInfo(n, ts)))
    requires n.target == [] || n.target[|n.target| - 1] != 0
    ensures ReadField(S.ChallengeMessage(n, DEFAULT_FLAGS, ts, sc), 12) == Some(Encoded(n.target)) <==> n.target == []
  {
    var ti := AvListBytes(S.TargetInfo(n, ts));
    ChallengeReads(n, ts, sc);
    if n.target != [] {
      InfoEndsInZeros(n, ts);
      LastUnit(n.target);
      PayloadHolds(n, ti);
      NameOverwritten(n, ti);
    }
  }

  /** A server called A, without other names: the client reads something else. */
  lemma {:induction false} TargetNameLost(ts: Bytes, sc: Bytes)
    requires |ts| == 8 && |sc| == 8
    ensures var n := S.Names([0x41], [], [], [], []);
      ReadField(S.ChallengeMessage(n, DEFAULT_FLAGS, ts, sc), 12) != Some(Encoded(n.target))
  {
    hide S.ChallengeMessage, ReadField;
    var n := S.Names([0x41], [], [], [], []);
    assert Units([]) == [];
    assert Units([0x41]) == UnitsOf(0x41) + Units([0x41][1..]) == [0x41];
    assert |Encoded([0x41])| == 2 && Encoded([]) == [];
    var stamp, end := AvPair(AV_TIMESTAMP, ts), AvPair(AV_EOL, []);
    assert S.TargetInfo(n, ts) == [stamp] + [end];
    AvListJoin([stamp], [end]); AvListOne(stamp); AvListOne(end);
    TargetNameReadsBackIff(n, ts, sc);
  }

  lemma {:induction false} InfoEndsInZeros(n: S.Names, ts: Bytes)
    requires |ts| == 8 && NamesFit(n)
    ensures var ti := AvListBytes(S.TargetInfo(n, ts)); |ti| >= 4 && ti[|ti| - 4..] == Zeros(4)
  {
    hide AvListBytes, Body, S.TargetInfo;
    BodyThenEol(n, ts);
    BodyPairs(n, ts);
    ParseInverts(Body(n, ts));
  }

  lemma {:induction false} LastUnit(s: Str)
    requires s != [] && s[|s| - 1] != 0
    ensures var bs := Encoded(s); |bs| >= 2 && (bs[|bs| - 2] != 0 || bs[|bs| - 1] != 0)
  {
    RunesOfUnits(s);
    LastUnitBytes(Units(s));
  }

  lemma {:induction false} LastUnitBytes(us: seq<Unit>)
    requires us != [] && us[|us| - 1] != 0
    ensures var bs := Serialized(us); bs[|bs| - 2] != 0 || bs[|bs| - 1] != 0
  {
    if |us| > 1 {
      LastUnitBytes(us[1..]);
    } else {
      assert LE(2, us[0])[1] == us[0] / 256 % 256;
    }
  }

  /** The last bytes of the name are those of the target information. */
  lemma {:induction false} NameOverwritten(n: S.Names, ti: Bytes)
    requires |ti| >= 4 && ti[|ti| - 4..] == Zeros(4) && |Encoded(n.target)| >= 2
    ensures var seen := SeenName(n, ti); seen[|seen| - 2] == seen[|seen| - 1] == 0
  {
    hide Encoded;
    PayloadHolds(n, ti);
    hide S.ChallengePayload;
    var p, g := S.ChallengePayload(n, DEFAULT_FLAGS, ti), |Encoded(n.target)|;
    var k := |ti| + g;
    assert p[k - 2] == p[g..k][|ti| - 2] == ti[|ti| - 4..][2];
    assert p[k - 1] == p[g..k][|ti| - 1] == ti[|ti| - 4..][3];
  }

  // ------------------------------------------------------------- the agreement

  /** The challenge as the client takes it. */
  function Taken(n: S.Names, ts: Bytes, sc: Bytes): C.Challenge {
    var ti := AvListBytes(S.TargetInfo(n, ts));
    C.Challenge(DEFAULT_FLAGS, SeenName(n, ti), ti, AvMap(S.TargetInfo(n, ts)), sc)
  }

  lemma {:induction false} ChallengeParses(n: S.Names, ts: Bytes, sc: Bytes)
    requires |ts| == 8 && |sc| == 8 && NamesFit(n) && Small(AvListBytes(S.TargetInfo(n, ts)))
    ensures C.ParseChallenge(DEFAULT_FLAGS, S.ChallengeMessage(n, DEFAULT_FLAGS, ts, sc)) == C.Good(Taken(n, ts, sc))
  {
    hide S.ChallengeMessage, SeenName, AvListBytes, S.TargetInfo, ParseAvPairs, ReadField, U32, HasBit, And, AvMap, Body, Encoded;
    ChallengeReads(n, ts, sc);
    DefaultFlags();
    BodyThenEol(n, ts);
    BodyPairs(n, ts);
    ParseInverts(Body(n, ts));
  }

  lemma {:induction false} NegotiateReads()
    ensures var m := C.NegotiateMessage;
      |m| == 40 && S.ChallengeProblem(m) == None && U32(m, 12) == DEFAULT_FLAGS
  {
    hide LE, U32;
    var m := C.NegotiateMessage;
    assert m[..8] == SIGNATURE && m[8..12] == LE(4, 1) && m[12..16] == LE(4, DEFAULT_FLAGS);
    U32Exactly(m, 8, 1); U32Exactly(m, 12, DEFAULT_FLAGS);
  }

  lemma {:induction false} HeadReads(s: C.Slots)
    requires s.Sized()
    ensures var h := C.Head(s);
      && h[..8] == SIGNATURE && h[8..12] == LE(4, 3) && h[20..28] == s.nt && h[28..36] == s.domain && h[36..44] == s.user
      && h[52..60] == s.key && h[60..64] == s.flags && h[72..88] == Zeros(16)
  {
    hide LE, Zeros;
    var h := C.Head(s);
    assert h[..28] == C.Head1(s) && h[28..52] == C.Head2(s) && h[52..72] == C.Head3(s) && h[72..88] == Zeros(16) by {
      hide C.Head1, C.Head2, C.Head3;
    }
    assert h[..8] == h[..28][..8] && h[8..12] == h[..28][8..12] && h[20..28] == h[..28][20..28];
    assert h[28..36] == h[28..52][..8] && h[36..44] == h[28..52][8..16];
    assert h[52..60] == h[52..72][..8] && h[60..64] == h[52..72][8..12];
  }

  /** The payload of an unsealed message, field by field. */
  lemma {:induction false} PayloadReads(h: Bytes, domain: Bytes, user: Bytes, ws: Bytes, nt: Bytes, k: Bytes)
    requires |h| == 88
    ensures var m := h + (domain + user + ws + Zeros(24)) + nt + k;
      var u, lm := 88 + |domain|, 88 + |domain| + |user| + |ws|;
      && |m| == lm + 24 + |nt| + |k| && m[..88] == h
      && m[88..u] == domain && m[u..u + |user|] == user
      && m[lm + 24..lm + 24 + |nt|] == nt && m[lm + 24 + |nt|..lm + 24 + |nt| + |k|] == k
  {
    var names := domain + user + ws + Zeros(24);
    var m := h + names + nt + k;
    var u := 88 + |domain|;
    assert m[88..88 + |names|] == names;
    assert m[88..u] == names[..|domain|] && m[u..u + |user|] == names[|domain|..|domain| + |user|];
  }

  /** The integrity code changes nothing that the server reads, and it holds. */
  lemma {:induction false} SealedReads(c: Crypto, key: Bytes, nmsg: Bytes, cmsg: Bytes, m: Bytes)
    requires |m| >= 88 && m[72..88] == Zeros(16)
    ensures var s := C.Sealed(c, key, nmsg, cmsg, m);
      && |s| == |m| && s[..72] == m[..72] && s[88..] == m[88..] && S.MicHolds(c, key, nmsg, cmsg, s, 72)
  {
    var mic := c.hmac(key, nmsg + cmsg + m);
    var s := Splice(m, 72, mic);
    SpliceInside(m, 72, mic);
    SpliceTwice(m, 72, mic, Zeros(16));
    SpliceTwice(m, 72, Zeros(16), Zeros(16));
  }

  /** The server parses exactly the fields the client wrote. */
  lemma {:induction false} FieldsAgree(c: Crypto, key: Bytes, nmsg: Bytes, cmsg: Bytes,
                                       domain: Bytes, user: Bytes, ws: Bytes, nt: Bytes, k: Bytes, flags: nat)
    requires Small(domain) && Small(user) && Small(ws) && Small(nt) && |k| == 16 && user != [] && flags < 0x1_0000_0000
    ensures var m := C.Unsealed(domain, user, ws, nt, Some(k), flags);
      && |m| >= 88 && m[72..88] == Zeros(16)
      && S.ParseFields(C.Sealed(c, key, nmsg, cmsg, m)) == S.Good(S.Fields(nt, domain, user, k, flags))
  {
    hide LE, Desc, C.Head, ReadField, U32, Splice;
    var slots := C.FullSlots(domain, user, ws, |nt|, true, flags);
    var h, m := C.Head(slots), C.Unsealed(domain, user, ws, nt, Some(k), flags);
    HeadReads(slots);
    PayloadReads(h, domain, user, ws, nt, k);
    assert m[72..88] == m[..88][72..88];
    SealedReads(c, key, nmsg, cmsg, m);
    var s := C.Sealed(c, key, nmsg, cmsg, m);
    SameHead(s, m, h);
    SamePayload(s, m, domain, user, ws, nt, k);
    var u, lm := 88 + |domain|, 88 + |domain| + |user| + |ws|;
    U32Exactly(s, 8, 3); U32Exactly(s, 60, flags);
    FieldReadsAt(s, 20, lm + 24, nt); FieldReadsAt(s, 28, 88, domain);
    FieldReadsAt(s, 36, u, user); FieldReadsAt(s, 52, lm + 24 + |nt|, k);
  }

  lemma {:induction false} SameHead(s: Bytes, m: Bytes, h: Bytes)
    requires |s| == |m| >= 88 && |h| == 88 && m[..88] == h && s[..72] == m[..72]
    ensures s[..8] == h[..8] && s[8..12] == h[8..12] && s[20..28] == h[20..28] && s[28..36] == h[28..36]
    ensures s[36..44] == h[36..44] && s[52..60] == h[52..60] && s[60..64] == h[60..64]
  {
    assert forall i :: 0 <= i < 72 ==> s[i] == s[..72][i] == m[..72][i] == m[..88][i] == h[i];
  }

  lemma {:induction false} SamePayload(s: Bytes, m: Bytes, domain: Bytes, user: Bytes, ws: Bytes, nt: Bytes, k: Bytes)
    requires var u, lm := 88 + |domain|, 88 + |domain| + |user| + |ws|;
      && |s| == |m| == lm + 24 + |nt| + |k| && s[88..] == m[88..]
      && m[88..u] == domain && m[u..u + |user|] == user
      && m[lm + 24..lm + 24 + |nt|] == nt && m[lm + 24 + |nt|..lm + 24 + |nt| + |k|] == k
    ensures var u, lm := 88 + |domain|, 88 + |domain| + |user| + |ws|;
      && s[88..u] == domain && s[u..u + |user|] == user
      && s[lm + 24..lm + 24 + |nt|] == nt && s[lm + 24 + |nt|..lm + 24 + |nt| + |k|] == k
  {
    assert forall i :: 88 <= i < |m| ==> s[i] == s[88..][i - 88] == m[88..][i - 88] == m[i];
  }

  /** A response computed with the same key and nonce is accepted, and carries the
      list it was made with. */
  lemma {:induction false} ResponseAccepted(c: Crypto, key: Bytes, cmsg: Bytes, cc: Bytes, ts: Bytes, ti: Bytes)
    requires |cmsg| >= 32 && |cc| == 8 && |ts| == 8
    ensures var nt := NtResponse(c, key, cmsg[24..32], cc, ts, ti);
      S.ResponseHolds(c, key, cmsg, nt) && nt[44..] == ti
  {
    var nt, blob := NtResponse(c, key, cmsg[24..32], cc, ts, ti), Blob(cc, ts, ti);
    assert nt[16..] == blob by { hide Blob; }
    assert blob[16..24] == cc && blob[8..16] == ts && blob[28..] == ti;
    assert nt[44..] == nt[16..][28..];
  }

  /** Everything fits the 16-bit lengths of the messages. */
  predicate Fits(cfg: C.Config, n: S.Names, ts: Bytes) {
    && NamesFit(n) && Small(AvListBytes(S.TargetInfo(n, ts)))
    && Small(Encoded(cfg.user)) && Small(Encoded(cfg.domain)) && Small(Encoded(cfg.workstation)) && Small(Encoded(cfg.spn))
    && |AvListBytes(S.TargetInfo(n, ts))| + |Encoded(cfg.spn)| + 84 < 0x1_0000
  }

  lemma {:induction false} ClientFlagBits()
    ensures HasBit(U32(LE(4, 2), 0), 2)
  {
    hide LE, U32;
    var b := LE(4, 2);
    assert b[0..4] == b;
    U32Exactly(b, 0, 2);
  }

  /** The client's response, seen by the server: accepted, announcing a code. */
  lemma {:induction false} ResponseFacts(c: Crypto, cfg: C.Config, n: S.Names, ts: Bytes, sc: Bytes, d: C.Draws, cmsg: Bytes)
    requires |ts| == 8 && |sc| == 8 && d.Sized() && Fits(cfg, n, ts) && |AvListBytes(S.TargetInfo(n, ts))| >= 4
    requires |cmsg| >= 32 && cmsg[24..32] == sc
    ensures var ch := Taken(n, ts, sc); var nt := C.ClientResponse(c, cfg, ch, d);
      && 44 <= |nt| && Small(nt) && S.MicAnnounced(nt) == Some(true)
      && S.ResponseHolds(c, C.ClientKey(c, cfg, C.DomainBytes(cfg, ch)), cmsg, nt)
  {
    hide Encoded, AvListBytes, S.TargetInfo, C.ClientInfo, NtResponse, ParseAvPairs, AvMap, SeenName, C.ClientKey, HasBit, U32, LE;
    var ch := Taken(n, ts, sc);
    var spn := Encoded(cfg.spn);
    var ti := C.ClientInfo(ch.info, spn) + Zeros(4);
    BodyFacts(n, ts);
    ClientListFacts(n, ts, spn);
    ClientFlagBits();
    ResponseAccepted(c, C.ClientKey(c, cfg, C.DomainBytes(cfg, ch)), cmsg, d.clientChallenge, C.TimeStamp(ch.pairs, d.now), ti);
  }

  /** Running the whole exchange with an account present: the server accepts, the
      integrity code holds, and both sides are left with the same session: the user,
      the flags, the exported key the client drew, and all four derived keys. */
  lemma {:induction false} HandshakeAgrees(c: Crypto, cfg: C.Config, n: S.Names, accounts: map<Str, Str>, allowGuest: bool,
                                           ts: Bytes, sc: Bytes, d: C.Draws)
    requires |ts| == 8 && |sc| == 8 && d.Sized() && Fits(cfg, n, ts)
    requires cfg.user != [] && cfg.user[|cfg.user| - 1] != 0
    requires cfg.user in accounts && accounts[cfg.user] == cfg.password
    requires cfg.hash == None || cfg.hash == Some(c.md4(Encoded(cfg.password)))
    ensures S.ChallengeProblem(C.NegotiateMessage) == None
    ensures var nmsg := C.NegotiateMessage;
      var cmsg := S.ChallengeMessage(n, U32(nmsg, 12), ts, sc);
      var answer := C.Answered(c, cfg, nmsg, cmsg, d);
      && |cmsg| >= 32 && answer.Sent? && answer.session.Some?
      && S.Authenticated(c, accounts, allowGuest, nmsg, cmsg, answer.amsg) == S.Accepted(answer.session.value)
      && answer.session.value == NewSession(c, cfg.user, DEFAULT_FLAGS, d.sessionKey)
      && S.MicHolds(c, d.sessionKey, nmsg, cmsg, answer.amsg, 72)
      && S.ParseFields(answer.amsg).Good? && S.ParseFields(answer.amsg).f.user == Encoded(cfg.user)
      && (cfg.domain != [] ==> S.ParseFields(answer.amsg).f.domain == Encoded(cfg.domain))
      && S.ParseFields(answer.amsg).f.nt == C.ClientResponse(c, cfg, Taken(n, ts, sc), d)
  {
    hide Encoded, AvListBytes, S.TargetInfo, S.ChallengeMessage, C.ParseChallenge, C.ClientResponse, C.Unsealed, AvMap,
      S.ParseFields, HasBit, Decoded, Taken, S.ResponseHolds, S.MicAnnounced, NewSession, U32, C.Sealed, SeenName, S.MicHolds, Rc4;
    NegotiateReads();
    DefaultFlags();
    InfoEndsInZeros(n, ts);
    ChallengeReads(n, ts, sc);
    ChallengeParses(n, ts, sc);
    BodyFacts(n, ts);
    var nmsg, ch := C.NegotiateMessage, Taken(n, ts, sc);
    var cmsg := S.ChallengeMessage(n, DEFAULT_FLAGS, ts, sc);
    TakenIs(n, ts, sc);
    ResponseFacts(c, cfg, n, ts, sc, d, cmsg);
    var domain, user, ws := C.DomainBytes(cfg, ch), Encoded(cfg.user), Encoded(cfg.workstation);
    var nt, k := C.ClientResponse(c, cfg, ch, d), C.KeyField(c, cfg, ch, d).value;
    var m := C.UnsealedAnswer(c, cfg, ch, d);
    FieldsAgree(c, d.sessionKey, nmsg, cmsg, domain, user, ws, nt, k, DEFAULT_FLAGS);
    SealedReads(c, d.sessionKey, nmsg, cmsg, m);
    DecodeEncode(cfg.user);
    Rc4Twice(c, C.BaseKey(c, cfg, ch, nt), d.sessionKey);
    var key := C.ClientKey(c, cfg, domain);
    assert key == S.ResponseKey(c, cfg.user, cfg.password, domain);
    var f := S.Fields(nt, domain, user, k, DEFAULT_FLAGS);
    assert S.ExportedKey(c, key, f) == d.sessionKey;
    var amsg := C.Sealed(c, d.sessionKey, nmsg, cmsg, m);
    assert S.Check(c, key, cfg.user, allowGuest, nmsg, cmsg, amsg, f)
        == S.Accepted(NewSession(c, cfg.user, DEFAULT_FLAGS, d.sessionKey));
  }

  lemma {:induction false} TakenIs(n: S.Names, ts: Bytes, sc: Bytes)
    requires Small(Encoded(n.target))
    ensures var ch := Taken(n, ts, sc);
      && ch.flags == DEFAULT_FLAGS && ch.info == AvListBytes(S.TargetInfo(n, ts)) && ch.pairs == AvMap(S.TargetInfo(n, ts))
      && ch.nonce == sc && Small(ch.targetName)
  {
    hide Encoded, S.ChallengePayload;
  }

  lemma {:induction false} ExchangeAgrees(c: Crypto, cfg: C.Config, n: S.Names, accounts: map<Str, Str>, allowGuest: bool,
                                          ts: Bytes, sc: Bytes, d: C.Draws)
    requires |ts| == 8 && |sc| == 8 && d.Sized() && Fits(cfg, n, ts) && cfg.hash == None
    requires cfg.user != [] && cfg.user[|cfg.user| - 1] != 0 && cfg.user in accounts && accounts[cfg.user] == cfg.password
    ensures var cmsg := S.ChallengeMessage(n, DEFAULT_FLAGS, ts, sc);
      var answer := C.Answered(c, cfg, C.NegotiateMessage, cmsg, d);
      && |cmsg| >= 32 && answer.Sent? && answer.session == Some(NewSession(c, cfg.user, DEFAULT_FLAGS, d.sessionKey))
      && S.Authenticated(c, accounts, allowGuest, C.NegotiateMessage, cmsg, answer.amsg) == S.Accepted(answer.session.value)
  {
    hide S.Authenticated, S.ChallengeMessage, C.Answered, NewSession, S.ParseFields, S.MicHolds, Fits, U32, C.ClientResponse, Taken;
    NegotiateReads();
    HandshakeAgrees(c, cfg, n, accounts, allowGuest, ts, sc, d);
  }

  /** The four messages exchanged between the two objects. */
  method Exchange(client: C.Client, server: S.Server, ts: Bytes, sc: Bytes, d: C.Draws) returns (o: S.Outcome)
    requires client.c == server.c && |ts| == 8 && |sc| == 8 && d.Sized() && Fits(client.cfg, server.names, ts)
    requires client.cfg.user != [] && client.cfg.user[|client.cfg.user| - 1] != 0 && client.cfg.hash == None
    requires client.cfg.user in server.accounts && server.accounts[client.cfg.user] == client.cfg.password
    modifies client, server
    ensures o == S.Accepted(NewSession(client.c, client.cfg.user, DEFAULT_FLAGS, d.sessionKey))
    ensures client.session == server.session == Some(o.session)
  {
    hide S.Authenticated, S.ChallengeMessage, C.Answered, S.LeftBehind, NewSession, Fits, U32, S.ChallengeProblem;
    NegotiateReads();
    var nmsg := client.Negotiate();
    var cmsg := server.Challenge(nmsg, ts, sc);
    ExchangeAgrees(client.c, client.cfg, server.names, server.accounts, server.allowGuest, ts, sc, d);
    var answer := client.Authenticate(cmsg.value, d);
    var amsg := new byte[|answer.amsg|](i requires 0 <= i < |answer.amsg| => answer.amsg[i]);
    assert amsg[..] == answer.amsg;
    o := server.Authenticate(amsg);
  }
}
