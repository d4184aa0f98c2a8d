/** The client side of the NTLM version 2 handshake. */
module NtlmClient {
  import opened Bytes
  import opened Ntlm
  import opened Slices
  import opened Utf16
  import opened Wrappers

  datatype Config = Config(user: Str, password: Str, hash: Option<Bytes>, domain: Str, workstation: Str, spn: Str) {
    predicate HasCredentials() {
      user != [] || password != [] || hash.Some?
    }
  }

  const NegotiateMessage: Bytes := SIGNATURE + LE(4, 1) + LE(4, DEFAULT_FLAGS) + Zeros(16) + VERSION

  // --------------------------------------------------------- target information

  /** The pairs the client puts in place of the end of the server's list. */
  function ExtraPairs(spn: Bytes): seq<AvPair> {
    [AvPair(AV_FLAGS, LE(4, 2)), AvPair(AV_CHANNEL_BINDINGS, Zeros(16))]
    + (if spn != [] then [AvPair(AV_TARGET_NAME, spn)] else []) + [AvPair(AV_EOL, [])]
  }

  function ClientInfo(info: Bytes, spn: Bytes): (r: Bytes)
    requires |info| >= 4
    ensures |r| == |info| + 28 + if spn == [] then 0 else 4 + |spn|
  {
    ExtraLength(spn);
    info[..|info| - 4] + AvListBytes(ExtraPairs(spn))
  }

  lemma {:induction false} ExtraLength(spn: Bytes)
    ensures |AvListBytes(ExtraPairs(spn))| == 32 + if spn == [] then 0 else 4 + |spn|
  {
    hide AvBytes, LE;
    var f, b, e := AvPair(AV_FLAGS, LE(4, 2)), AvPair(AV_CHANNEL_BINDINGS, Zeros(16)), AvPair(AV_EOL, []);
    var t := if spn != [] then [AvPair(AV_TARGET_NAME, spn)] else [];
    assert ExtraPairs(spn) == [f] + ([b] + (t + [e]));
    AvListJoin([f], [b] + (t + [e])); AvListJoin([b], t + [e]); AvListJoin(t, [e]);
    AvListOne(f); AvListOne(b); AvListOne(e);
    if spn != [] { AvListOne(t[0]); }
  }

  /** Eight bytes of time: the server's, cut or zero-filled, or the client's own. */
  function TimeStamp(pairs: map<nat, Bytes>, now: Bytes): (r: Bytes)
    requires |now| == 8
    ensures |r| == 8
  {
    if AV_TIMESTAMP in pairs then (pairs[AV_TIMESTAMP] + Zeros(8))[..8] else now
  }

  // ------------------------------------------------------------------- messages

  /** The header fields of an authenticate message, and the empty integrity code. */
  datatype Slots = Slots(lm: Bytes, nt: Bytes, domain: Bytes, user: Bytes, workstation: Bytes, key: Bytes,
    flags: Bytes, version: Bytes)
  {
    predicate Sized() {
      && |lm| == |nt| == |domain| == |user| == |workstation| == |key| == |version| == 8 && |flags| == 4
    }
  }

  function Head1(s: Slots): (r: Bytes)
    requires s.Sized()
    ensures |r| == 28
  {
    SIGNATURE + LE(4, 3) + s.lm + s.nt
  }

  function Head2(s: Slots): (r: Bytes)
    requires s.Sized()
    ensures |r| == 24
  {
    s.domain + s.user + s.workstation
  }

  function Head3(s: Slots): (r: Bytes)
    requires s.Sized()
    ensures |r| == 20
  {
    s.key + s.flags + s.version
  }

  function Head(s: Slots): (r: Bytes)
    requires s.Sized()
    ensures |r| == 88
  {
    Head1(s) + Head2(s) + Head3(s) + Zeros(16)
  }

  function DescOf(b: Bytes, off: nat): (r: Bytes)
    ensures |r| == 8
  {
    if b == [] then Zeros(8) else Desc(|b|, off)
  }

  /** The names are written even without credentials. */
  function NameSlots(domain: Bytes, user: Bytes, workstation: Bytes): (s: Slots)
    ensures s.Sized()
  {
    Slots(Zeros(8), Zeros(8), Desc(|domain|, 88), DescOf(user, 88 + |domain|),
      DescOf(workstation, 88 + |domain| + |user|), Zeros(8), Zeros(4), Zeros(8))
  }

  function FullSlots(domain: Bytes, user: Bytes, workstation: Bytes, ntSize: nat, exchange: bool, flags: nat): (s: Slots)
    ensures s.Sized()
  {
    var lm := 88 + |domain| + |user| + |workstation|;
    NameSlots(domain, user, workstation).(lm := Desc(24, lm), nt := Desc(ntSize, lm + 24),
      key := if exchange then Desc(16, lm + 24 + ntSize) else Zeros(8), flags := LE(4, flags), version := VERSION)
  }

  /** The message before its integrity code is filled in. */
  function Unsealed(domain: Bytes, user: Bytes, workstation: Bytes, nt: Bytes, key: Option<Bytes>, flags: nat): Bytes {
    Head(FullSlots(domain, user, workstation, |nt|, key.Some?, flags))
    + (domain + user + workstation + Zeros(24)) + nt + (if key.Some? then key.value else Zeros(16))
  }

  function Anonymous(domain: Bytes, user: Bytes, workstation: Bytes, infoSize: nat): Bytes {
    Head(NameSlots(domain, user, workstation)) + (domain + user + workstation + Zeros(24)) + Zeros(64 + infoSize)
  }

  // ------------------------------------------------------------ the client's answer

  datatype Problem = TooShort | BadSignature | BadType | BadFlags | BadTargetName | BadTargetInfo | CarriesFlags

  /** What the client takes from a challenge. */
  datatype Challenge = Challenge(flags: nat, targetName: Bytes, info: Bytes, pairs: map<nat, Bytes>, nonce: Bytes)

  datatype Parsed = Good(ch: Challenge) | Bad(why: Problem)

  function ParseChallenge(asked: nat, m: Bytes): Parsed {
    if |m| < 48 then Bad(TooShort)
    else if m[..8] != SIGNATURE then Bad(BadSignature)
    else if U32(m, 8) != 2 then Bad(BadType)
    else
      var flags := And(asked, U32(m, 20));
      if !HasBit(flags, REQUEST_TARGET) then Bad(BadFlags)
      else if ReadField(m, 12).None? then Bad(BadTargetName)
      else if !HasBit(flags, TARGET_INFO) then Bad(BadFlags)
      else if ReadField(m, 40).None? || ParseAvPairs(ReadField(m, 40).value).None? then Bad(BadTargetInfo)
      else
        var info := ReadField(m, 40).value;
        Good(Challenge(flags, ReadField(m, 12).value, info, AvMap(ParseAvPairs(info).value), m[24..32]))
  }

  /** The random values one answer draws, and the client's clock. */
  datatype Draws = Draws(clientChallenge: Bytes, sessionKey: Bytes, now: Bytes) {
    predicate Sized() {
      |clientChallenge| == 8 && |sessionKey| == 16 && |now| == 8
    }
  }

  function DomainBytes(cfg: Config, ch: Challenge): Bytes {
    if cfg.domain == [] then ch.targetName else Encoded(cfg.domain)
  }

  function ClientKey(c: Crypto, cfg: Config, domain: Bytes): Digest {
    if cfg.hash.Some? then Ntowfv2Hash(c, Encoded(c.upper(cfg.user)), cfg.hash.value, domain)
    else Ntowfv2(c, Encoded(c.upper(cfg.user)), Encoded(cfg.password), domain)
  }

  function ClientResponse(c: Crypto, cfg: Config, ch: Challenge, d: Draws): (r: Bytes)
    requires d.Sized() && |ch.info| >= 4
    ensures |r| == 48 + |ClientInfo(ch.info, Encoded(cfg.spn))|
  {
    NtResponse(c, ClientKey(c, cfg, DomainBytes(cfg, ch)), ch.nonce, d.clientChallenge, TimeStamp(ch.pairs, d.now),
      ClientInfo(ch.info, Encoded(cfg.spn)) + Zeros(4))
  }

  function BaseKey(c: Crypto, cfg: Config, ch: Challenge, nt: Bytes): Digest
    requires |nt| >= 16
  {
    c.hmac(ClientKey(c, cfg, DomainBytes(cfg, ch)), nt[..16])
  }

  function ClientExported(c: Crypto, cfg: Config, ch: Challenge, d: Draws): (r: Bytes)
    requires d.Sized() && |ch.info| >= 4
    ensures |r| == 16
  {
    if HasBit(ch.flags, KEY_EXCH) then d.sessionKey else BaseKey(c, cfg, ch, ClientResponse(c, cfg, ch, d))
  }

  function KeyField(c: Crypto, cfg: Config, ch: Challenge, d: Draws): (r: Option<Bytes>)
    requires d.Sized() && |ch.info| >= 4
    ensures r.Some? ==> |r.value| == 16
  {
    if HasBit(ch.flags, KEY_EXCH) then Some(Rc4(c, BaseKey(c, cfg, ch, ClientResponse(c, cfg, ch, d)), d.sessionKey)) else None
  }

  function UnsealedAnswer(c: Crypto, cfg: Config, ch: Challenge, d: Draws): Bytes
    requires d.Sized() && |ch.info| >= 4
  {
    Unsealed(DomainBytes(cfg, ch), Encoded(cfg.user), Encoded(cfg.workstation), ClientResponse(c, cfg, ch, d),
      KeyField(c, cfg, ch, d), ch.flags)
  }

  /** The message with the integrity code over all three messages in place. */
  function Sealed(c: Crypto, key: Bytes, nmsg: Bytes, cmsg: Bytes, m: Bytes): Bytes
    requires |m| >= 88
  {
    Splice(m, 72, c.hmac(key, nmsg + cmsg + m))
  }

  datatype Answer = Sent(amsg: Bytes, session: Option<Session>) | Failed(why: Problem)

  function Answered(c: Crypto, cfg: Config, nmsg: Bytes, cmsg: Bytes, d: Draws): Answer
    requires d.Sized() && |nmsg| >= 16
  {
    match ParseChallenge(U32(nmsg, 12), cmsg)
    case Bad(why) => Failed(why)
    case Good(ch) =>
      if !cfg.HasCredentials() then
        Sent(Anonymous(DomainBytes(cfg, ch), Encoded(cfg.user), Encoded(cfg.workstation),
          |ClientInfo(ch.info, Encoded(cfg.spn))|), None)
      else if AV_FLAGS in ch.pairs then Failed(CarriesFlags)
      else
        var key := ClientExported(c, cfg, ch, d);
        Sent(Sealed(c, key, nmsg, cmsg, UnsealedAnswer(c, cfg, ch, d)), Some(NewSession(c, cfg.user, ch.flags, key)))
  }

  // ------------------------------------------------------------------ the client

  method PutHead1(a: array<byte>, s: Slots)
    requires a.Length >= 28 && s.Sized()
    modifies a
    ensures a[..] == Head1(s) + old(a[28..])
  {
    hide LE, Splice;
    ghost var was := a[..];
    Put(a, 0, SIGNATURE, [], was);
    Put(a, 8, LE(4, 3), SIGNATURE, was);
    Put(a, 12, s.lm, SIGNATURE + LE(4, 3), was);
    Put(a, 20, s.nt, SIGNATURE + LE(4, 3) + s.lm, was);
  }

  method PutHead2(a: array<byte>, s: Slots, ghost done: Bytes)
    requires a.Length >= 52 && s.Sized() && |done| == 28 && a[..28] == done
    modifies a
    ensures a[..] == done + Head2(s) + old(a[52..])
  {
    hide LE, Splice;
    ghost var was := a[..];
    assert a[..] == done + was[28..];
    Put(a, 28, s.domain, done, was);
    Put(a, 36, s.user, done + s.domain, was);
    Put(a, 44, s.workstation, done + s.domain + s.user, was);
    Regroup(done, s.domain, s.user, s.workstation);
  }

  method PutHead3(a: array<byte>, s: Slots, ghost done: Bytes)
    requires a.Length >= 72 && s.Sized() && |done| == 52 && a[..52] == done
    modifies a
    ensures a[..] == done + Head3(s) + old(a[72..])
  {
    hide LE, Splice;
    ghost var was := a[..];
    assert a[..] == done + was[52..];
    Put(a, 52, s.key, done, was);
    Put(a, 60, s.flags, done + s.key, was);
    Put(a, 64, s.version, done + s.key + s.flags, was);
    Regroup(done, s.key, s.flags, s.version);
  }

  lemma {:induction false} Regroup(a: Bytes, b: Bytes, c: Bytes, d: Bytes)
    ensures a + b + c + d == a + (b + c + d)
  {
  }

  /** Writes the header of a message whose integrity code is still zero. */
  method PutHead(a: array<byte>, s: Slots)
    requires a.Length >= 88 && s.Sized() && a[72..88] == Zeros(16)
    modifies a
    ensures a[..] == Head(s) + old(a[88..])
  {
    hide Head1, Head2, Head3, Zeros;
    ghost var was := a[..];
    PutHead1(a, s);
    PutHead2(a, s, Head1(s));
    PutHead3(a, s, Head1(s) + Head2(s));
    Skip(Head1(s) + Head2(s) + Head3(s), was, 16);
  }

  class Client {
    const c: Crypto
    const cfg: Config
    var nmsg: Bytes
    var session: Option<Session>

    constructor (c: Crypto, cfg: Config)
      ensures this.c == c && this.cfg == cfg && nmsg == [] && session == None
    {
      this.c, this.cfg, nmsg, session := c, cfg, [], None;
    }

    method Negotiate() returns (m: Bytes)
      modifies this`nmsg
      ensures m == nmsg == NegotiateMessage
    {
      hide LE, Splice;
      var a := new byte[40](_ => 0);
      ghost var was := a[..];
      assert was[16..32] == Zeros(16);
      Put(a, 0, SIGNATURE, [], was);
      Put(a, 8, LE(4, 1), SIGNATURE, was);
      Put(a, 12, LE(4, DEFAULT_FLAGS), SIGNATURE + LE(4, 1), was);
      Skip(SIGNATURE + LE(4, 1) + LE(4, DEFAULT_FLAGS), was, 16);
      Put(a, 32, VERSION, SIGNATURE + LE(4, 1) + LE(4, DEFAULT_FLAGS) + Zeros(16), was);
      nmsg := a[..];
      m := nmsg;
    }

    /** Copies the three names, one behind the other. */
    method PutNames(a: array<byte>, domain: Bytes, user: Bytes, workstation: Bytes) returns (off: nat)
      requires a.Length >= 112 + |domain| + |user| + |workstation| && a[..] == Zeros(a.Length)
      modifies a
      ensures off == 88 + |domain| + |user| + |workstation|
      ensures a[..] == Zeros(88) + (domain + user + workstation + Zeros(24)) + Zeros(a.Length - off - 24)
    {
      ghost var was := a[..];
      off := 88;
      CopyInto(a, off, domain);
      off := off + |domain|;
      CopyInto(a, off, user);
      off := off + |user|;
      CopyInto(a, off, workstation);
      off := off + |workstation|;
      NamesWritten(was, domain, user, workstation);
    }

    /** The challenge is answered with a response and keys, or by name only. */
    method Authenticate(cmsg: Bytes, d: Draws) returns (r: Answer)
      requires d.Sized() && |nmsg| >= 16
      modifies this`session
      ensures r == Answered(c, cfg, nmsg, cmsg, d)
      ensures session == if r.Sent? && r.session.Some? then r.session else old(session)
    {
      hide Encoded, ClientInfo, ClientResponse, KeyField, Unsealed, NewSession, ParseAvPairs, AvMap, And, HasBit,
        FullSlots, NameSlots, Anonymous, Head, ReadField, Splice, U32;
      var p := ParseChallenge(U32(nmsg, 12), cmsg);
      if p.Bad? {
        return Failed(p.why);
      }
      var ch := p.ch;
      InfoIsLong(U32(nmsg, 12), cmsg);
      var spn, domain := Encoded(cfg.spn), DomainBytes(cfg, ch);
      var user, workstation := Encoded(cfg.user), Encoded(cfg.workstation);
      var info := ClientInfo(ch.info, spn);
      var a := new byte[88 + |domain| + |user| + |workstation| + 24 + (16 + (28 + |info| + 4)) + 16](_ => 0);
      assert a[..] == Zeros(a.Length);
      var off := PutNames(a, domain, user, workstation);
      if !cfg.HasCredentials() {
        PutNoCredentials(a, domain, user, workstation, |info|);
        return Sent(a[..], None);
      }
      if AV_FLAGS in ch.pairs {
        return Failed(CarriesFlags);
      }
      var exported := PutCredentials(a, off, ch, d, domain, user, workstation, info);
      assert a[..] == UnsealedAnswer(c, cfg, ch, d);
      CopyInto(a, 72, c.hmac(exported, nmsg + cmsg + a[..]));
      session := Some(NewSession(c, cfg.user, ch.flags, exported));
      r := Sent(a[..], session);
    }

    method PutNoCredentials(a: array<byte>, domain: Bytes, user: Bytes, workstation: Bytes, infoSize: nat)
      requires a[..] == Zeros(88) + (domain + user + workstation + Zeros(24)) + Zeros(64 + infoSize)
      modifies a
      ensures a[..] == Anonymous(domain, user, workstation, infoSize)
    {
      hide Head, NameSlots, Zeros;
      ghost var names, z := domain + user + workstation + Zeros(24), Zeros(64 + infoSize);
      BehindHead(a[..], names, z);
      PutHead(a, NameSlots(domain, user, workstation));
      assert a[..] == Head(NameSlots(domain, user, workstation)) + names + z;
    }

    /** Writes the response behind the names. */
    method PutResponse(a: array<byte>, off: nat, ch: Challenge, d: Draws, info: Bytes, ghost pre: Bytes)
      requires d.Sized() && |ch.info| >= 4 && info == ClientInfo(ch.info, Encoded(cfg.spn))
      requires off == |pre| && a[..] == pre + Zeros(64 + |info|)
      modifies a
      ensures a[..] == pre + ClientResponse(c, cfg, ch, d) + Zeros(16)
    {
      hide Encoded, ClientInfo, NtResponse, TimeStamp, Zeros, Splice, Ntowfv2, Ntowfv2Hash;
      var key := ClientKey(c, cfg, DomainBytes(cfg, ch));
      RoomForResponse(a[..], pre, 48 + |info|);
      EncodeResponse(c, a, off, key, ch.nonce, d.clientChallenge, TimeStamp(ch.pairs, d.now), info + Zeros(4));
      SpliceMiddle(pre, Zeros(48 + |info|), ClientResponse(c, cfg, ch, d), Zeros(16));
    }

    /** Settles the exported key and writes its encryption when it is exchanged. */
    method PutKey(a: array<byte>, off: nat, ch: Challenge, d: Draws, ghost pre: Bytes) returns (exported: Bytes)
      requires d.Sized() && |ch.info| >= 4 && 48 <= |ClientResponse(c, cfg, ch, d)|
      requires off == |pre| && a[..] == pre + ClientResponse(c, cfg, ch, d) + Zeros(16)
      modifies a
      ensures exported == ClientExported(c, cfg, ch, d)
      ensures var k := KeyField(c, cfg, ch, d);
        a[..] == pre + ClientResponse(c, cfg, ch, d) + (if k.Some? then k.value else Zeros(16))
    {
      hide ClientResponse, HasBit, Rc4, Zeros, Splice, ClientKey;
      ghost var nt := ClientResponse(c, cfg, ch, d);
      assert a[off..off + 16] == nt[..16];
      var base := c.hmac(ClientKey(c, cfg, DomainBytes(cfg, ch)), a[off..off + 16]);
      exported := base;
      if HasBit(ch.flags, KEY_EXCH) {
        exported := d.sessionKey;
        SpliceMiddle(pre + nt, Zeros(16), Rc4(c, base, exported), []);
        assert a[..] == pre + nt + Zeros(16) + [];
        CopyInto(a, a.Length - 16, Rc4(c, base, exported));
        assert a[..] == pre + nt + Rc4(c, base, exported);
      }
    }

    /** Writes the response, the encrypted key and the header; the code is still zero. */
    method PutCredentials(a: array<byte>, lm: nat, ch: Challenge, d: Draws, domain: Bytes, user: Bytes, workstation: Bytes,
                          info: Bytes) returns (exported: Bytes)
      requires d.Sized() && |ch.info| >= 4 && info == ClientInfo(ch.info, Encoded(cfg.spn))
      requires domain == DomainBytes(cfg, ch) && user == Encoded(cfg.user) && workstation == Encoded(cfg.workstation)
      requires lm == 88 + |domain| + |user| + |workstation|
      requires a[..] == Zeros(88) + (domain + user + workstation + Zeros(24)) + Zeros(64 + |info|)
      modifies a
      ensures exported == ClientExported(c, cfg, ch, d)
      ensures a[..] == UnsealedAnswer(c, cfg, ch, d)
    {
      hide Encoded, ClientInfo, ClientResponse, ClientExported, Head, FullSlots, HasBit, Rc4, Zeros, DomainBytes;
      ghost var names := domain + user + workstation + Zeros(24);
      ghost var nt, k := ClientResponse(c, cfg, ch, d), KeyField(c, cfg, ch, d);
      PutResponse(a, lm + 24, ch, d, info, Zeros(88) + names);
      exported := PutKey(a, lm + 24, ch, d, Zeros(88) + names);
      ghost var field := if k.Some? then k.value else Zeros(16);
      assert Zeros(88) + names + nt + field == Zeros(88) + (names + nt) + field;
      BehindHead(a[..], names + nt, field);
      var slots := FullSlots(domain, user, workstation, 48 + |info|, HasBit(ch.flags, KEY_EXCH), ch.flags);
      PutHead(a, slots);
      assert a[..] == Head(slots) + names + nt + field;
    }
  }

  lemma {:induction false} BehindHead(s: Bytes, x: Bytes, y: Bytes)
    requires s == Zeros(88) + x + y
    ensures s[88..] == x + y && s[72..88] == Zeros(16)
  {
  }

  lemma {:induction false} RoomForResponse(s: Bytes, pre: Bytes, n: nat)
    requires s == pre + Zeros(n + 16)
    ensures s[|pre|..|pre| + n] == Zeros(n) && s == pre + Zeros(n) + Zeros(16)
  {
  }

  lemma {:induction false} SpliceMiddle(pre: Bytes, gap: Bytes, b: Bytes, post: Bytes)
    requires |b| == |gap|
    ensures Splice(pre + gap + post, |pre|, b) == pre + b + post
  {
  }

  lemma {:induction false} InfoIsLong(asked: nat, m: Bytes)
    requires ParseChallenge(asked, m).Good?
    ensures |ParseChallenge(asked, m).ch.info| >= 4
  {
  }

  lemma {:induction false} NamesWritten(was: Bytes, domain: Bytes, user: Bytes, workstation: Bytes)
    requires |was| >= 112 + |domain| + |user| + |workstation| && was == Zeros(|was|)
    ensures var off := 88 + |domain| + |user| + |workstation|;
      Splice(Splice(Splice(was, 88, domain), 88 + |domain|, user), 88 + |domain| + |user|, workstation)
      == Zeros(88) + (domain + user + workstation + Zeros(24)) + Zeros(|was| - off - 24)
  {
  }
}
