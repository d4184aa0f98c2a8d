/** The server side of the NTLM version 2 handshake. */
module NtlmServer {
  import opened Bytes
  import opened Ntlm
  import opened Slices
  import opened Utf16
  import opened Wrappers

  datatype Names = Names(target: Str, nbName: Str, nbDomain: Str, dnsName: Str, dnsDomain: Str)

  // ------------------------------------------------------------- the challenge

  function Named(id: nat, s: Str): seq<AvPair> {
    if s == [] then [] else [AvPair(id, Encoded(s))]
  }

  function TargetInfo(n: Names, timeStamp: Bytes): seq<AvPair> {
    [AvPair(AV_TIMESTAMP, timeStamp)] + (Named(AV_DNS_COMPUTER, n.dnsName) + (Named(AV_DNS_DOMAIN, n.dnsDomain)
    + (Named(AV_NB_COMPUTER, n.nbName) + (Named(AV_NB_DOMAIN, n.nbDomain) + [AvPair(AV_EOL, [])]))))
  }

  function ChallengeFlags(asked: nat): nat {
    SetBit(And(asked, DEFAULT_FLAGS), TARGET_INFO)
  }

  function HeadSize(flags: nat): nat {
    if HasBit(flags, NEGOTIATE_VERSION) then 56 else 48
  }

  /** How far the target information is moved back by the target name. */
  function Gap(n: Names, flags: nat): nat {
    if HasBit(flags, REQUEST_TARGET) then |Encoded(n.target)| else 0
  }

  /** The payload as written: the target name goes behind the room for the target
      information, which is then written so that both end at the same byte. */
  function ChallengePayload(n: Names, flags: nat, ti: Bytes): (r: Bytes)
    ensures |r| == |ti| + |Encoded(n.target)| + 4
  {
    var tn := Encoded(n.target);
    var room := Zeros(|ti| + |tn| + 4);
    var named := if HasBit(flags, REQUEST_TARGET) then Splice(room, |ti|, tn) else room;
    Splice(named, Gap(n, flags), ti)
  }

  function HeadBytes(flags: nat, tiSize: nat, gap: nat, serverChallenge: Bytes): Bytes {
    var hs := HeadSize(flags);
    HeadStart(flags, gap, hs + tiSize, serverChallenge) + Desc(tiSize, hs + gap)
    + (if HasBit(flags, NEGOTIATE_VERSION) then VERSION else [])
  }

  function HeadStart(flags: nat, gap: nat, nameOff: nat, serverChallenge: Bytes): (r: Bytes)
    ensures |r| == 32 + |serverChallenge|
  {
    NameField(gap, nameOff) + LE(4, flags) + serverChallenge + Zeros(8)
  }

  function NameField(gap: nat, nameOff: nat): (r: Bytes)
    ensures |r| == 20
  {
    SIGNATURE + LE(4, 2) + (if gap > 0 then Desc(gap, nameOff) else Zeros(8))
  }

  function ChallengeMessage(n: Names, asked: nat, timeStamp: Bytes, serverChallenge: Bytes): Bytes {
    var flags, ti := ChallengeFlags(asked), AvListBytes(TargetInfo(n, timeStamp));
    HeadBytes(flags, |ti|, Gap(n, flags), serverChallenge) + ChallengePayload(n, flags, ti)
  }

  // -------------------------------------------------------- the authentication

  datatype Refusal = TooShort | BadSignature | BadType | BadResponse | BadDomain | BadUser | BadKey
                   | Empty | NoSuchUser | ShortResponse | LoginFailure | OutOfRange

  datatype Outcome = Accepted(session: Session) | Guest(session: Session) | Refused(why: Refusal)

  function GuestSession(flags: nat): Session {
    Session([0x67, 0x75, 0x65, 0x73, 0x74], flags, Zeros(16), [], [], [], [])
  }

  function OrGuest(allowGuest: bool, flags: nat, why: Refusal): Outcome {
    if allowGuest then Guest(GuestSession(flags)) else Refused(why)
  }

  /** The fields of an authenticate message that the server reads. */
  datatype Fields = Fields(nt: Bytes, domain: Bytes, user: Bytes, key: Bytes, flags: nat)

  datatype Parsed = Good(f: Fields) | Bad(why: Refusal)

  function ParseFields(m: Bytes): Parsed {
    if |m| < 64 then Bad(TooShort)
    else if m[..8] != SIGNATURE then Bad(BadSignature)
    else if U32(m, 8) != 3 then Bad(BadType)
    else if ReadField(m, 20).None? then Bad(BadResponse)
    else if ReadField(m, 28).None? then Bad(BadDomain)
    else if ReadField(m, 36).None? then Bad(BadUser)
    else if ReadField(m, 52).None? then Bad(BadKey)
    else Good(Fields(ReadField(m, 20).value, ReadField(m, 28).value, ReadField(m, 36).value, ReadField(m, 52).value, U32(m, 60)))
  }

  /** The key of the response for a known user. */
  function ResponseKey(c: Crypto, user: Str, password: Str, domain: Bytes): Digest {
    Ntowfv2(c, Encoded(c.upper(user)), Encoded(password), domain)
  }

  /** The response the server computes from the parts of the one it was sent. */
  function ExpectedResponse(c: Crypto, key: Bytes, serverChallenge: Bytes, nt: Bytes): Bytes
    requires |nt| >= 44
  {
    var blob := nt[16..];
    NtResponse(c, key, serverChallenge, blob[16..24], blob[8..16], blob[28..])
  }

  /** The encrypted key does not fit the buffer it is decrypted into. */
  predicate KeyTooLong(f: Fields) {
    HasBit(f.flags, KEY_EXCH) && |f.key| > 16
  }

  function ExportedKey(c: Crypto, key: Bytes, f: Fields): (r: Bytes)
    requires |f.nt| >= 16 && !KeyTooLong(f)
    ensures |r| == 16
  {
    var base := c.hmac(key, f.nt[..16]);
    if HasBit(f.flags, KEY_EXCH) then Rc4(c, base, f.key) + Zeros(16 - |f.key|) else base
  }

  /** Whether the client announced a message integrity code. */
  function MicAnnounced(nt: Bytes): Option<bool>
    requires |nt| >= 44
  {
    var ps := ParseAvPairs(nt[44..]);
    if ps.None? || AV_FLAGS !in AvMap(ps.value) then Some(false)
    else
      var v := AvMap(ps.value)[AV_FLAGS];
      if |v| < 4 then None else Some(HasBit(U32(v, 0), 2))
  }

  function MicAt(flags: nat): nat {
    if HasBit(flags, NEGOTIATE_VERSION) then 72 else 64
  }

  /** Whether a message carries its own integrity code under a key. */
  predicate MicHolds(c: Crypto, key: Bytes, nmsg: Bytes, cmsg: Bytes, m: Bytes, at: nat)
    requires at + 16 <= |m|
  {
    m[at..at + 16] == c.hmac(key, nmsg + cmsg + Splice(m, at, Zeros(16)))
  }

  /** Whether the response is the one the server computes. */
  predicate ResponseHolds(c: Crypto, key: Bytes, cmsg: Bytes, nt: Bytes)
    requires |cmsg| >= 32 && |nt| >= 44
  {
    nt == ExpectedResponse(c, key, cmsg[24..32], nt)
  }

  /** Whether the check of a response gets as far as an integrity code, which is
      then zeroed in the message. */
  predicate MicExamined(c: Crypto, key: Bytes, cmsg: Bytes, m: Bytes, f: Fields)
    requires |cmsg| >= 32
  {
    && |f.nt| >= 44 && ResponseHolds(c, key, cmsg, f.nt) && !KeyTooLong(f)
    && MicAnnounced(f.nt) == Some(true) && MicAt(f.flags) + 16 <= |m|
  }

  /** The outcome for a user with an account, whose response key is given. */
  function Check(c: Crypto, key: Bytes, name: Str, allowGuest: bool, nmsg: Bytes, cmsg: Bytes, m: Bytes, f: Fields): Outcome
    requires |cmsg| >= 32
  {
    if |f.nt| < 44 then Refused(ShortResponse)
    else if !ResponseHolds(c, key, cmsg, f.nt) then OrGuest(allowGuest, f.flags, LoginFailure)
    else if KeyTooLong(f) || MicAnnounced(f.nt).None? then Refused(OutOfRange)
    else if MicAnnounced(f.nt).value && |m| < MicAt(f.flags) + 16 then Refused(OutOfRange)
    else
      var exported := ExportedKey(c, key, f);
      if MicExamined(c, key, cmsg, m, f) && !MicHolds(c, exported, nmsg, cmsg, m, MicAt(f.flags))
      then OrGuest(allowGuest, f.flags, LoginFailure)
      else Accepted(NewSession(c, name, f.flags, exported))
  }

  function Authenticated(c: Crypto, accounts: map<Str, Str>, allowGuest: bool, nmsg: Bytes, cmsg: Bytes, m: Bytes): Outcome
    requires |cmsg| >= 32
  {
    match ParseFields(m)
    case Bad(why) => Refused(why)
    case Good(f) =>
      var name := Decoded(f.user);
      if f.user == [] && f.nt == [] then OrGuest(allowGuest, f.flags, Empty)
      else if name !in accounts then OrGuest(allowGuest, f.flags, NoSuchUser)
      else Check(c, ResponseKey(c, name, accounts[name], f.domain), name, allowGuest, nmsg, cmsg, m, f)
  }

  /** What authentication leaves in the message. */
  function LeftBehind(c: Crypto, accounts: map<Str, Str>, cmsg: Bytes, m: Bytes): Bytes
    requires |cmsg| >= 32
  {
    match ParseFields(m)
    case Bad(_) => m
    case Good(f) =>
      var name := Decoded(f.user);
      if name in accounts && !(f.user == [] && f.nt == [])
         && MicExamined(c, ResponseKey(c, name, accounts[name], f.domain), cmsg, m, f)
      then Splice(m, MicAt(f.flags), Zeros(16)) else m
  }

  // ----------------------------------------------------------------- the server

  datatype Problem = MessageTooShort | WrongSignature | WrongType

  function ChallengeProblem(nmsg: Bytes): Option<Problem> {
    if |nmsg| < 32 then Some(MessageTooShort)
    else if nmsg[..8] != SIGNATURE then Some(WrongSignature)
    else if U32(nmsg, 8) != 1 then Some(WrongType)
    else None
  }

  /** Writes the fields in front of the flags. */
  method PutNameField(a: array<byte>, gap: nat, nameOff: nat)
    requires a.Length >= 20
    modifies a
    ensures a[..] == NameField(gap, nameOff) + old(a[20..])
  {
    hide LE, Desc, Zeros, Splice;
    ghost var was := a[..];
    Put(a, 0, SIGNATURE, [], was);
    Put(a, 8, LE(4, 2), SIGNATURE, was);
    Put(a, 12, if gap > 0 then Desc(gap, nameOff) else Zeros(8), SIGNATURE + LE(4, 2), was);
  }

  /** Writes the fields in front of the target information descriptor. */
  method PutHeadStart(a: array<byte>, flags: nat, gap: nat, nameOff: nat, serverChallenge: Bytes)
    requires a.Length >= 40 && |serverChallenge| == 8 && a[32..40] == Zeros(8)
    modifies a
    ensures a[..] == HeadStart(flags, gap, nameOff, serverChallenge) + old(a[40..])
  {
    hide LE, NameField, Zeros, Splice;
    ghost var was, done := a[..], NameField(gap, nameOff);
    PutNameField(a, gap, nameOff);
    Put(a, 20, LE(4, flags), done, was);
    Put(a, 24, serverChallenge, done + LE(4, flags), was);
    Skip(done + LE(4, flags) + serverChallenge, was, 8);
  }

  /** Writes the header fields in front of the payload. */
  method PutHead(a: array<byte>, flags: nat, tiSize: nat, gap: nat, tiOff: nat, serverChallenge: Bytes)
    requires a.Length >= HeadSize(flags) && |serverChallenge| == 8 && tiOff == HeadSize(flags) + gap
    requires a[..HeadSize(flags)] == Zeros(HeadSize(flags))
    modifies a
    ensures a[..] == HeadBytes(flags, tiSize, gap, serverChallenge) + old(a[HeadSize(flags)..])
  {
    hide LE, Desc, HeadStart, HasBit;
    var hs := HeadSize(flags);
    ghost var was := a[..];
    assert a[32..40] == a[..hs][32..40] == Zeros(8);
    PutHeadStart(a, flags, gap, hs + tiSize, serverChallenge);
    ghost var start := HeadStart(flags, gap, hs + tiSize, serverChallenge);
    assert a[..] == start + was[40..];
    Put(a, 40, Desc(tiSize, tiOff), start, was);
    if hs == 56 {
      Put(a, 48, VERSION, start + Desc(tiSize, tiOff), was);
    } else {
      assert start + Desc(tiSize, tiOff) + [] == start + Desc(tiSize, tiOff);
    }
  }

  lemma {:induction false} PayloadWritten(was: Bytes, hs: nat, n: nat, tn: Bytes, gap: nat, ti: Bytes, named: bool)
    requires was == Zeros(hs + n + |tn| + 4) && |ti| == n && gap == if named then |tn| else 0
    ensures var room := Zeros(n + |tn| + 4);
      Splice(if named then Splice(was, hs + n, tn) else was, hs + gap, ti)
      == Zeros(hs) + Splice(if named then Splice(room, n, tn) else room, gap, ti)
  {
  }

  class Server {
    const c: Crypto
    const names: Names
    var accounts: map<Str, Str>
    var allowGuest: bool
    var nmsg: Bytes
    var cmsg: Bytes
    var session: Option<Session>

    constructor (c: Crypto, names: Names)
      ensures this.c == c && this.names == names && accounts == map[] && !allowGuest && cmsg == [] && session == None
    {
      this.c, this.names := c, names;
      accounts, allowGuest, nmsg, cmsg, session := map[], false, [], [], None;
    }

    method AddAccount(user: Str, password: Str)
      modifies this`accounts
      ensures accounts == old(accounts)[user := password]
    {
      accounts := accounts[user := password];
    }

    method BuildTargetInfo(timeStamp: Bytes) returns (ti: seq<AvPair>)
      ensures ti == TargetInfo(names, timeStamp)
    {
      hide Encoded;
      ti := [AvPair(AV_EOL, [])];
      if |names.nbDomain| > 0 {
        ti := [AvPair(AV_NB_DOMAIN, Encoded(names.nbDomain))] + ti;
      }
      if |names.nbName| > 0 {
        ti := [AvPair(AV_NB_COMPUTER, Encoded(names.nbName))] + ti;
      }
      if |names.dnsDomain| > 0 {
        ti := [AvPair(AV_DNS_DOMAIN, Encoded(names.dnsDomain))] + ti;
      }
      if |names.dnsName| > 0 {
        ti := [AvPair(AV_DNS_COMPUTER, Encoded(names.dnsName))] + ti;
      }
      ti := [AvPair(AV_TIMESTAMP, timeStamp)] + ti;
    }

    /** Writes the name behind the target information, then the target information. */
    method PutPayload(a: array<byte>, hs: nat, flags: nat, ti: seq<AvPair>, tn: Bytes) returns (tiOff: nat)
      requires tn == Encoded(names.target)
      requires a.Length == hs + |AvListBytes(ti)| + |tn| + 4 && a[..] == Zeros(a.Length)
      modifies a
      ensures a[..] == Zeros(hs) + ChallengePayload(names, flags, AvListBytes(ti))
      ensures tiOff == hs + Gap(names, flags)
    {
      hide Encoded, AvListBytes, Splice, HasBit;
      ghost var was, bs := a[..], AvListBytes(ti);
      var off := hs + |AvListBytes(ti)|;
      if HasBit(flags, REQUEST_TARGET) {
        CopyInto(a, off, tn);
        off := off + |tn|;
      }
      tiOff := off - |AvListBytes(ti)|;
      EncodePairs(a, tiOff, ti);
      PayloadWritten(was, hs, |bs|, tn, Gap(names, flags), bs, HasBit(flags, REQUEST_TARGET));
    }

    /** Answers a negotiate message. */
    method Challenge(msg: Bytes, timeStamp: Bytes, serverChallenge: Bytes) returns (r: Option<Bytes>)
      requires |timeStamp| == 8 && |serverChallenge| == 8
      modifies this`nmsg, this`cmsg
      ensures nmsg == msg
      ensures r.None? <==> ChallengeProblem(msg).Some?
      ensures r.None? ==> cmsg == old(cmsg)
      ensures r.Some? ==> cmsg == r.value == ChallengeMessage(names, U32(msg, 12), timeStamp, serverChallenge)
    {
      hide LE, Encoded, AvListBytes, And, U32, ChallengePayload, Desc;
      nmsg := msg;
      if |msg| < 32 || msg[..8] != SIGNATURE || U32(msg, 8) != 1 {
        return None;
      }
      var flags := ChallengeFlags(U32(msg, 12));
      var ti := BuildTargetInfo(timeStamp);
      var tn := Encoded(names.target);
      var size, hs := |AvListBytes(ti)|, HeadSize(flags);
      var a := new byte[hs + size + |tn| + 4](_ => 0);
      assert a[..] == Zeros(a.Length);
      var tiOff := PutPayload(a, hs, flags, ti, tn);
      PutHead(a, flags, size, Gap(names, flags), tiOff, serverChallenge);
      assert a[..] == ChallengeMessage(names, U32(msg, 12), timeStamp, serverChallenge);
      cmsg := a[..];
      r := Some(cmsg);
    }

    method GuestOr(flags: nat, why: Refusal) returns (o: Outcome)
      modifies this`session
      ensures o == OrGuest(allowGuest, flags, why)
      ensures session == if o.Refused? then old(session) else Some(o.session)
    {
      if allowGuest {
        session := Some(GuestSession(flags));
        return Guest(GuestSession(flags));
      }
      o := Refused(why);
    }

    /** Checks the answer to the challenge sent last. */
    method Authenticate(amsg: array<byte>) returns (o: Outcome)
      requires |cmsg| >= 32
      modifies this`session, amsg
      ensures o == Authenticated(c, accounts, allowGuest, nmsg, cmsg, old(amsg[..]))
      ensures session == if o.Refused? then old(session) else Some(o.session)
      ensures amsg[..] == LeftBehind(c, accounts, cmsg, old(amsg[..]))
    {
      hide Decoded, Check, MicExamined, ReadField, U32;
      var m := amsg[..];
      var p := ParseFields(m);
      if p.Bad? {
        return Refused(p.why);
      }
      var f := p.f;
      if |f.user| == 0 && |f.nt| == 0 {
        o := GuestOr(f.flags, Empty);
        return;
      }
      var name := DecodeToString(f.user);
      if name !in accounts {
        o := GuestOr(f.flags, NoSuchUser);
        return;
      }
      o := CheckUser(name, ResponseKey(c, name, accounts[name], f.domain), amsg, f);
    }

    /** Recomputes the response of a known user, then the integrity code. */
    method CheckUser(name: Str, key: Bytes, amsg: array<byte>, f: Fields) returns (o: Outcome)
      requires |cmsg| >= 32
      modifies this`session, amsg
      ensures o == Check(c, key, name, allowGuest, nmsg, cmsg, old(amsg[..]), f)
      ensures session == if o.Refused? then old(session) else Some(o.session)
      ensures amsg[..] == if MicExamined(c, key, cmsg, old(amsg[..]), f)
                          then Splice(old(amsg[..]), MicAt(f.flags), Zeros(16)) else old(amsg[..])
    {
      hide NewSession, ExportedKey, HasBit, ParseAvPairs, AvMap, Splice, NtResponse, Zeros;
      if |f.nt| < 44 {
        return Refused(ShortResponse);
      }
      var same := CompareResponse(key, f.nt);
      if !same {
        o := GuestOr(f.flags, LoginFailure);
        return;
      }
      if KeyTooLong(f) {
        return Refused(OutOfRange);
      }
      var exported := ExportedKey(c, key, f);
      var announced, known := FindMicFlag(f.nt);
      if !known {
        return Refused(OutOfRange);
      }
      if announced {
        var at := MicAt(f.flags);
        if amsg.Length < at + 16 {
          return Refused(OutOfRange);
        }
        var mic := amsg[..][at..at + 16];
        CopyInto(amsg, at, Zeros(16));
        if mic != c.hmac(exported, nmsg + cmsg + amsg[..]) {
          o := GuestOr(f.flags, LoginFailure);
          return;
        }
      }
      session := Some(NewSession(c, name, f.flags, exported));
      o := Accepted(session.value);
    }

    method FindMicFlag(nt: Bytes) returns (announced: bool, known: bool)
      requires |nt| >= 44
      ensures MicAnnounced(nt) == if known then Some(announced) else None
    {
      hide AvMap, ParseAvPairs;
      var pairs, ok := ParsePairs(nt[44..]);
      if !ok || AV_FLAGS !in pairs {
        return false, true;
      }
      if |pairs[AV_FLAGS]| < 4 {
        return false, false;
      }
      return HasBit(U32(pairs[AV_FLAGS], 0), 2), true;
    }

    method CompareResponse(key: Bytes, nt: Bytes) returns (same: bool)
      requires |nt| >= 44 && |cmsg| >= 32
      ensures same <==> ResponseHolds(c, key, cmsg, nt)
    {
      hide NtResponse;
      var blob := nt[16..];
      var expected := new byte[|nt|](_ => 0);
      assert expected[0..44 + |blob[28..]|] == Zeros(44 + |blob[28..]|);
      EncodeResponse(c, expected, 0, key, cmsg[24..32], blob[16..24], blob[8..16], blob[28..]);
      same := nt == expected[..];
    }
  }
}
