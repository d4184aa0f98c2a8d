/** One SMB connection as a state machine: negotiation, session setup, binding of
    further sessions, the SMB 3.1.1 pre-authentication hashes and the protection of
    responses. Hash, key derivation and ciphers are parameters of the environment. */
module ConnSpec {
  import opened Bytes
  import opened BlockModes
  import opened Packet
  import T = Transform
  import opened Wrappers

  type Hash = h: Bytes | |h| == 64 witness Zeros(64)
  type Nonce = n: Bytes | |n| == 16 witness Zeros(16)

  function ZeroAead(): (a: T.Aead)
    ensures T.TagsWith16(a)
  {
    var a := T.Aead(0, (n: Bytes, x: Bytes, ad: Bytes) => x + Zeros(16), (n: Bytes, c: Bytes, ad: Bytes) => None);
    a
  }

  type Sealer = a: T.Aead | T.TagsWith16(a) ghost witness ZeroAead()

  /** SHA-512, the signing key of a session and its ciphers in the two directions. */
  datatype Env = Env(
    encryption: bool,
    sha512: Bytes -> Hash,
    signer: (nat, Bytes, Hash) -> Bytes -> Signature,
    cipher: (nat, nat, Bytes, Hash, bool) -> Sealer)

  const SMB2_WILDCARD := 0x2FF
  const SMB202 := 0x202
  const SMB210 := 0x210
  const SMB300 := 0x300
  const SMB302 := 0x302
  const SMB311 := 0x311
  const SHA512 := 1
  const CMD_NEGOTIATE := 0
  const CMD_SESSION_SETUP := 1
  const FLAG_RESPONSE := 1

  datatype Session = Session(
    id: nat, guest: bool, encrypt: bool, cipherId: nat, preauth: Hash,
    signer: Option<Bytes -> Signature>, verifier: Option<Bytes -> Signature>,
    encrypter: Option<Sealer>, decrypter: Option<Sealer>)

  /** A second session that is being set up on an active connection. */
  datatype Pending = Pending(id: nat, hash: Hash)

  datatype Phase = Negotiating | Setup | Challenged | Active

  datatype Conn = Conn(
    dead: bool, phase: Phase, useSession: bool, spnego: bool,
    dialect: nat, encryptionCap: bool, cipherId: nat, hashId: nat,
    hash: Hash, negotiateHash: Hash, pending: Option<Pending>,
    active: Option<Session>, sessions: map<nat, Session>, sent: seq<Bytes>)

  const Initial := Conn(false, Negotiating, false, false, 0, false, T.AES128_GCM, 0, Zeros(64), Zeros(64), None, None, map[], [])

  // -------------------------------------------------------------------- requests

  /** The parts of a response that the state machine does not determine. */
  datatype Reply = Reply(hdr: Header, body: Bytes, nonce: Nonce)

  datatype Context = Preauth(algs: seq<nat>) | Ciphers(ids: seq<nat>) | Other | Broken

  datatype Auth = Denied | User(guest: bool, key: Bytes)

  /** What arrives: SMB1 and SMB2 negotiates, session setups (decoded: whether the
      packet is accepted and its body well formed, and what the security layer makes
      of it; drawn is the random id), echoes, and everything else on a session. */
  datatype Request =
    | Smb1Negotiate(reply: Reply)
    | Negotiate(pkt: Bytes, decodes: bool, dialects: seq<nat>, encryptionCap: bool, contexts: seq<Context>, reply: Reply)
    | SessionSetup(pkt: Bytes, sid: nat, accepted: bool, valid: bool, challenged: bool, auth: Auth, drawn: nat, reply: Reply)
    | Echo(reply: Reply)
    | Command(sid: nat, command: nat, reply: Reply)

  // --------------------------------------------------------------------- sending

  /** The response as encoded: without an id of its own it gets the active session's. */
  function Raw(c: Conn, command: nat, sid: nat, r: Reply): (raw: Bytes)
    ensures |raw| >= HEADER_SIZE
  {
    var id := if sid == 0 && c.active.Some? && c.useSession then c.active.value.id else sid;
    HeaderBytes(r.hdr.(command := command, next := 0, sessionId := id), Zeros(HEADER_SIZE)) + r.body
  }

  function Encrypt(s: Session, is311: bool, nonce: Nonce, pkt: Bytes): Bytes
    requires s.encrypter.Some?
  {
    var a: T.Aead := s.encrypter.value;
    T.Encrypted(T.Session(s.id, s.cipherId, a, None), is311, nonce[..a.nonceSize], pkt)
  }

  /** What leaves for an encoded response; nothing when the keys for it are missing. */
  function Protected(s: Option<Session>, is311: bool, nonce: Nonce, raw: Bytes): Option<Bytes>
    requires |raw| >= HEADER_SIZE
  {
    if s.None? then Some(raw)
    else if IsInvalid(raw) then None
    else if Packet.Command(raw) == CMD_SESSION_SETUP then
      (if HasFlag(raw, FLAG_RESPONSE) && !s.value.guest && s.value.signer.Some? then Some(Signed(s.value.signer.value, raw))
       else Some(raw))
    else if s.value.encrypt then
      (if s.value.encrypter.Some? then Some(Encrypt(s.value, is311, nonce, raw)) else None)
    else if !s.value.guest then
      (if s.value.signer.Some? then Some(Signed(s.value.signer.value, raw)) else None)
    else Some(raw)
  }

  function Chain(env: Env, hash: Hash, pkt: Bytes): Hash {
    env.sha512(hash + pkt)
  }

  /** The connection hash, once SMB 3.1.1 with SHA-512 is negotiated. */
  function Hashed(env: Env, c: Conn, pkt: Bytes): Conn {
    if c.dialect == SMB311 && c.hashId == SHA512 then c.(hash := Chain(env, c.hash, pkt)) else c
  }

  predicate IsBindingResponse(id: nat, p: Bytes)
    requires |p| >= HEADER_SIZE
  {
    Packet.Command(p) == CMD_SESSION_SETUP && U64(p, 40) == id
  }

  /** What sending does besides: the hash until the session is active, and the hash
      of a pending session for its own responses. */
  function AfterSend(env: Env, c: Conn, p: Bytes): Conn
    requires |p| >= HEADER_SIZE
  {
    var c1 := if c.phase.Active? then c else Hashed(env, c, p);
    var c2 := if c1.pending.Some? && c1.dialect == SMB311 && IsBindingResponse(c1.pending.value.id, p)
              then c1.(pending := Some(c1.pending.value.(hash := Chain(env, c1.pending.value.hash, p)))) else c1;
    c2.(sent := c2.sent + [p])
  }

  function Send(env: Env, c: Conn, command: nat, sid: nat, r: Reply): Conn {
    ProtectedLength(c.active, c.dialect == SMB311, r.nonce, Raw(c, command, sid, r));
    match Protected(c.active, c.dialect == SMB311, r.nonce, Raw(c, command, sid, r))
    case None => c.(dead := true)
    case Some(p) => AfterSend(env, c, p)
  }

  lemma {:induction false} ProtectedLength(s: Option<Session>, is311: bool, nonce: Nonce, raw: Bytes)
    requires |raw| >= HEADER_SIZE
    ensures var p := Protected(s, is311, nonce, raw); p.Some? ==> |p.value| >= HEADER_SIZE
  {
  }

  // ----------------------------------------------------------------- negotiation

  /** The largest dialect offered up to 3.1.1, where everything below 3.0 becomes 2.1. */
  function Best(dialects: seq<nat>, sofar: nat): nat {
    if dialects == [] then sofar
    else Best(dialects[1..], if sofar < dialects[0] <= SMB311 then dialects[0] else sofar)
  }

  function Choose(dialects: seq<nat>): nat {
    var d := Best(dialects, SMB2_WILDCARD);
    if d == SMB2_WILDCARD then SMB210 else d
  }

  /** The loop keeps the largest dialect: the result is the start value or an offered
      dialect up to 3.1.1, and no such dialect is larger. */
  lemma {:induction false} BestIsLargest(dialects: seq<nat>, sofar: nat)
    ensures var b := Best(dialects, sofar);
      && sofar <= b && (b == sofar || (b in dialects && b <= SMB311))
      && forall d <- dialects :: d <= SMB311 ==> d <= b
  {
    if dialects != [] {
      var next := if sofar < dialects[0] <= SMB311 then dialects[0] else sofar;
      BestIsLargest(dialects[1..], next);
      assert forall d <- dialects :: d == dialects[0] || d in dialects[1..];
    }
  }

  predicate Supported(dialect: nat) {
    dialect in {SMB210, SMB300, SMB302, SMB311}
  }

  /** The first cipher of the list that the server knows, or the one it had. */
  function FirstKnown(ids: seq<nat>, had: nat): nat {
    if ids == [] then had
    else if ids[0] == T.AES128_CCM || ids[0] == T.AES128_GCM then ids[0]
    else FirstKnown(ids[1..], had)
  }

  function ReadContexts(env: Env, c: Conn, pkt: Bytes, contexts: seq<Context>): Conn
    decreases |contexts|
  {
    if contexts == [] then c
    else
      match contexts[0]
      case Broken => c.(dead := true)
      case Other => ReadContexts(env, c, pkt, contexts[1..])
      case Ciphers(ids) => ReadContexts(env, c.(cipherId := FirstKnown(ids, c.cipherId)), pkt, contexts[1..])
      case Preauth(algs) =>
        if |algs| != 1 then c.(dead := true)
        else ReadContexts(env, Hashed(env, c.(hashId := algs[0]), pkt), pkt, contexts[1..])
  }

  function Offered(c: Conn, r: Request): Conn
    requires r.Negotiate?
  {
    c.(dialect := Choose(r.dialects), encryptionCap := r.encryptionCap, spnego := true)
  }

  function Settled(env: Env, c: Conn, r: Request): Conn
    requires r.Negotiate?
  {
    if c.dialect == SMB311 then ReadContexts(env, c, r.pkt, r.contexts) else c.(dead := !Supported(c.dialect))
  }

  function Answered(env: Env, c: Conn, r: Reply): Conn {
    var d := Send(env, c, CMD_NEGOTIATE, 0, r);
    d.(negotiateHash := d.hash)
  }

  function NegotiateStep(env: Env, c: Conn, r: Request): Conn
    requires r.Negotiate?
  {
    if c.phase != Negotiating && c.useSession then Send(env, c, CMD_NEGOTIATE, 0, r.reply)
    else if !r.decodes then c.(dead := true)
    else
      var c2 := Settled(env, Offered(c, r), r);
      if c2.dead then c2 else Answered(env, c2, r.reply)
  }

  // --------------------------------------------------------------- session setup

  predicate ShouldEncrypt(env: Env, c: Conn) {
    env.encryption && c.dialect >= SMB300 && c.encryptionCap
  }

  /** A session of an authenticated user; guests get no keys. */
  function NewSession(env: Env, c: Conn, id: nat, user: Auth, hash: Hash): Session
    requires user.User?
  {
    var s := Session(id, user.guest, !user.guest && ShouldEncrypt(env, c), 0, Zeros(64), None, None, None, None);
    if user.guest then s else WithKeys(env, c, s, user.key, hash)
  }

  function WithKeys(env: Env, c: Conn, s: Session, key: Bytes, hash: Hash): Session {
    if c.dialect == SMB202 || c.dialect == SMB210 then Signing(env, c, s, key, Zeros(64))
    else if c.dialect == SMB300 || c.dialect == SMB302 then
      Sealing(env, c, Signing(env, c, s.(cipherId := T.AES128_CCM), key, Zeros(64)), key, Zeros(64))
    else if c.dialect == SMB311 then
      Sealing(env, c, Signing(env, c, s.(cipherId := c.cipherId, preauth := hash), key, hash), key, hash)
    else s
  }

  function Signing(env: Env, c: Conn, s: Session, key: Bytes, hash: Hash): Session {
    var mac := env.signer(c.dialect, key, hash);
    s.(signer := Some(mac), verifier := Some(mac))
  }

  function Sealing(env: Env, c: Conn, s: Session, key: Bytes, hash: Hash): Session {
    if s.cipherId == T.AES128_CCM || s.cipherId == T.AES128_GCM then
      s.(encrypter := Some(env.cipher(s.cipherId, c.dialect, key, hash, true)),
         decrypter := Some(env.cipher(s.cipherId, c.dialect, key, hash, false)))
    else s
  }

  function WithSession(c: Conn, s: Session): Conn {
    c.(sessions := c.sessions[s.id := s], active := Some(s))
  }

  /** The first message of the first session. */
  function FirstSetup(env: Env, c: Conn, r: Request): Conn
    requires r.SessionSetup?
  {
    if !r.accepted then Send(env, c, CMD_SESSION_SETUP, 0, r.reply)
    else
      var c1 := Hashed(env, c, r.pkt);
      if !r.valid || !c.spnego then c1.(dead := true)
      else if !r.challenged then Send(env, c1, CMD_SESSION_SETUP, 0, r.reply)
      else Send(env, c1.(phase := Challenged), CMD_SESSION_SETUP, r.drawn, r.reply)
  }

  /** The second message of the first session, which activates it. */
  function SecondSetup(env: Env, c: Conn, r: Request): Conn
    requires r.SessionSetup?
  {
    if !r.accepted then Send(env, c, CMD_SESSION_SETUP, 0, r.reply)
    else if !r.valid then c.(dead := true)
    else
      var c1 := Hashed(env, c, r.pkt);
      if !c.spnego then c1.(dead := true)
      else if r.auth.Denied? then Send(env, c1.(phase := Setup), CMD_SESSION_SETUP, 0, r.reply)
      else
        var s := NewSession(env, c1, r.sid, r.auth, c1.hash);
        var c2 := Send(env, WithSession(c1, s).(phase := Active), CMD_SESSION_SETUP, r.sid, r.reply);
        if c2.dead then c2 else c2.(useSession := true)
  }

  /** The first message of a further session. */
  function FirstBinding(env: Env, c: Conn, r: Request): Conn
    requires r.SessionSetup?
  {
    if !r.accepted then Send(env, c, CMD_SESSION_SETUP, 0, r.reply)
    else if !r.valid then c.(dead := true)
    else if !r.challenged then Send(env, c, CMD_SESSION_SETUP, 0, r.reply)
    else
      var h := if c.dialect == SMB311 then Chain(env, c.negotiateHash, r.pkt) else c.negotiateHash;
      Send(env, c.(pending := Some(Pending(r.drawn, h))), CMD_SESSION_SETUP, r.drawn, r.reply)
  }

  /** The second message of a further session. */
  function SecondBinding(env: Env, c: Conn, r: Request): Conn
    requires r.SessionSetup? && c.pending.Some?
  {
    var p := c.pending.value;
    if !r.accepted then Send(env, c.(pending := None), CMD_SESSION_SETUP, 0, r.reply)
    else if !r.valid then c.(pending := None, dead := true)
    else
      var h := if c.dialect == SMB311 then Chain(env, p.hash, r.pkt) else p.hash;
      if r.auth.Denied? then Send(env, c.(pending := None), CMD_SESSION_SETUP, 0, r.reply)
      else
        var s := NewSession(env, c, p.id, r.auth, h);
        Send(env, WithSession(c.(pending := Some(p.(hash := h))), s), CMD_SESSION_SETUP, p.id, r.reply).(pending := None)
  }

  function SetupStep(env: Env, c: Conn, r: Request): Conn
    requires r.SessionSetup?
  {
    if c.useSession then
      if r.sid == 0 then FirstBinding(env, c, r)
      else if c.pending.Some? && c.pending.value.id == r.sid then SecondBinding(env, c, r)
      else if r.sid !in c.sessions then Send(env, c, CMD_SESSION_SETUP, 0, r.reply)
      else Send(env, c.(active := Some(c.sessions[r.sid])), CMD_SESSION_SETUP, c.sessions[r.sid].id, r.reply)
    else
      match c.phase
      case Negotiating => FirstSetup(env, c, r)
      case Active => c.(dead := true)
      case _ => SecondSetup(env, c, r)
  }

  /** Any other command is answered on the session it names, if there is one. */
  function CommandStep(env: Env, c: Conn, r: Request): Conn
    requires r.Command?
  {
    var c1 := if !c.useSession then c
              else c.(active := if r.sid in c.sessions then Some(c.sessions[r.sid]) else None);
    Send(env, c1, r.command, 0, r.reply)
  }

  const CMD_ECHO := 13

  /** An SMB1 negotiate is answered as a negotiate, or refused under its own command. */
  function Smb1Reply(c: Conn): nat {
    if c.phase != Negotiating && c.useSession then SMB1_NEGOTIATE else CMD_NEGOTIATE
  }

  function Step(env: Env, c: Conn, r: Request): Conn {
    if c.dead then c
    else
      match r
      case Smb1Negotiate(reply) => Send(env, c, Smb1Reply(c), 0, reply)
      case Negotiate(_, _, _, _, _, _) => NegotiateStep(env, c, r)
      case SessionSetup(_, _, _, _, _, _, _, _) => SetupStep(env, c, r)
      case Echo(reply) => Send(env, c, CMD_ECHO, 0, reply)
      case Command(_, _, _) => CommandStep(env, c, r)
  }

  function Run(env: Env, rs: seq<Request>): Conn {
    if rs == [] then Initial else Step(env, Run(env, rs[..|rs| - 1]), rs[|rs| - 1])
  }
}
