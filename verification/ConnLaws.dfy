/** What every run of one connection keeps: the keys a session holds, the dialect,
    the pre-authentication hash chains and the protection of responses. */
module ConnLaws {
  import opened Bytes
  import opened ConnSpec
  import opened Packet
  import opened Wrappers
  import T = Transform

  // ------------------------------------------------------------ session material

  ghost predicate Material(dialect: nat, s: Session) {
    && (s.guest ==> !s.encrypt && s.signer.None? && s.verifier.None? && s.encrypter.None? && s.decrypter.None?)
    && (!s.guest ==> s.signer.Some? && s.verifier == s.signer)
    && (s.encrypt ==> dialect >= SMB300 && s.encrypter.Some? && s.decrypter.Some?)
    && (s.decrypter.Some? <==> s.encrypter.Some?)
    && (s.encrypter.Some? <==> !s.guest && dialect >= SMB300)
    && (s.encrypter.Some? ==> s.cipherId in {T.AES128_CCM, T.AES128_GCM})
    && (s.encrypter.None? ==> s.cipherId == 0)
  }

  ghost predicate SessionsSound(c: Conn) {
    && (forall id :: id in c.sessions ==> c.sessions[id].id == id && Material(c.dialect, c.sessions[id]))
    && (c.active.Some? ==> c.active.value.id in c.sessions && c.sessions[c.active.value.id] == c.active.value)
  }

  ghost predicate Inv(c: Conn) {
    c.dead ||
    (&& (c.spnego ==> Supported(c.dialect))
     && c.cipherId in {T.AES128_CCM, T.AES128_GCM}
     && (c.useSession <==> c.phase.Active?)
     && (c.phase.Active? ==> c.spnego && c.sessions != map[])
     && (!c.phase.Active? ==> c.sessions == map[] && c.active.None? && c.pending.None?)
     && SessionsSound(c))
  }

  /** Sending touches only the hashes and the log of what was sent. */
  lemma {:induction false} SendFrame(env: Env, c: Conn, command: nat, sid: nat, r: Reply)
    ensures var d := Send(env, c, command, sid, r);
      && d == c.(dead := d.dead, hash := d.hash, pending := d.pending, sent := d.sent)
      && (c.pending.None? <==> d.pending.None?)
      && (c.pending.Some? ==> d.pending.value.id == c.pending.value.id)
      && (c.phase.Active? || c.dialect != SMB311 || c.hashId != SHA512 ==> d.hash == c.hash)
      && (c.dead ==> d.dead)
      && (d.dead && !c.dead ==> d.sent == c.sent)
      && (!d.dead ==> |d.sent| == |c.sent| + 1 && d.sent[..|c.sent|] == c.sent)
  {
    hide Protected, Raw, AfterSend;
    var raw := Raw(c, command, sid, r);
    ProtectedLength(c.active, c.dialect == SMB311, r.nonce, raw);
    var p := Protected(c.active, c.dialect == SMB311, r.nonce, raw);
    if p.Some? { AfterSendFrame(env, c, p.value); }
  }

  lemma {:induction false} AfterSendFrame(env: Env, c: Conn, p: Bytes)
    requires |p| >= HEADER_SIZE
    ensures var d := AfterSend(env, c, p);
      && d == c.(hash := d.hash, pending := d.pending, sent := c.sent + [p])
      && (c.pending.None? <==> d.pending.None?)
      && (c.pending.Some? ==> d.pending.value.id == c.pending.value.id)
      && (c.phase.Active? || c.dialect != SMB311 || c.hashId != SHA512 ==> d.hash == c.hash)
  {
    hide Chain, IsBindingResponse;
    var c1 := if c.phase.Active? then c else Hashed(env, c, p);
    assert c1 == c.(hash := c1.hash);
  }

  lemma {:induction false} SendKeepsInv(env: Env, c: Conn, command: nat, sid: nat, r: Reply)
    requires Inv(c)
    ensures Inv(Send(env, c, command, sid, r))
  {
    hide Send;
    SendFrame(env, c, command, sid, r);
  }

  lemma {:induction false} NewSessionMaterial(env: Env, c: Conn, id: nat, user: Auth, hash: Hash)
    requires user.User? && Supported(c.dialect) && c.cipherId in {T.AES128_CCM, T.AES128_GCM}
    ensures var s := NewSession(env, c, id, user, hash); s.id == id && Material(c.dialect, s)
  {
  }

  lemma {:induction false} WithSessionSound(c: Conn, s: Session)
    requires SessionsSound(c) && Material(c.dialect, s)
    ensures SessionsSound(WithSession(c, s)) && WithSession(c, s).sessions != map[]
  {
    assert s.id in WithSession(c, s).sessions;
  }

  lemma {:induction false} FirstKnownIsKnown(ids: seq<nat>, had: nat)
    requires had in {T.AES128_CCM, T.AES128_GCM}
    ensures FirstKnown(ids, had) in {T.AES128_CCM, T.AES128_GCM}
  {
    if ids != [] && ids[0] != T.AES128_CCM && ids[0] != T.AES128_GCM { FirstKnownIsKnown(ids[1..], had); }
  }

  /** The cipher, the hash and nothing else may differ. */
  ghost predicate ContextsOnly(c: Conn, d: Conn) {
    && d == c.(dead := d.dead, cipherId := d.cipherId, hashId := d.hashId, hash := d.hash)
    && (c.cipherId in {T.AES128_CCM, T.AES128_GCM} ==> d.cipherId in {T.AES128_CCM, T.AES128_GCM})
  }

  lemma {:induction false} OneContext(env: Env, c: Conn, pkt: Bytes, ids: seq<nat>, hashId: nat)
    ensures ContextsOnly(c, c) && ContextsOnly(c, c.(dead := true))
    ensures ContextsOnly(c, c.(cipherId := FirstKnown(ids, c.cipherId)))
    ensures ContextsOnly(c, Hashed(env, c.(hashId := hashId), pkt))
  {
    if c.cipherId in {T.AES128_CCM, T.AES128_GCM} { FirstKnownIsKnown(ids, c.cipherId); }
    hide FirstKnown, Chain;
  }

  lemma {:induction false} ContextsOnlyTrans(a: Conn, b: Conn, c: Conn)
    requires ContextsOnly(a, b) && ContextsOnly(b, c)
    ensures ContextsOnly(a, c)
  {
  }

  lemma {:induction false} ContextsFrame(env: Env, c: Conn, pkt: Bytes, contexts: seq<Context>)
    ensures ContextsOnly(c, ReadContexts(env, c, pkt, contexts))
    decreases |contexts|
  {
    hide FirstKnown, Hashed, ContextsOnly;
    OneContext(env, c, pkt, [], 0);
    if contexts != [] {
      var rest := contexts[1..];
      match contexts[0] {
        case Broken =>
        case Other => ContextsFrame(env, c, pkt, rest);
        case Ciphers(ids) =>
          OneContext(env, c, pkt, ids, 0);
          var d := c.(cipherId := FirstKnown(ids, c.cipherId));
          ContextsFrame(env, d, pkt, rest);
          ContextsOnlyTrans(c, d, ReadContexts(env, d, pkt, rest));
        case Preauth(algs) =>
          if |algs| == 1 {
            OneContext(env, c, pkt, [], algs[0]);
            var d := Hashed(env, c.(hashId := algs[0]), pkt);
            ContextsFrame(env, d, pkt, rest);
            ContextsOnlyTrans(c, d, ReadContexts(env, d, pkt, rest));
          }
      }
    }
  }

  lemma {:induction false} NegotiateKeepsInv(env: Env, c: Conn, r: Request)
    requires r.Negotiate? && Inv(c) && !c.dead
    ensures Inv(NegotiateStep(env, c, r))
    ensures c.phase.Active? ==> NegotiateStep(env, c, r) == Send(env, c, CMD_NEGOTIATE, 0, r.reply)
  {
    hide Send, ReadContexts, Choose;
    if c.phase != Negotiating && c.useSession {
      SendKeepsInv(env, c, CMD_NEGOTIATE, 0, r.reply);
    } else if r.decodes {
      var c1 := Offered(c, r);
      ContextsFrame(env, c1, r.pkt, r.contexts);
      var c2 := Settled(env, c1, r);
      SendFrame(env, c2, CMD_NEGOTIATE, 0, r.reply);
    }
  }

  lemma {:induction false} SecondSetupKeepsInv(env: Env, c: Conn, r: Request)
    requires r.SessionSetup? && Inv(c) && !c.dead && !c.phase.Active?
    ensures Inv(SecondSetup(env, c, r))
  {
    hide Send, NewSession, Chain;
    var c1 := Hashed(env, c, r.pkt);
    assert c1 == c.(hash := c1.hash);
    if !r.accepted {
      SendKeepsInv(env, c, CMD_SESSION_SETUP, 0, r.reply);
    } else if r.valid && c.spnego {
      if r.auth.Denied? {
        SendKeepsInv(env, c1.(phase := Setup), CMD_SESSION_SETUP, 0, r.reply);
      } else {
        Activates(env, c1, r);
      }
    }
  }

  /** The session that activates the connection. */
  lemma {:induction false} Activates(env: Env, c: Conn, r: Request)
    requires r.SessionSetup? && r.auth.User? && Inv(c) && !c.dead && !c.phase.Active? && c.spnego
    ensures var s := NewSession(env, c, r.sid, r.auth, c.hash);
      var d := Send(env, WithSession(c, s).(phase := Active), CMD_SESSION_SETUP, r.sid, r.reply);
      Inv(if d.dead then d else d.(useSession := true))
  {
    hide Send, NewSession;
    var s := NewSession(env, c, r.sid, r.auth, c.hash);
    NewSessionMaterial(env, c, r.sid, r.auth, c.hash);
    WithSessionSound(c, s);
    SendFrame(env, WithSession(c, s).(phase := Active), CMD_SESSION_SETUP, r.sid, r.reply);
  }

  lemma {:induction false} FirstSetupKeepsInv(env: Env, c: Conn, r: Request)
    requires r.SessionSetup? && Inv(c) && !c.dead && !c.phase.Active?
    ensures Inv(FirstSetup(env, c, r))
  {
    hide Send, Chain;
    SendFrame(env, c, CMD_SESSION_SETUP, 0, r.reply);
    var c1 := Hashed(env, c, r.pkt);
    SendFrame(env, c1, CMD_SESSION_SETUP, 0, r.reply);
    SendFrame(env, c1.(phase := Challenged), CMD_SESSION_SETUP, r.drawn, r.reply);
  }

  lemma {:induction false} BindingKeepsInv(env: Env, c: Conn, r: Request)
    requires r.SessionSetup? && Inv(c) && !c.dead && c.phase.Active?
    ensures Inv(FirstBinding(env, c, r))
    ensures c.pending.Some? ==> Inv(SecondBinding(env, c, r))
  {
    hide Send, NewSession, Chain;
    var h := if c.dialect == SMB311 then Chain(env, c.negotiateHash, r.pkt) else c.negotiateHash;
    SendKeepsInv(env, c, CMD_SESSION_SETUP, 0, r.reply);
    SendKeepsInv(env, c.(pending := Some(Pending(r.drawn, h))), CMD_SESSION_SETUP, r.drawn, r.reply);
    SendKeepsInv(env, c.(pending := None), CMD_SESSION_SETUP, 0, r.reply);
    if c.pending.Some? && r.auth.User? {
      var p := c.pending.value;
      var h2 := if c.dialect == SMB311 then Chain(env, p.hash, r.pkt) else p.hash;
      var s := NewSession(env, c, p.id, r.auth, h2);
      NewSessionMaterial(env, c, p.id, r.auth, h2);
      WithSessionSound(c.(pending := Some(p.(hash := h2))), s);
      SendFrame(env, WithSession(c.(pending := Some(p.(hash := h2))), s), CMD_SESSION_SETUP, p.id, r.reply);
    }
  }

  /** Every step of a connection keeps the session material sound. */
  lemma {:induction false} StepKeepsInv(env: Env, c: Conn, r: Request)
    requires Inv(c)
    ensures Inv(Step(env, c, r))
  {
    hide Send, FirstSetup, SecondSetup, FirstBinding, SecondBinding, NegotiateStep;
    if !c.dead {
      match r {
        case Smb1Negotiate(reply) => SendKeepsInv(env, c, Smb1Reply(c), 0, reply);
        case Negotiate(_, _, _, _, _, _) => NegotiateKeepsInv(env, c, r);
        case Echo(reply) => SendKeepsInv(env, c, CMD_ECHO, 0, reply);
        case Command(sid, command, reply) =>
          SendKeepsInv(env, c, command, 0, reply);
          SendKeepsInv(env, c.(active := if sid in c.sessions then Some(c.sessions[sid]) else None), command, 0, reply);
        case SessionSetup(_, sid, _, _, _, _, _, reply) =>
          if c.phase.Active? {
            BindingKeepsInv(env, c, r);
            SendKeepsInv(env, c, CMD_SESSION_SETUP, 0, reply);
            if sid in c.sessions {
              SendKeepsInv(env, c.(active := Some(c.sessions[sid])), CMD_SESSION_SETUP, c.sessions[sid].id, reply);
            }
          } else {
            FirstSetupKeepsInv(env, c, r);
            SecondSetupKeepsInv(env, c, r);
          }
      }
    }
  }

  lemma {:induction false} RunKeepsInv(env: Env, rs: seq<Request>)
    ensures Inv(Run(env, rs))
  {
    if rs != [] {
      RunKeepsInv(env, rs[..|rs| - 1]);
      StepKeepsInv(env, Run(env, rs[..|rs| - 1]), rs[|rs| - 1]);
    }
  }

  // ------------------------------------------------------ what activation freezes

  /** With a session active, the negotiated values and the connection hash are fixed. */
  ghost predicate Frozen(c: Conn, d: Conn) {
    && d.phase.Active? && d.dialect == c.dialect && d.cipherId == c.cipherId && d.encryptionCap == c.encryptionCap
    && d.hash == c.hash && d.negotiateHash == c.negotiateHash
  }

  lemma {:induction false} SendFrozen(env: Env, c: Conn, command: nat, sid: nat, r: Reply)
    requires c.phase.Active?
    ensures Frozen(c, Send(env, c, command, sid, r))
  {
    hide Send;
    SendFrame(env, c, command, sid, r);
  }

  lemma {:induction false} BindingFrozen(env: Env, c: Conn, r: Request)
    requires r.SessionSetup? && c.phase.Active?
    ensures Frozen(c, FirstBinding(env, c, r))
    ensures c.pending.Some? ==> Frozen(c, SecondBinding(env, c, r))
  {
    hide Send, NewSession, Chain;
    var h := if c.dialect == SMB311 then Chain(env, c.negotiateHash, r.pkt) else c.negotiateHash;
    SendFrozen(env, c, CMD_SESSION_SETUP, 0, r.reply);
    SendFrozen(env, c.(pending := Some(Pending(r.drawn, h))), CMD_SESSION_SETUP, r.drawn, r.reply);
    SendFrozen(env, c.(pending := None), CMD_SESSION_SETUP, 0, r.reply);
    if c.pending.Some? && r.auth.User? {
      var p := c.pending.value;
      var h2 := if c.dialect == SMB311 then Chain(env, p.hash, r.pkt) else p.hash;
      var s := NewSession(env, c, p.id, r.auth, h2);
      SendFrozen(env, WithSession(c.(pending := Some(p.(hash := h2))), s), CMD_SESSION_SETUP, p.id, r.reply);
    }
  }

  /** The dialect never changes once a session exists, and the connection hash of the
      first session is never touched again. */
  lemma {:induction false} StepFrozen(env: Env, c: Conn, r: Request)
    requires Inv(c) && c.phase.Active?
    ensures Frozen(c, Step(env, c, r))
  {
    hide Send, FirstSetup, SecondSetup, FirstBinding, SecondBinding, NegotiateStep, SessionsSound, Frozen;
    assert Frozen(c, c) by { FrozenSelf(c); }
    if !c.dead {
      match r {
        case Smb1Negotiate(reply) => SendFrozen(env, c, Smb1Reply(c), 0, reply);
        case Negotiate(_, _, _, _, _, reply) =>
          NegotiateKeepsInv(env, c, r);
          SendFrozen(env, c, CMD_NEGOTIATE, 0, reply);
        case Echo(reply) => SendFrozen(env, c, CMD_ECHO, 0, reply);
        case Command(sid, command, reply) =>
          var d := c.(active := if sid in c.sessions then Some(c.sessions[sid]) else None);
          SendFrozen(env, d, command, 0, reply);
          FrozenActive(c, d.active, Send(env, d, command, 0, reply));
        case SessionSetup(_, sid, _, _, _, _, _, reply) =>
          BindingFrozen(env, c, r);
          SendFrozen(env, c, CMD_SESSION_SETUP, 0, reply);
          if sid in c.sessions {
            var d := c.(active := Some(c.sessions[sid]));
            SendFrozen(env, d, CMD_SESSION_SETUP, c.sessions[sid].id, reply);
            FrozenActive(c, d.active, Send(env, d, CMD_SESSION_SETUP, c.sessions[sid].id, reply));
          }
      }
    }
  }

  lemma {:induction false} FrozenSelf(c: Conn)
    requires c.phase.Active?
    ensures Frozen(c, c)
  {
  }

  lemma {:induction false} FrozenActive(c: Conn, a: Option<Session>, d: Conn)
    requires Frozen(c.(active := a), d)
    ensures Frozen(c, d)
  {
  }

  // -------------------------------------------------------- the connection hash

  function Fold(env: Env, hash: Hash, pkts: seq<Bytes>): Hash {
    if pkts == [] then hash else Chain(env, Fold(env, hash, pkts[..|pkts| - 1]), pkts[|pkts| - 1])
  }

  lemma {:induction false} FoldConcat(env: Env, hash: Hash, a: seq<Bytes>, b: seq<Bytes>)
    ensures Fold(env, hash, a + b) == Fold(env, Fold(env, hash, a), b)
  {
    if b == [] {
      assert a + b == a;
    } else {
      assert (a + b)[..|a + b| - 1] == a + b[..|b| - 1];
      FoldConcat(env, hash, a, b[..|b| - 1]);
    }
  }

  function HashLists(contexts: seq<Context>): seq<seq<nat>> {
    if contexts == [] then []
    else (if contexts[0].Preauth? then [contexts[0].algs] else []) + HashLists(contexts[1..])
  }

  /** A negotiate for SMB 3.1.1 offers SHA-512 in a single context. */
  predicate OneShaContext(r: Request) {
    r.Negotiate? && r.decodes && Choose(r.dialects) == SMB311 ==> HashLists(r.contexts) == [[SHA512]]
  }

  lemma {:induction false} ContextsHash(env: Env, c: Conn, pkt: Bytes, contexts: seq<Context>)
    requires c.dialect == SMB311
    ensures var d := ReadContexts(env, c, pkt, contexts);
      && (HashLists(contexts) == [] ==> d.hash == c.hash && d.hashId == c.hashId)
      && (HashLists(contexts) == [[SHA512]] && !d.dead ==> d.hash == Chain(env, c.hash, pkt) && d.hashId == SHA512)
    decreases |contexts|
  {
    hide Chain, FirstKnown;
    if contexts != [] {
      match contexts[0] {
        case Broken =>
        case Other => ContextsHash(env, c, pkt, contexts[1..]);
        case Ciphers(ids) => ContextsHash(env, c.(cipherId := FirstKnown(ids, c.cipherId)), pkt, contexts[1..]);
        case Preauth(algs) =>
          if |algs| == 1 { ContextsHash(env, Hashed(env, c.(hashId := algs[0]), pkt), pkt, contexts[1..]); }
      }
    }
  }

  /** The request of a step, when it belongs to the chain. */
  function Asked(c: Conn, r: Request): seq<Bytes> {
    match r
    case Negotiate(pkt, decodes, _, _, _, _) => if decodes then [pkt] else []
    case SessionSetup(pkt, _, accepted, valid, _, _, _, _) => if accepted && (valid || c.phase.Negotiating?) then [pkt] else []
    case _ => []
  }

  /** What a step adds to the chain of an SMB 3.1.1 connection: its negotiate or setup
      request and everything sent, until the session is active. */
  function Chained(env: Env, c: Conn, r: Request): seq<Bytes> {
    var d := Step(env, c, r);
    if c.dead || c.phase.Active? || d.dialect != SMB311 then []
    else Asked(c, r) + (if d.phase.Active? || |d.sent| < |c.sent| then [] else d.sent[|c.sent|..])
  }

  function Wire(env: Env, rs: seq<Request>): seq<Bytes> {
    if rs == [] then [] else Wire(env, rs[..|rs| - 1]) + Chained(env, Run(env, rs[..|rs| - 1]), rs[|rs| - 1])
  }

  /** A response sent before activation enters the hash. */
  lemma {:induction false} SendChains(env: Env, c: Conn, command: nat, sid: nat, r: Reply)
    requires !c.dead && !Send(env, c, command, sid, r).dead
    ensures var d := Send(env, c, command, sid, r);
      && |d.sent| == |c.sent| + 1
      && d.hash == if !c.phase.Active? && c.dialect == SMB311 && c.hashId == SHA512
                   then Fold(env, c.hash, d.sent[|c.sent|..]) else c.hash
  {
    hide Protected, Raw, Chain, IsBindingResponse;
    var raw := Raw(c, command, sid, r);
    ProtectedLength(c.active, c.dialect == SMB311, r.nonce, raw);
    var d, p := Send(env, c, command, sid, r), Protected(c.active, c.dialect == SMB311, r.nonce, raw).value;
    assert d.sent[|c.sent|..] == [p];
    FoldOne(env, c.hash, p);
  }

  lemma {:induction false} FoldOne(env: Env, hash: Hash, p: Bytes)
    ensures Fold(env, hash, [p]) == Chain(env, hash, p)
  {
    assert Fold(env, hash, [p][..0]) == hash;
  }

  lemma {:induction false} FoldTwo(env: Env, hash: Hash, p: Bytes, q: seq<Bytes>)
    ensures Fold(env, hash, [p] + q) == Fold(env, Chain(env, hash, p), q)
  {
    FoldConcat(env, hash, [p], q);
    FoldOne(env, hash, p);
  }

  /** SHA-512 is in force once SMB 3.1.1 is. */
  predicate ShaInForce(c: Conn) {
    c.dialect == SMB311 ==> c.hashId == SHA512
  }

  lemma {:induction false} NegotiateChains(env: Env, c: Conn, r: Request)
    requires r.Negotiate? && OneShaContext(r) && Inv(c) && ShaInForce(c) && !c.dead && !c.phase.Active? && !Step(env, c, r).dead
    ensures var d := Step(env, c, r); ShaInForce(d) && d.hash == Fold(env, c.hash, Chained(env, c, r))
  {
    hide Send, ReadContexts, Choose, Chain, Fold, HashLists, SessionsSound;
    var c1 := Offered(c, r);
    ContextsFrame(env, c1, r.pkt, r.contexts);
    var c2 := Settled(env, c1, r);
    SendFrame(env, c2, CMD_NEGOTIATE, 0, r.reply);
    SendChains(env, c2, CMD_NEGOTIATE, 0, r.reply);
    var d := Step(env, c, r);
    if c1.dialect == SMB311 {
      ContextsHash(env, c1, r.pkt, r.contexts);
      FoldTwo(env, c.hash, r.pkt, d.sent[|c.sent|..]);
    } else {
      FoldNone(env, c.hash);
    }
  }

  lemma {:induction false} FoldNone(env: Env, hash: Hash)
    ensures Fold(env, hash, []) == hash
  {
  }

  /** Where a step is one send from c1, with the asked packets already hashed. */
  lemma {:induction false} SendAfterAsked(env: Env, c: Conn, c1: Conn, d: Conn, asked: seq<Bytes>, command: nat, sid: nat, r: Reply)
    requires d == Send(env, c1, command, sid, r) && !d.dead && !c1.dead && ShaInForce(c)
    requires c1.dialect == c.dialect && c1.hashId == c.hashId && c1.sent == c.sent
    requires c.dialect == SMB311 ==> c1.hash == Fold(env, c.hash, asked)
    requires c.dialect != SMB311 ==> c1.hash == c.hash
    ensures ShaInForce(d) && |d.sent| > |c.sent| && d.dialect == c.dialect
    ensures d.hash == Fold(env, c.hash, if c.dialect != SMB311 then []
      else asked + (if c1.phase.Active? then [] else d.sent[|c.sent|..]))
  {
    hide Send, Chain, Fold;
    SendFrame(env, c1, command, sid, r);
    SendChains(env, c1, command, sid, r);
    FoldNone(env, c.hash);
    if c.dialect == SMB311 && !c1.phase.Active? {
      FoldConcat(env, c.hash, asked, d.sent[|c.sent|..]);
    }
    assert asked + [] == asked;
  }

  lemma {:induction false} HashedFrame(env: Env, c: Conn, pkt: Bytes)
    ensures Hashed(env, c, pkt) == c.(hash := Hashed(env, c, pkt).hash)
    ensures ShaInForce(c) && c.dialect == SMB311 ==> Hashed(env, c, pkt).hash == Fold(env, c.hash, [pkt])
    ensures c.dialect != SMB311 ==> Hashed(env, c, pkt).hash == c.hash
    ensures Fold(env, c.hash, []) == c.hash
  {
    FoldOne(env, c.hash, pkt);
    FoldNone(env, c.hash);
    hide Chain, Fold;
  }

  lemma {:induction false} FirstSetupChains(env: Env, c: Conn, r: Request)
    requires r.SessionSetup? && Inv(c) && ShaInForce(c) && !c.dead && c.phase.Negotiating? && !Step(env, c, r).dead
    ensures var d := Step(env, c, r); ShaInForce(d) && d.hash == Fold(env, c.hash, Chained(env, c, r))
  {
    hide Send, Chain, Fold, SessionsSound, Hashed;
    var c1, d := Hashed(env, c, r.pkt), Step(env, c, r);
    HashedFrame(env, c, r.pkt);
    if !r.accepted {
      SendFrame(env, c, CMD_SESSION_SETUP, 0, r.reply);
      SendAfterAsked(env, c, c, d, [], CMD_SESSION_SETUP, 0, r.reply);
    } else if r.valid && c.spnego {
      if !r.challenged {
        SendFrame(env, c1, CMD_SESSION_SETUP, 0, r.reply);
        SendAfterAsked(env, c, c1, d, [r.pkt], CMD_SESSION_SETUP, 0, r.reply);
      } else {
        SendFrame(env, c1.(phase := Challenged), CMD_SESSION_SETUP, r.drawn, r.reply);
        SendAfterAsked(env, c, c1.(phase := Challenged), d, [r.pkt], CMD_SESSION_SETUP, r.drawn, r.reply);
      }
    }
  }

  lemma {:induction false} SecondSetupChains(env: Env, c: Conn, r: Request)
    requires r.SessionSetup? && Inv(c) && ShaInForce(c) && !c.dead && !c.phase.Negotiating? && !c.phase.Active?
    requires !Step(env, c, r).dead
    ensures var d := Step(env, c, r); ShaInForce(d) && d.hash == Fold(env, c.hash, Chained(env, c, r))
  {
    hide Send, Chain, Fold, SessionsSound, Hashed, NewSession;
    var c1, d := Hashed(env, c, r.pkt), Step(env, c, r);
    HashedFrame(env, c, r.pkt);
    if !r.accepted {
      SendFrame(env, c, CMD_SESSION_SETUP, 0, r.reply);
      SendAfterAsked(env, c, c, d, [], CMD_SESSION_SETUP, 0, r.reply);
    } else if r.valid && c.spnego {
      if r.auth.Denied? {
        SendFrame(env, c1.(phase := Setup), CMD_SESSION_SETUP, 0, r.reply);
        SendAfterAsked(env, c, c1.(phase := Setup), d, [r.pkt], CMD_SESSION_SETUP, 0, r.reply);
      } else {
        var c2 := WithSession(c1, NewSession(env, c1, r.sid, r.auth, c1.hash)).(phase := Active);
        var d2 := Send(env, c2, CMD_SESSION_SETUP, r.sid, r.reply);
        SendFrame(env, c2, CMD_SESSION_SETUP, r.sid, r.reply);
        SendAfterAsked(env, c, c2, d2, [r.pkt], CMD_SESSION_SETUP, r.sid, r.reply);
        assert d == d2.(useSession := true);
        assert [r.pkt] + [] == [r.pkt];
      }
    }
  }

  lemma {:induction false} OtherChains(env: Env, c: Conn, r: Request)
    requires !r.SessionSetup? && !r.Negotiate? && Inv(c) && ShaInForce(c) && !c.dead && !c.phase.Active? && !Step(env, c, r).dead
    ensures var d := Step(env, c, r); ShaInForce(d) && d.hash == Fold(env, c.hash, Chained(env, c, r))
  {
    hide Send, Chain, Fold, SessionsSound;
    var d := Step(env, c, r);
    FoldNone(env, c.hash);
    var command := if r.Command? then r.command else if r.Echo? then CMD_ECHO else Smb1Reply(c);
    assert d == Send(env, c, command, 0, r.reply);
    SendFrame(env, c, command, 0, r.reply);
    SendAfterAsked(env, c, c, d, [], command, 0, r.reply);
  }

  lemma {:induction false} StepChains(env: Env, c: Conn, r: Request)
    requires OneShaContext(r) && Inv(c) && ShaInForce(c) && !Step(env, c, r).dead
    ensures var d := Step(env, c, r); !c.dead && d.hash == Fold(env, c.hash, Chained(env, c, r))
    ensures !c.phase.Active? ==> ShaInForce(Step(env, c, r))
  {
    hide Send, Chain, Fold, SessionsSound, FirstSetup, SecondSetup, NegotiateStep, Chained;
    if c.phase.Active? {
      StepFrozen(env, c, r);
      ChainedNone(env, c, r);
    } else if r.Negotiate? {
      NegotiateChains(env, c, r);
    } else if !r.SessionSetup? {
      OtherChains(env, c, r);
    } else if c.phase.Negotiating? {
      FirstSetupChains(env, c, r);
    } else {
      SecondSetupChains(env, c, r);
    }
  }

  lemma {:induction false} ChainedNone(env: Env, c: Conn, r: Request)
    requires c.phase.Active?
    ensures Chained(env, c, r) == [] && Fold(env, c.hash, []) == c.hash
  {
    FoldNone(env, c.hash);
  }

  /** Once active, the chain stands still, and so does what it was computed with. */
  lemma {:induction false} ConnectionHashIsFold(env: Env, rs: seq<Request>)
    requires forall r :: r in rs ==> OneShaContext(r)
    ensures var c := Run(env, rs);
      !c.dead ==> c.hash == Fold(env, Zeros(64), Wire(env, rs)) && (!c.phase.Active? ==> ShaInForce(c))
  {
    hide Step, Fold, Chained;
    if rs == [] {
      FoldNone(env, Zeros(64));
    } else {
      var prev, r := rs[..|rs| - 1], rs[|rs| - 1];
      var c := Run(env, prev);
      DeadStays(env, c, r);
      ConnectionHashIsFold(env, prev);
      RunKeepsInv(env, prev);
      if c.phase.Active? {
        StepFrozen(env, c, r);
        ChainedNone(env, c, r);
      } else if !Step(env, c, r).dead {
        StepChains(env, c, r);
      }
      FoldConcat(env, Zeros(64), Wire(env, prev), Chained(env, c, r));
    }
  }

  /** The part of a run up to the last negotiate that counts: one before activation. */
  function NegotiatedAt(env: Env, rs: seq<Request>): seq<Request> {
    if rs == [] then []
    else if rs[|rs| - 1].Negotiate? && !Run(env, rs[..|rs| - 1]).phase.Active? then rs
    else NegotiatedAt(env, rs[..|rs| - 1])
  }

  /** Only a negotiate changes the hash that further sessions start from. */
  lemma {:induction false} OthersKeepNegotiateHash(env: Env, c: Conn, r: Request)
    requires Inv(c) && !c.dead && !c.phase.Active? && !r.Negotiate?
    ensures Step(env, c, r).negotiateHash == c.negotiateHash
  {
    hide Send, SessionsSound, Chain, NewSession;
    match r {
      case Smb1Negotiate(reply) => SendFrame(env, c, Smb1Reply(c), 0, reply);
      case Echo(reply) => SendFrame(env, c, CMD_ECHO, 0, reply);
      case Command(_, command, reply) => SendFrame(env, c, command, 0, reply);
      case SessionSetup(_, _, _, _, _, _, _, _) => SetupKeepsNegotiateHash(env, c, r);
    }
  }

  lemma {:induction false} SendKeepsNegotiateHash(env: Env, c: Conn, command: nat, sid: nat, r: Reply)
    ensures Send(env, c, command, sid, r).negotiateHash == c.negotiateHash
  {
    hide Send;
    SendFrame(env, c, command, sid, r);
  }

  lemma {:induction false} SetupKeepsNegotiateHash(env: Env, c: Conn, r: Request)
    requires r.SessionSetup?
    ensures FirstSetup(env, c, r).negotiateHash == c.negotiateHash
    ensures SecondSetup(env, c, r).negotiateHash == c.negotiateHash
  {
    hide Send, Chain, Hashed, NewSession;
    var c1 := Hashed(env, c, r.pkt);
    assert c1.negotiateHash == c.negotiateHash by { HashedFrame(env, c, r.pkt); }
    SendKeepsNegotiateHash(env, c, CMD_SESSION_SETUP, 0, r.reply);
    SendKeepsNegotiateHash(env, c1, CMD_SESSION_SETUP, 0, r.reply);
    SendKeepsNegotiateHash(env, c1.(phase := Challenged), CMD_SESSION_SETUP, r.drawn, r.reply);
    SendKeepsNegotiateHash(env, c1.(phase := Setup), CMD_SESSION_SETUP, 0, r.reply);
    if r.auth.User? {
      var s := NewSession(env, c1, r.sid, r.auth, c1.hash);
      SendKeepsNegotiateHash(env, WithSession(c1, s).(phase := Active), CMD_SESSION_SETUP, r.sid, r.reply);
    }
  }

  lemma {:induction false} NegotiateTakesHash(env: Env, c: Conn, r: Request)
    requires r.Negotiate? && Inv(c) && !c.dead && !c.phase.Active?
    ensures var d := Step(env, c, r); d.dead || d.negotiateHash == d.hash
  {
    hide Send, SessionsSound, ReadContexts, Choose;
  }

  /** What further sessions start from is the fold over the chain up to the last
      negotiate before activation, whatever came after it. */
  lemma {:induction false} NegotiateHashIsFold(env: Env, rs: seq<Request>)
    requires forall r :: r in rs ==> OneShaContext(r)
    ensures var c := Run(env, rs);
      !c.dead ==> c.negotiateHash == Fold(env, Zeros(64), Wire(env, NegotiatedAt(env, rs)))
  {
    hide Step, Fold, Wire;
    if rs == [] {
      WireStart(env);
    } else {
      var prev, r := rs[..|rs| - 1], rs[|rs| - 1];
      var c := Run(env, prev);
      DeadStays(env, c, r);
      RunKeepsInv(env, prev);
      NegotiateHashIsFold(env, prev);
      if !c.dead {
        if c.phase.Active? {
          StepFrozen(env, c, r);
        } else if r.Negotiate? {
          NegotiateTakesHash(env, c, r);
          ConnectionHashIsFold(env, rs);
        } else {
          OthersKeepNegotiateHash(env, c, r);
        }
      }
    }
  }

  lemma {:induction false} WireStart(env: Env)
    ensures Fold(env, Zeros(64), Wire(env, [])) == Zeros(64)
  {
  }

  lemma {:induction false} OthersKeepPhase(env: Env, c: Conn, r: Request)
    requires Inv(c) && !c.dead && !c.phase.Active? && !r.SessionSetup?
    ensures Step(env, c, r).phase == c.phase
  {
    hide Send, SessionsSound, ReadContexts, Choose;
    match r {
      case Smb1Negotiate(reply) => SendFrame(env, c, Smb1Reply(c), 0, reply);
      case Negotiate(_, _, _, _, contexts, reply) =>
        ContextsFrame(env, Offered(c, r), r.pkt, contexts);
        SendFrame(env, Settled(env, Offered(c, r), r), CMD_NEGOTIATE, 0, reply);
      case Echo(reply) => SendFrame(env, c, CMD_ECHO, 0, reply);
      case Command(_, command, reply) => SendFrame(env, c, command, 0, reply);
    }
  }

  lemma {:induction false} FirstSetupKeepsInactive(env: Env, c: Conn, r: Request)
    requires !c.phase.Active? && r.SessionSetup?
    ensures !FirstSetup(env, c, r).phase.Active?
  {
    hide Send, Chain;
    var c1 := Hashed(env, c, r.pkt);
    SendFrame(env, c, CMD_SESSION_SETUP, 0, r.reply);
    SendFrame(env, c1, CMD_SESSION_SETUP, 0, r.reply);
    SendFrame(env, c1.(phase := Challenged), CMD_SESSION_SETUP, r.drawn, r.reply);
  }

  lemma {:induction false} NewSessionHash(env: Env, c: Conn, id: nat, user: Auth, hash: Hash)
    requires user.User? && !user.guest && c.dialect == SMB311
    ensures NewSession(env, c, id, user, hash).preauth == hash
  {
  }

  lemma {:induction false} NewSessionKind(env: Env, c: Conn, id: nat, user: Auth, hash: Hash)
    requires user.User?
    ensures var s := NewSession(env, c, id, user, hash); s.id == id && s.guest == user.guest
  {
  }

  /** The second setup message activates the first session, and its keys are derived
      from the connection hash as it then stands. */
  lemma {:induction false} SecondSetupUsesHash(env: Env, c: Conn, r: Request)
    requires !c.phase.Active? && r.SessionSetup?
    ensures var d := SecondSetup(env, c, r);
      d.phase.Active? && !d.dead ==>
        && d.active.Some? && d.active.value.id == r.sid
        && (d.dialect == SMB311 && !d.active.value.guest ==> d.active.value.preauth == d.hash)
  {
    hide Send, Chain, Hashed, NewSession;
    var c1 := Hashed(env, c, r.pkt);
    HashedFrame(env, c, r.pkt);
    if !r.accepted {
      SendFrame(env, c, CMD_SESSION_SETUP, 0, r.reply);
    } else if r.valid && c.spnego {
      if r.auth.Denied? {
        SendFrame(env, c1.(phase := Setup), CMD_SESSION_SETUP, 0, r.reply);
      } else {
        NewSessionKind(env, c1, r.sid, r.auth, c1.hash);
        if c1.dialect == SMB311 && !r.auth.guest { NewSessionHash(env, c1, r.sid, r.auth, c1.hash); }
        var s := NewSession(env, c1, r.sid, r.auth, c1.hash);
        SendFrame(env, WithSession(c1, s).(phase := Active), CMD_SESSION_SETUP, r.sid, r.reply);
      }
    }
  }

  lemma {:induction false} ActivationUsesHash(env: Env, c: Conn, r: Request)
    requires Inv(c) && !c.dead && !c.phase.Active?
    ensures var d := Step(env, c, r);
      d.phase.Active? && !d.dead ==>
        && r.SessionSetup? && d.active.Some? && d.active.value.id == r.sid
        && (d.dialect == SMB311 && !d.active.value.guest ==> d.active.value.preauth == d.hash)
  {
    hide FirstSetup, SecondSetup, NegotiateStep, CommandStep, Send, SessionsSound;
    if r.SessionSetup? {
      FirstSetupKeepsInactive(env, c, r);
      SecondSetupUsesHash(env, c, r);
    } else {
      OthersKeepPhase(env, c, r);
    }
  }

  /** The first session of an SMB 3.1.1 connection gets keys from the fold over the
      chain up to its own second request. */
  lemma {:induction false} FirstSessionHash(env: Env, rs: seq<Request>, r: Request)
    requires forall q :: q in rs + [r] ==> OneShaContext(q)
    ensures var c, d := Run(env, rs), Run(env, rs + [r]);
      !c.phase.Active? && d.phase.Active? && !d.dead && d.dialect == SMB311 ==>
        && d.active.Some?
        && (!d.active.value.guest ==> d.active.value.preauth == Fold(env, Zeros(64), Wire(env, rs + [r])))
  {
    hide Step, Fold, Wire;
    assert (rs + [r])[..|rs|] == rs;
    var c := Run(env, rs);
    DeadStays(env, c, r);
    RunKeepsInv(env, rs);
    if !c.dead && !c.phase.Active? { ActivationUsesHash(env, c, r); }
    ConnectionHashIsFold(env, rs + [r]);
  }

  lemma {:induction false} DeadStays(env: Env, c: Conn, r: Request)
    ensures c.dead ==> Step(env, c, r).dead
  {
  }

  // -------------------------------------------------------------- what is sent

  lemma {:induction false} RawReads(c: Conn, command: nat, sid: nat, r: Reply)
    ensures var raw := Raw(c, command, sid, r);
      && !IsInvalid(raw) && HasMagic(raw, 0xfe) && Packet.Command(raw) == command % 0x1_0000
      && U64(raw, 40) == (if sid == 0 && c.active.Some? && c.useSession then c.active.value.id else sid) % (ALL_ONES + 1)
      && raw[48..64] == Zeros(16)
  {
    var id := if sid == 0 && c.active.Some? && c.useSession then c.active.value.id else sid;
    var h := r.hdr.(command := command, next := 0, sessionId := id);
    hide HeaderBytes, U16, U32, U64, IsSmb1, HasMagic, Packet.Command, Zeros, MessageId, Next;
    HeaderReadsBack(h, Zeros(HEADER_SIZE), r.body);
    assert Zeros(HEADER_SIZE)[48..] == Zeros(16) by { ZeroTail(); }
    LinkZeroFits(Raw(c, command, sid, r));
  }

  lemma {:induction false} ZeroTail()
    ensures Zeros(HEADER_SIZE)[48..] == Zeros(16)
  {
  }

  lemma {:induction false} LinkZeroFits(p: Bytes)
    requires |p| >= HEADER_SIZE && HasMagic(p, 0xfe) && U16(p, 4) == 64 && Next(p) == 0
    ensures !IsInvalid(p)
  {
    hide U16, Next;
  }

  /** How a single response leaves in any reachable state: with an active session every
      response other than to a session setup is encrypted when the session asks for it;
      otherwise signed for users, and then verifies under the session's key; and plain
      for guests. No key is ever missing. */
  lemma {:induction false} ResponseProtection(env: Env, c: Conn, command: nat, sid: nat, r: Reply)
    requires Inv(c) && !c.dead && c.active.Some? && command % 0x1_0000 != CMD_SESSION_SETUP
    ensures var s := c.active.value;
      var raw := Raw(c, command, sid, r);
      var d := Send(env, c, command, sid, r);
      && !d.dead && |d.sent| == |c.sent| + 1
      && var p := d.sent[|c.sent|];
        if s.encrypt then s.encrypter.Some? && !s.guest && c.dialect >= SMB300 && p == Encrypt(s, c.dialect == SMB311, r.nonce, raw)
        else if !s.guest then s.verifier.Some? && |p| >= HEADER_SIZE && Verified(Keyed(s.verifier.value), p) && HasFlag(p, FLAG_SIGNED)
        else p == raw
  {
    hide U64, Packet.Command, IsInvalid, Encrypt, Verified, Signed, HasFlag;
    var s, raw := c.active.value, Raw(c, command, sid, r);
    RawReads(c, command, sid, r);
    ProtectedLength(c.active, c.dialect == SMB311, r.nonce, raw);
    if !s.encrypt && !s.guest { SignedVerifiesUnder(s.signer.value, raw); }
    AfterSendFrame(env, c, Protected(c.active, c.dialect == SMB311, r.nonce, raw).value);
  }

  /** An encrypted response reaches a peer that holds the matching key exactly when it
      is within the transport limit. */
  lemma {:induction false} EncryptedResponseArrivesIff(c: Conn, command: nat, sid: nat, r: Reply, peers: map<nat, T.Session>)
    requires Inv(c) && !c.dead && c.active.Some? && c.active.value.encrypt
    requires var s := c.active.value;
      && s.id <= ALL_ONES && s.id in peers && T.NoncesFit(peers) && peers[s.id].cipherId == s.cipherId
      && peers[s.id].decrypter.Some? && (s.encrypter.Some? ==> T.Matching(s.encrypter.value, peers[s.id].decrypter.value))
    requires |Raw(c, command, sid, r)| < 0x1_0000_0000
    ensures var s, raw := c.active.value, Raw(c, command, sid, r);
      && s.encrypter.Some?
      && (T.TryDecrypt(c.dialect == SMB311, peers, Encrypt(s, c.dialect == SMB311, r.nonce, raw)) == T.Decrypted(raw)
          <==> |raw| <= T.MAX_DIRECT_TCP_SIZE)
  {
    hide IsInvalid, Raw, T.Encrypted, T.TryDecrypt;
    var s, raw := c.active.value, Raw(c, command, sid, r);
    RawReads(c, command, sid, r);
    var a: T.Aead := s.encrypter.value;
    T.TransformRoundTripIff(T.Session(s.id, s.cipherId, a, None), c.dialect == SMB311, r.nonce[..a.nonceSize], raw, peers);
  }

  /** In any reachable state, the sessions without a decrypter are those of guests and
      those of SMB 2.x. */
  lemma {:induction false} NoDecrypterIff(env: Env, rs: seq<Request>, id: nat)
    ensures var c := Run(env, rs);
      !c.dead && id in c.sessions ==>
        (c.sessions[id].decrypter.None? <==> c.sessions[id].guest || c.dialect < SMB300)
  {
    hide Run;
    RunKeepsInv(env, rs);
  }

  // ---------------------------------------------------------- the binding hash

  /** The bytes of an encrypted frame where a plain packet has its session id. */
  function LookAlike(is311: bool, s: Session): (r: Bytes)
    ensures |r| == 8
  {
    Zeros(2) + LE(2, if is311 then T.ENCRYPTED else s.cipherId) + LE(8, s.id)[..4]
  }

  lemma {:induction false} EncryptReads(s: Session, is311: bool, nonce: Nonce, raw: Bytes)
    requires s.encrypter.Some?
    ensures var p := Encrypt(s, is311, nonce, raw); |p| == 52 + |raw| && p[40..48] == LookAlike(is311, s)
  {
    var a: T.Aead := s.encrypter.value;
    var ts := T.Session(s.id, s.cipherId, a, None);
    var ad := T.AuthData(ts, is311, nonce[..a.nonceSize], |raw|);
    var p := Encrypt(s, is311, nonce, raw);
    T.FrameReads(ad, a.seal(nonce[..a.nonceSize], raw, ad));
    assert p[20..52] == ad;
    assert p[40..48] == ad[20..28];
    AuthDataMiddle(ts, is311, nonce[..a.nonceSize], |raw|);
  }

  lemma {:induction false} AuthDataMiddle(s: T.Session, is311: bool, nonce: Bytes, size: nat)
    requires |nonce| <= 16
    ensures T.AuthData(s, is311, nonce, size)[20..28] == Zeros(2) + LE(2, if is311 then T.ENCRYPTED else s.cipherId) + LE(8, s.id)[..4]
  {
    hide LE;
  }

  lemma {:induction false} SignedReads(mac: Bytes -> Signature, p: Bytes)
    requires |p| >= HEADER_SIZE && HasMagic(p, 0xfe)
    ensures Packet.Command(Signed(mac, p)) == Packet.Command(p) && U64(Signed(mac, p), 40) == U64(p, 40)
  {
    var f, s := Flagged(p), Signed(mac, p);
    SpliceOutside(p, 16, LE(4, SetFlag(U32(p, 16), FLAG_SIGNED)), 0, 16);
    SpliceOutside(p, 16, LE(4, SetFlag(U32(p, 16), FLAG_SIGNED)), 40, 48);
    SpliceOutside(f, 48, mac(f), 0, 16);
    SpliceOutside(f, 48, mac(f), 40, 48);
    SameFields(p, s);
  }

  lemma {:induction false} SameFields(p: Bytes, s: Bytes)
    requires |p| == |s| >= HEADER_SIZE && s[..16] == p[..16] && s[40..48] == p[40..48]
    ensures Packet.Command(s) == Packet.Command(p) && U64(s, 40) == U64(p, 40)
  {
    assert forall i :: 0 <= i < 16 ==> s[i] == s[..16][i] == p[i];
    U64Val(p, 40); U64Val(s, 40);
  }

  /** A random id of a pending session that nothing else on the wire carries. */
  ghost predicate Fresh(c: Conn, id: nat) {
    && 0 < id <= ALL_ONES
    && forall k :: k in c.sessions ==> k % (ALL_ONES + 1) != id && LE(8, id) != LookAlike(c.dialect == SMB311, c.sessions[k])
  }

  /** Responses that are not the pending session's own are not taken for them. */
  lemma {:induction false} OthersAreNotBinding(c: Conn, command: nat, sid: nat, r: Reply, id: nat)
    requires SessionsSound(c) && Fresh(c, id) && command < 0x1_0000
    requires command != CMD_SESSION_SETUP || sid == 0 || sid in c.sessions
    ensures var raw := Raw(c, command, sid, r);
      var p := Protected(c.active, c.dialect == SMB311, r.nonce, raw);
      p.Some? ==> |p.value| >= HEADER_SIZE && !IsBindingResponse(id, p.value)
  {
    hide U64, Packet.Command, Encrypt, Signed, LookAlike, Raw, IsInvalid, HasMagic, HasFlag;
    var raw := Raw(c, command, sid, r);
    RawReads(c, command, sid, r);
    ProtectedLength(c.active, c.dialect == SMB311, r.nonce, raw);
    if c.active.Some? {
      var s := c.active.value;
      if s.signer.Some? { SignedReads(s.signer.value, raw); }
      if s.encrypter.Some? {
        EncryptReads(s, c.dialect == SMB311, r.nonce, raw);
        NotTheId(Encrypt(s, c.dialect == SMB311, r.nonce, raw), id);
      }
    }
  }

  lemma {:induction false} NotTheId(p: Bytes, id: nat)
    requires |p| >= 48
    ensures p[40..48] != LE(8, id) ==> U64(p, 40) != id
  {
    hide LE, LEVal, U64;
    U64Val(p, 40);
    LELEVal(p[40..48]);
  }

  /** The pending session's own response is recognised. */
  lemma {:induction false} OwnIsBinding(c: Conn, r: Reply, id: nat)
    requires 0 < id <= ALL_ONES
    ensures var raw := Raw(c, CMD_SESSION_SETUP, id, r);
      var p := Protected(c.active, c.dialect == SMB311, r.nonce, raw);
      p.Some? && |p.value| >= HEADER_SIZE && IsBindingResponse(id, p.value)
  {
    hide U64, Packet.Command, Encrypt, Signed, Raw, IsInvalid, HasMagic, HasFlag;
    var raw := Raw(c, CMD_SESSION_SETUP, id, r);
    RawReads(c, CMD_SESSION_SETUP, id, r);
    ProtectedLength(c.active, c.dialect == SMB311, r.nonce, raw);
    if c.active.Some? && c.active.value.signer.Some? { SignedReads(c.active.value.signer.value, raw); }
  }

  lemma {:induction false} SendKeepsPending(env: Env, c: Conn, command: nat, sid: nat, r: Reply)
    requires c.pending.Some? && SessionsSound(c) && Fresh(c, c.pending.value.id) && command < 0x1_0000
    requires command != CMD_SESSION_SETUP || sid == 0 || sid in c.sessions
    ensures Send(env, c, command, sid, r).pending == c.pending
  {
    hide Raw, Protected, Chain, IsBindingResponse, Fresh, SessionsSound;
    OthersAreNotBinding(c, command, sid, r, c.pending.value.id);
    ProtectedLength(c.active, c.dialect == SMB311, r.nonce, Raw(c, command, sid, r));
  }

  /** Requests of other business: no new binding, and not this one's second message. */
  predicate Unrelated(r: Request, id: nat) {
    && (r.SessionSetup? ==> r.sid != 0 && r.sid != id)
    && (r.Command? ==> r.command < 0x1_0000 && r.command != CMD_SESSION_SETUP)
  }

  lemma {:induction false} UnrelatedKeepsPending(env: Env, c: Conn, r: Request)
    requires Inv(c) && !c.dead && c.phase.Active? && c.pending.Some? && Fresh(c, c.pending.value.id)
    requires Unrelated(r, c.pending.value.id)
    ensures var d := Step(env, c, r);
      d.pending == c.pending && d.sessions == c.sessions && d.dialect == c.dialect && d.negotiateHash == c.negotiateHash
  {
    hide Send, Fresh, NegotiateStep, FirstSetup, SecondSetup, FirstBinding, SecondBinding;
    match r {
      case Smb1Negotiate(reply) =>
        SendFrame(env, c, Smb1Reply(c), 0, reply); SendKeepsPending(env, c, Smb1Reply(c), 0, reply);
      case Negotiate(_, _, _, _, _, reply) =>
        NegotiateKeepsInv(env, c, r);
        SendFrame(env, c, CMD_NEGOTIATE, 0, reply); SendKeepsPending(env, c, CMD_NEGOTIATE, 0, reply);
      case Echo(reply) =>
        SendFrame(env, c, CMD_ECHO, 0, reply); SendKeepsPending(env, c, CMD_ECHO, 0, reply);
      case Command(sid, command, reply) =>
        var d := c.(active := if sid in c.sessions then Some(c.sessions[sid]) else None);
        FreshActive(c, d, c.pending.value.id);
        SendFrame(env, d, command, 0, reply); SendKeepsPending(env, d, command, 0, reply);
      case SessionSetup(_, sid, _, _, _, _, _, reply) =>
        SendFrame(env, c, CMD_SESSION_SETUP, 0, reply); SendKeepsPending(env, c, CMD_SESSION_SETUP, 0, reply);
        if sid in c.sessions {
          var d := c.(active := Some(c.sessions[sid]));
          FreshActive(c, d, c.pending.value.id);
          SendFrame(env, d, CMD_SESSION_SETUP, sid, reply); SendKeepsPending(env, d, CMD_SESSION_SETUP, sid, reply);
        }
    }
  }

  lemma {:induction false} FreshActive(c: Conn, d: Conn, id: nat)
    requires d == c.(active := d.active) && Fresh(c, id)
    ensures Fresh(d, id)
  {
  }

  function RunFrom(env: Env, c: Conn, rs: seq<Request>): Conn {
    if rs == [] then c else Step(env, RunFrom(env, c, rs[..|rs| - 1]), rs[|rs| - 1])
  }

  lemma {:induction false} UnrelatedRun(env: Env, c: Conn, rs: seq<Request>)
    requires Inv(c) && !c.dead && c.phase.Active? && c.pending.Some? && Fresh(c, c.pending.value.id)
    requires forall r :: r in rs ==> Unrelated(r, c.pending.value.id)
    ensures var d := RunFrom(env, c, rs);
      !d.dead ==>
        Inv(d) && d.phase.Active? && d.pending == c.pending && d.sessions == c.sessions && d.dialect == c.dialect
  {
    hide Step, Fresh, Unrelated;
    if rs != [] {
      var prev, r := rs[..|rs| - 1], rs[|rs| - 1];
      var d := RunFrom(env, c, prev);
      DeadStays(env, d, r);
      UnrelatedRun(env, c, prev);
      if !d.dead {
        FreshSame(c, d);
        UnrelatedKeepsPending(env, d, r);
        StepKeepsInv(env, d, r);
        StepFrozen(env, d, r);
      }
    }
  }

  lemma {:induction false} FreshSame(c: Conn, d: Conn)
    requires c.pending.Some? && Fresh(c, c.pending.value.id)
    requires d.pending == c.pending && d.sessions == c.sessions && d.dialect == c.dialect
    ensures Fresh(d, d.pending.value.id)
  {
  }

  /** The first message of a binding leaves the hash over it and its response. */
  lemma {:induction false} BindingStarts(env: Env, c: Conn, r: Request)
    requires Inv(c) && !c.dead && c.phase.Active? && c.dialect == SMB311
    requires r.SessionSetup? && r.sid == 0 && r.accepted && r.valid && r.challenged && 0 < r.drawn <= ALL_ONES
    ensures var d := Step(env, c, r);
      && !d.dead && |d.sent| == |c.sent| + 1 && d.sessions == c.sessions && d.phase.Active? && d.dialect == c.dialect
      && d.pending == Some(Pending(r.drawn, Chain(env, Chain(env, c.negotiateHash, r.pkt), d.sent[|c.sent|])))
  {
    hide Raw, Protected, IsBindingResponse, Chain, SessionsSound;
    var c1 := c.(pending := Some(Pending(r.drawn, Chain(env, c.negotiateHash, r.pkt))));
    OwnIsBinding(c1, r.reply, r.drawn);
    assert Step(env, c, r) == Send(env, c1, CMD_SESSION_SETUP, r.drawn, r.reply);
  }

  /** In any reachable state, a session bound to an active SMB 3.1.1 connection gets
      keys from the hash of the negotiation extended by its own first request, that
      request's response and its own second request, whatever else the connection
      did in between. */
  lemma {:induction false} BoundSessionHash(env: Env, c: Conn, first: Request, mid: seq<Request>, second: Request)
    requires Inv(c) && !c.dead && c.phase.Active? && c.dialect == SMB311
    requires first.SessionSetup? && first.sid == 0 && first.accepted && first.valid && first.challenged && Fresh(c, first.drawn)
    requires forall r :: r in mid ==> Unrelated(r, first.drawn)
    requires second.SessionSetup? && second.sid == first.drawn && second.accepted && second.valid
    requires second.auth.User? && !second.auth.guest
    ensures var c1 := Step(env, c, first);
      var e := RunFrom(env, c1, mid);
      var d := Step(env, e, second);
      && |c1.sent| == |c.sent| + 1
      && (!e.dead ==>
        && first.drawn in d.sessions
        && d.sessions[first.drawn].preauth == Fold(env, c.negotiateHash, [first.pkt, c1.sent[|c.sent|], second.pkt]))
  {
    hide Fresh, SessionsSound, Unrelated, Chain, Fold, Raw, Protected, NegotiateStep, RunFrom;
    FreshPositive(c, first.drawn);
    BindingStarts(env, c, first);
    StepKeepsInv(env, c, first);
    var c1 := Step(env, c, first);
    FreshPending(c, first.drawn, c1.pending);
    FreshSame(c.(pending := c1.pending), c1);
    UnrelatedRun(env, c1, mid);
    var e := RunFrom(env, c1, mid);
    if !e.dead {
      SecondBinds(env, e, second);
      FoldThree(env, c.negotiateHash, first.pkt, c1.sent[|c.sent|], second.pkt);
    }
  }

  /** The same from the wire: with the run that led to the binding, the keys come from
      everything exchanged up to the last negotiate before activation, the binding's
      first request, its response and its second request. */
  lemma {:induction false} BoundSessionWire(env: Env, rs: seq<Request>, first: Request, mid: seq<Request>, second: Request)
    requires forall r :: r in rs ==> OneShaContext(r)
    requires first.SessionSetup? && first.sid == 0 && first.accepted && first.valid && first.challenged
    requires forall r :: r in mid ==> Unrelated(r, first.drawn)
    requires second.SessionSetup? && second.sid == first.drawn && second.accepted && second.valid
    requires second.auth.User? && !second.auth.guest
    ensures var c := Run(env, rs);
      var c1 := Step(env, c, first);
      var e := RunFrom(env, c1, mid);
      var d := Step(env, e, second);
      !e.dead && c.phase.Active? && c.dialect == SMB311 && Fresh(c, first.drawn) ==>
        && |c1.sent| == |c.sent| + 1 && first.drawn in d.sessions
        && d.sessions[first.drawn].preauth ==
             Fold(env, Zeros(64), Wire(env, NegotiatedAt(env, rs)) + [first.pkt, c1.sent[|c.sent|], second.pkt])
  {
    hide Step, RunFrom, Fold, Wire, Fresh, Unrelated, NegotiatedAt, Run;
    var c := Run(env, rs);
    var c1 := Step(env, c, first);
    DeadStays(env, c, first);
    DeadStaysRun(env, c1, mid);
    if !RunFrom(env, c1, mid).dead && c.phase.Active? && c.dialect == SMB311 && Fresh(c, first.drawn) {
      RunKeepsInv(env, rs);
      BoundSessionHash(env, c, first, mid, second);
      NegotiateHashIsFold(env, rs);
      FoldConcat(env, Zeros(64), Wire(env, NegotiatedAt(env, rs)), [first.pkt, c1.sent[|c.sent|], second.pkt]);
    }
  }

  lemma {:induction false} DeadStaysRun(env: Env, c: Conn, rs: seq<Request>)
    ensures c.dead ==> RunFrom(env, c, rs).dead
  {
    hide Step;
    if rs != [] {
      DeadStaysRun(env, c, rs[..|rs| - 1]);
      DeadStays(env, RunFrom(env, c, rs[..|rs| - 1]), rs[|rs| - 1]);
    }
  }

  lemma {:induction false} FreshPositive(c: Conn, id: nat)
    requires Fresh(c, id)
    ensures 0 < id <= ALL_ONES
  {
  }

  lemma {:induction false} FreshPending(c: Conn, id: nat, p: Option<Pending>)
    requires Fresh(c, id)
    ensures Fresh(c.(pending := p), id)
  {
  }

  lemma {:induction false} SecondBinds(env: Env, c: Conn, r: Request)
    requires Inv(c) && !c.dead && c.phase.Active? && c.dialect == SMB311 && c.pending.Some?
    requires r.SessionSetup? && r.sid == c.pending.value.id && r.sid != 0 && r.accepted && r.valid
    requires r.auth.User? && !r.auth.guest
    ensures var d := Step(env, c, r);
      r.sid in d.sessions && d.sessions[r.sid].preauth == Chain(env, c.pending.value.hash, r.pkt)
  {
    hide Send, Chain, SessionsSound;
    var p := c.pending.value;
    var h := Chain(env, p.hash, r.pkt);
    var s := NewSession(env, c, p.id, r.auth, h);
    SendFrame(env, WithSession(c.(pending := Some(p.(hash := h))), s), CMD_SESSION_SETUP, p.id, r.reply);
  }

  lemma {:induction false} FoldThree(env: Env, hash: Hash, a: Bytes, b: Bytes, c: Bytes)
    ensures Fold(env, hash, [a, b, c]) == Chain(env, Chain(env, Chain(env, hash, a), b), c)
  {
    assert [a, b, c] == [a] + ([b] + [c]);
    FoldTwo(env, hash, a, [b] + [c]);
    FoldTwo(env, Chain(env, hash, a), b, [c]);
    FoldOne(env, Chain(env, Chain(env, hash, a), b), c);
  }
}
