/** The connection object of the server: the handlers that update its fields, each
    proved against the transition it makes in the state machine. */
module Connection {
  import opened Bytes
  import opened ConnSpec
  import opened Packet
  import opened Wrappers
  import T = Transform

  /** The dialect loop of a negotiate. */
  method ChooseDialect(dialects: seq<nat>) returns (d: nat)
    ensures d == Choose(dialects)
    ensures forall e <- dialects :: SMB2_WILDCARD < e <= SMB311 ==> e <= d
    ensures (d in dialects && SMB2_WILDCARD < d <= SMB311)
            || (d == SMB210 && forall e <- dialects :: e <= SMB2_WILDCARD || e > SMB311)
  {
    BestIsLargest(dialects, SMB2_WILDCARD);
    d := SMB2_WILDCARD;
    for i := 0 to |dialects|
      invariant Best(dialects[i..], d) == Best(dialects, SMB2_WILDCARD)
    {
      assert dialects[i..][1..] == dialects[i + 1..];
      if d < dialects[i] && dialects[i] <= SMB311 {
        d := dialects[i];
      }
    }
    assert dialects[|dialects|..] == [];
    if d == SMB2_WILDCARD {
      d := SMB210;
    }
  }

  /** The cipher loop of an encryption context. */
  method ChooseCipher(ids: seq<nat>, had: nat) returns (id: nat)
    ensures id == FirstKnown(ids, had)
  {
    for i := 0 to |ids|
      invariant FirstKnown(ids[i..], had) == FirstKnown(ids, had)
    {
      assert ids[i..][1..] == ids[i + 1..];
      if ids[i] == T.AES128_CCM || ids[i] == T.AES128_GCM {
        return ids[i];
      }
    }
    assert ids[|ids|..] == [];
    id := had;
  }

  class Connection {
    const env: Env
    var dead: bool
    var serverState: Phase
    var usesSession: bool
    var spnego: bool
    var dialect: nat
    var encryptionCap: bool
    var cipherId: nat
    var preauthIntegrityHashId: nat
    var preauthIntegrityHashValue: Hash
    var negotiatePreauthHash: Hash
    var pendingSetup: Option<Pending>
    var session: Option<Session>
    var sessions: map<nat, Session>
    var sent: seq<Bytes>

    function State(): Conn
      reads this
    {
      Conn(dead, serverState, usesSession, spnego, dialect, encryptionCap, cipherId, preauthIntegrityHashId,
        preauthIntegrityHashValue, negotiatePreauthHash, pendingSetup, session, sessions, sent)
    }

    constructor (env: Env)
      ensures this.env == env && State() == Initial
    {
      this.env := env;
      dead, serverState, usesSession, spnego := false, Negotiating, false, false;
      dialect, encryptionCap, cipherId, preauthIntegrityHashId := 0, false, T.AES128_GCM, 0;
      preauthIntegrityHashValue, negotiatePreauthHash := Zeros(64), Zeros(64);
      pendingSetup, session, sessions, sent := None, None, map[], [];
    }

    method CalcPreauthHash(pkt: Bytes)
      modifies this`preauthIntegrityHashValue
      ensures State() == Hashed(env, old(State()), pkt)
    {
      if dialect == SMB311 {
        if preauthIntegrityHashId == SHA512 {
          preauthIntegrityHashValue := env.sha512(preauthIntegrityHashValue + pkt);
        }
      }
    }

    /** Encodes, protects and sends one response, and chains the hashes. */
    method SendPacket(command: nat, sid: nat, r: Reply)
      modifies this
      ensures State() == Send(env, old(State()), command, sid, r)
    {
      hide Raw, Protected, Chain, IsBindingResponse, HeaderBytes;
      var raw := EncodePacketRaw(command, sid, r);
      ProtectedLength(session, dialect == SMB311, r.nonce, raw);
      var p := ProtectPacket(raw, r.nonce);
      if p.None? {
        dead := true;
        return;
      }
      ghost var c := State();
      if serverState != Active {
        CalcPreauthHash(p.value);
      }
      if pendingSetup.Some? && dialect == SMB311 && IsBindingResponse(pendingSetup.value.id, p.value) {
        pendingSetup := Some(pendingSetup.value.(hash := Chain(env, pendingSetup.value.hash, p.value)));
      }
      sent := sent + [p.value];
    }

    method EncodePacketRaw(command: nat, sid: nat, r: Reply) returns (raw: Bytes)
      ensures raw == Raw(State(), command, sid, r)
    {
      var hdr := r.hdr.(command := command, next := 0, sessionId := sid);
      if session.Some? && usesSession {
        if hdr.sessionId == 0 {
          hdr := hdr.(sessionId := session.value.id);
        }
      }
      raw := HeaderBytes(hdr, Zeros(HEADER_SIZE)) + r.body;
    }

    method ProtectPacket(raw: Bytes, nonce: Nonce) returns (p: Option<Bytes>)
      requires |raw| >= HEADER_SIZE
      ensures p == Protected(session, dialect == SMB311, nonce, raw)
    {
      hide IsInvalid, Signed, Encrypt, Packet.Command, HasFlag;
      p := Some(raw);
      if session.Some? {
        var s := session.value;
        if IsInvalid(raw) {
          return None;
        }
        if Packet.Command(raw) == CMD_SESSION_SETUP {
          if HasFlag(raw, FLAG_RESPONSE) && !s.guest && s.signer.Some? {
            p := Some(Signed(s.signer.value, raw));
          }
        } else if s.encrypt {
          p := if s.encrypter.Some? then Some(Encrypt(s, dialect == SMB311, nonce, raw)) else None;
        } else if !s.guest {
          p := if s.signer.Some? then Some(Signed(s.signer.value, raw)) else None;
        }
      }
    }

    method ReadNegotiateContexts(pkt: Bytes, contexts: seq<Context>)
      modifies this
      ensures State() == ReadContexts(env, old(State()), pkt, contexts)
    {
      hide FirstKnown, Hashed;
      for i := 0 to |contexts|
        invariant ReadContexts(env, State(), pkt, contexts[i..]) == ReadContexts(env, old(State()), pkt, contexts)
      {
        assert contexts[i..][1..] == contexts[i + 1..];
        match contexts[i] {
          case Broken =>
            dead := true;
            return;
          case Preauth(algs) =>
            if |algs| != 1 {
              dead := true;
              return;
            }
            preauthIntegrityHashId := algs[0];
            CalcPreauthHash(pkt);
          case Ciphers(ids) =>
            cipherId := ChooseCipher(ids, cipherId);
          case Other =>
        }
      }
      assert contexts[|contexts|..] == [];
    }

    method Negotiate(r: Request)
      requires r.Negotiate?
      modifies this
      ensures State() == NegotiateStep(env, old(State()), r)
    {
      hide Send, Settled, Offered, Answered;
      if serverState != Negotiating && usesSession {
        SendPacket(CMD_NEGOTIATE, 0, r.reply);
        return;
      }
      if !r.decodes {
        dead := true;
        return;
      }
      Offer(r);
      Settle(r);
      if dead {
        return;
      }
      Answer(r.reply);
    }

    method Offer(r: Request)
      requires r.Negotiate?
      modifies this
      ensures State() == Offered(old(State()), r)
    {
      var d := ChooseDialect(r.dialects);
      dialect, encryptionCap, spnego := d, r.encryptionCap, true;
    }

    /** The contexts of an SMB 3.1.1 negotiate; other dialects must be known ones. */
    method Settle(r: Request)
      requires r.Negotiate?
      modifies this
      ensures State() == Settled(env, old(State()), r)
    {
      hide ReadContexts;
      if dialect == SMB311 {
        ReadNegotiateContexts(r.pkt, r.contexts);
      } else {
        dead := !Supported(dialect);
      }
    }

    method Answer(r: Reply)
      modifies this
      ensures State() == Answered(env, old(State()), r)
    {
      hide Send;
      SendPacket(CMD_NEGOTIATE, 0, r);
      negotiatePreauthHash := preauthIntegrityHashValue;
    }

    method SetSession(s: Session)
      modifies this`sessions, this`session
      ensures State() == WithSession(old(State()), s)
    {
      sessions := sessions[s.id := s];
      session := Some(s);
    }

    /** The keys of an authenticated user's session, by dialect. */
    method DeriveSessionKeys(s: Session, key: Bytes, preauthHash: Hash) returns (t: Session)
      ensures t == WithKeys(env, State(), s, key, preauthHash)
    {
      t := s;
      if dialect == SMB202 || dialect == SMB210 {
        var mac := env.signer(dialect, key, Zeros(64));
        t := t.(signer := Some(mac), verifier := Some(mac));
      } else if dialect == SMB300 || dialect == SMB302 {
        var mac := env.signer(dialect, key, Zeros(64));
        t := t.(cipherId := T.AES128_CCM, signer := Some(mac), verifier := Some(mac));
        t := t.(encrypter := Some(env.cipher(T.AES128_CCM, dialect, key, Zeros(64), true)),
                decrypter := Some(env.cipher(T.AES128_CCM, dialect, key, Zeros(64), false)));
      } else if dialect == SMB311 {
        var mac := env.signer(dialect, key, preauthHash);
        t := t.(cipherId := cipherId, preauth := preauthHash, signer := Some(mac), verifier := Some(mac));
        if cipherId == T.AES128_CCM || cipherId == T.AES128_GCM {
          t := t.(encrypter := Some(env.cipher(cipherId, dialect, key, preauthHash, true)),
                  decrypter := Some(env.cipher(cipherId, dialect, key, preauthHash, false)));
        }
      }
    }

    method MakeSession(id: nat, user: Auth, preauthHash: Hash) returns (s: Session)
      requires user.User?
      ensures s == NewSession(env, State(), id, user, preauthHash)
    {
      hide WithKeys;
      s := Session(id, user.guest, !user.guest && ShouldEncrypt(env, State()), 0, Zeros(64), None, None, None, None);
      if !user.guest {
        s := DeriveSessionKeys(s, user.key, preauthHash);
      }
    }

    method SessionServerSetup(r: Request)
      requires r.SessionSetup?
      modifies this
      ensures State() == FirstSetup(env, old(State()), r)
    {
      hide Send, Hashed;
      if !r.accepted {
        SendPacket(CMD_SESSION_SETUP, 0, r.reply);
        return;
      }
      CalcPreauthHash(r.pkt);
      if !r.valid || !spnego {
        HashedKeeps(env, old(State()), r.pkt);
        dead := true;
        return;
      }
      HashedKeeps(env, old(State()), r.pkt);
      if !r.challenged {
        SendPacket(CMD_SESSION_SETUP, 0, r.reply);
        return;
      }
      serverState := Challenged;
      SendPacket(CMD_SESSION_SETUP, r.drawn, r.reply);
    }

    method SessionServerSetupChallenge(r: Request)
      requires r.SessionSetup?
      modifies this
      ensures State() == SecondSetup(env, old(State()), r)
    {
      hide Send, Hashed, NewSession;
      if !r.accepted {
        SendPacket(CMD_SESSION_SETUP, 0, r.reply);
        return;
      }
      if !r.valid {
        dead := true;
        return;
      }
      CalcPreauthHash(r.pkt);
      HashedKeeps(env, old(State()), r.pkt);
      if !spnego {
        dead := true;
        return;
      }
      if r.auth.Denied? {
        serverState := Setup;
        SendPacket(CMD_SESSION_SETUP, 0, r.reply);
        return;
      }
      var s := MakeSession(r.sid, r.auth, preauthIntegrityHashValue);
      SetSession(s);
      serverState := Active;
      SendPacket(CMD_SESSION_SETUP, r.sid, r.reply);
      if !dead {
        usesSession := true;
      }
    }

    method SessionSetupNewBinding(r: Request)
      requires r.SessionSetup?
      modifies this
      ensures State() == FirstBinding(env, old(State()), r)
    {
      hide Send;
      if !r.accepted {
        SendPacket(CMD_SESSION_SETUP, 0, r.reply);
        return;
      }
      if !r.valid {
        dead := true;
        return;
      }
      if !r.challenged {
        SendPacket(CMD_SESSION_SETUP, 0, r.reply);
        return;
      }
      var bindHash := negotiatePreauthHash;
      if dialect == SMB311 {
        bindHash := env.sha512(bindHash + r.pkt);
      }
      pendingSetup := Some(Pending(r.drawn, bindHash));
      SendPacket(CMD_SESSION_SETUP, r.drawn, r.reply);
    }

    method SessionSetupCompleteBinding(r: Request)
      requires r.SessionSetup? && pendingSetup.Some?
      modifies this
      ensures State() == SecondBinding(env, old(State()), r)
    {
      hide Send, NewSession;
      var ps := pendingSetup.value;
      if !r.accepted {
        pendingSetup := None;
        SendPacket(CMD_SESSION_SETUP, 0, r.reply);
        return;
      }
      if !r.valid {
        pendingSetup := None;
        dead := true;
        return;
      }
      if dialect == SMB311 {
        ps := ps.(hash := env.sha512(ps.hash + r.pkt));
      }
      if r.auth.Denied? {
        pendingSetup := None;
        SendPacket(CMD_SESSION_SETUP, 0, r.reply);
        return;
      }
      var s := MakeSession(ps.id, r.auth, ps.hash);
      NewSessionId(env, State(), ps.id, r.auth, ps.hash);
      pendingSetup := Some(ps);
      SetSession(s);
      SendPacket(CMD_SESSION_SETUP, s.id, r.reply);
      pendingSetup := None;
    }

    method SessionSetup(r: Request)
      requires r.SessionSetup?
      modifies this
      ensures State() == SetupStep(env, old(State()), r)
    {
      hide Send, FirstSetup, SecondSetup, FirstBinding, SecondBinding;
      if usesSession {
        if r.sid == 0 {
          SessionSetupNewBinding(r);
        } else if pendingSetup.Some? && pendingSetup.value.id == r.sid {
          SessionSetupCompleteBinding(r);
        } else if r.sid !in sessions {
          SendPacket(CMD_SESSION_SETUP, 0, r.reply);
        } else {
          session := Some(sessions[r.sid]);
          SendPacket(CMD_SESSION_SETUP, session.value.id, r.reply);
        }
        return;
      }
      match serverState {
        case Negotiating => SessionServerSetup(r);
        case Active => dead := true;
        case _ => SessionServerSetupChallenge(r);
      }
    }

    /** Handles one request. */
    method Handle(r: Request)
      modifies this
      ensures State() == Step(env, old(State()), r)
    {
      hide Send, NegotiateStep, SetupStep;
      if dead {
        return;
      }
      match r {
        case Smb1Negotiate(reply) =>
          SendPacket(if serverState != Negotiating && usesSession then SMB1_NEGOTIATE else CMD_NEGOTIATE, 0, reply);
        case Negotiate(_, _, _, _, _, _) => Negotiate(r);
        case SessionSetup(_, _, _, _, _, _, _, _) => SessionSetup(r);
        case Echo(reply) => SendPacket(CMD_ECHO, 0, reply);
        case Command(sid, command, reply) =>
          if usesSession {
            session := if sid in sessions then Some(sessions[sid]) else None;
          }
          SendPacket(command, 0, reply);
      }
    }
  }

  lemma {:induction false} NewSessionId(env: Env, c: Conn, id: nat, user: Auth, hash: Hash)
    requires user.User?
    ensures NewSession(env, c, id, user, hash).id == id
  {
  }

  lemma {:induction false} HashedKeeps(env: Env, c: Conn, pkt: Bytes)
    ensures Hashed(env, c, pkt) == c.(hash := Hashed(env, c, pkt).hash)
  {
  }
}
