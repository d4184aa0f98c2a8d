/** SMB3 encryption: the TRANSFORM_HEADER frame around a sealed packet, and the
    receiver's decision to deliver, decrypt or drop what arrives. */
module Transform {
  import opened Bytes
  import opened BlockModes
  import opened CcmSpec
  import opened CcmImpl
  import opened Packet
  import opened Slices
  import opened Wrappers

  const MAX_DIRECT_TCP_SIZE := 0xffffff
  const ENCRYPTED := 1
  const AES128_CCM := 1
  const AES128_GCM := 2

  // --------------------------------------------------------------------- AEADs

  /** An authenticated cipher with 16-byte tags, as a pair of functions. */
  datatype Aead = Aead(nonceSize: nat, seal: (Bytes, Bytes, Bytes) -> Bytes, open: (Bytes, Bytes, Bytes) -> Option<Bytes>)

  ghost predicate TagsWith16(a: Aead) {
    a.nonceSize <= 16 && forall n, x, ad {:trigger a.seal(n, x, ad)} :: |a.seal(n, x, ad)| == |x| + 16
  }

  /** The decrypter opens exactly what the encrypter of the other side sealed. */
  ghost predicate Matching(enc: Aead, dec: Aead) {
    && TagsWith16(enc) && dec.nonceSize == enc.nonceSize
    && (forall n, c, ad, x {:trigger dec.open(n, c, ad), enc.seal(n, x, ad)} ::
          |n| == enc.nonceSize && |x| > 0 ==> (dec.open(n, c, ad) == Some(x) <==> c == enc.seal(n, x, ad)))
  }

  /** The CCM of the server with 11-byte nonces and 16-byte tags. */
  function CcmAead(e: Cipher): Aead {
    var p := Params(11, 16);
    Aead(11,
      (n: Bytes, x: Bytes, ad: Bytes) => if |n| == 11 then Sealed(e, p, n, ad, x) else x + Zeros(16),
      (n: Bytes, c: Bytes, ad: Bytes) => if |n| == 11 && |c| > 16 then Opened(e, p, n, ad, c) else None)
  }

  lemma {:induction false} CcmMatches(e: Cipher)
    ensures Matching(CcmAead(e), CcmAead(e))
  {
    hide Sealed, Opened;
    var a, p := CcmAead(e), Params(11, 16);
    forall n, x, ad ensures |a.seal(n, x, ad)| == |x| + 16 {
      if |n| == 11 { assert a.seal(n, x, ad) == Sealed(e, p, n, ad, x); }
    }
    forall n, c, ad, x | |n| == 11 && |x| > 0
      ensures a.open(n, c, ad) == Some(x) <==> c == a.seal(n, x, ad)
    {
      if |c| > 16 { OpenedIffSealed(e, p, n, ad, c, x); }
    }
  }

  // ------------------------------------------------------------------- the frame

  /** A session as the frame code sees it; guests and SMB 2.x sessions have no decrypter. */
  datatype Session = Session(id: nat, cipherId: nat, encrypter: Aead, decrypter: Option<Aead>)

  /** The authenticated part of the header: nonce field, size, flags or algorithm, session. */
  function AuthData(s: Session, is311: bool, nonce: Bytes, size: nat): (r: Bytes)
    requires |nonce| <= 16
    ensures |r| == 32
  {
    nonce + Zeros(16 - |nonce|) + LE(4, size) + Zeros(2) + LE(2, if is311 then ENCRYPTED else s.cipherId) + LE(8, s.id)
  }

  /** A frame from its authenticated data and the sealed packet, tag first. */
  function Frame(ad: Bytes, c: Bytes): (r: Bytes)
    requires |ad| == 32 && |c| >= 16
    ensures |r| == 36 + |c|
  {
    [0xfd, 0x53, 0x4D, 0x42] + c[|c| - 16..] + ad + c[..|c| - 16]
  }

  function Encrypted(s: Session, is311: bool, nonce: Bytes, pkt: Bytes): Bytes
    requires |nonce| <= 16 && |s.encrypter.seal(nonce, pkt, AuthData(s, is311, nonce, |pkt|))| >= 16
  {
    var ad := AuthData(s, is311, nonce, |pkt|);
    Frame(ad, s.encrypter.seal(nonce, pkt, ad))
  }

  /** The header fields written into a zeroed buffer. */
  method PutHeader(c: array<byte>, s: Session, is311: bool, nonce: Bytes, size: nat)
    requires c.Length >= 68 && |nonce| <= 16 && c[..] == Zeros(c.Length)
    modifies c
    ensures c[..] == [0xfd, 0x53, 0x4D, 0x42] + Zeros(16) + AuthData(s, is311, nonce, size) + Zeros(c.Length - 52)
  {
    hide LE;
    CopyInto(c, 0, [0xfd, 0x53, 0x4D, 0x42]);
    CopyInto(c, 20, nonce);
    CopyInto(c, 36, LE(4, size));
    CopyInto(c, 42, LE(2, if is311 then ENCRYPTED else s.cipherId));
    CopyInto(c, 44, LE(8, s.id));
  }

  /** Moves the tag behind the sealed packet into the header and cuts it off. */
  method MoveTag(c: array<byte>, ghost ad: Bytes, ghost sealed: Bytes) returns (r: Bytes)
    requires |ad| == 32 && |sealed| >= 16
    requires c[..] == [0xfd, 0x53, 0x4D, 0x42] + Zeros(16) + ad + sealed
    modifies c
    ensures r == Frame(ad, sealed)
  {
    assert c[c.Length - 16..] == sealed[|sealed| - 16..];
    CopyInto(c, 4, c[c.Length - 16..]);
    r := c[..c.Length - 16];
  }

  /** Encryption with any AEAD that seals into the spare capacity behind the header. */
  method Encrypt(s: Session, is311: bool, nonce: Bytes, pkt: Bytes) returns (r: Bytes)
    requires TagsWith16(s.encrypter) && |nonce| == s.encrypter.nonceSize
    ensures |s.encrypter.seal(nonce, pkt, AuthData(s, is311, nonce, |pkt|))| >= 16
    ensures r == Encrypted(s, is311, nonce, pkt)
  {
    hide AuthData;
    var c := new byte[52 + |pkt| + 16](_ => 0);
    assert c[..] == Zeros(c.Length);
    PutHeader(c, s, is311, nonce, |pkt|);
    ghost var ad := AuthData(s, is311, nonce, |pkt|);
    assert c[20..52] == ad;
    var sealed := s.encrypter.seal(nonce, pkt, c[20..52]);
    CopyInto(c, 52, sealed);
    r := MoveTag(c, ad, sealed);
  }

  /** The same with the server's own CCM object: its return value is ignored, and
      the frame is right because the buffer has room for the sealed packet. */
  method EncryptCcm(ccm: Ccm, s: Session, is311: bool, nonce: Bytes, pkt: Slice) returns (r: Option<Bytes>)
    requires ccm.Valid() && ccm.p == Params(11, 16) && |nonce| == 11
    requires pkt.Valid() && pkt.arr != ccm.mac.ci && s.encrypter == CcmAead(ccm.e)
    modifies ccm.mac, ccm.mac.ci
    ensures r.None? <==> pkt.len >= Pow256(4)
    ensures r.Some? ==>
      var x := old(pkt.Get());
      && |s.encrypter.seal(nonce, x, AuthData(s, is311, nonce, |x|))| >= 16
      && r.value == Encrypted(s, is311, nonce, x)
  {
    hide AuthData, Sealed, Written, Opened, Pow256;
    var c := new byte[52 + pkt.len + 16](_ => 0);
    assert c[..] == Zeros(c.Length);
    PutHeader(c, s, is311, nonce, pkt.len);
    ghost var ad, x := AuthData(s, is311, nonce, pkt.len), pkt.Get();
    assert c[20..52] == ad;
    ghost var was := c[..];
    var ret := ccm.Seal(Slice(c, 0, 52, c.Length), nonce, pkt, c[20..52]);
    if ret.None? {
      return None;
    }
    ghost var w := Written(ccm.e, ccm.p, nonce, ad, x, false);
    assert c[..] == Splice(was, 52, w);
    WrittenIsSealed(ccm.e, ccm.p, nonce, ad, x);
    assert w == s.encrypter.seal(nonce, x, ad);
    var f := MoveTag(c, ad, w);
    r := Some(f);
  }

  // ------------------------------------------------------------------- receiving

  datatype Reason =
    | BrokenHeader | UnknownSession | Truncated | BadSize | NotEncrypted | UnknownAlgorithm | CipherMismatch
    | DecryptFailed | SizeMismatch | BrokenInner

  /** MissingKey: the session has no decrypter, and the original dereferences it. */
  datatype Received = Plain(pkt: Bytes) | Decrypted(pkt: Bytes) | Dropped(why: Reason) | MissingKey

  predicate NoncesFit(sessions: map<nat, Session>) {
    forall i :: i in sessions && sessions[i].decrypter.Some? ==> sessions[i].decrypter.value.nonceSize <= 16
  }

  predicate TransformInvalid(p: Bytes) {
    |p| < 116 || !HasMagic(p, 0xfd) || U32(p, 36) < 64
  }

  function Opening(a: Aead, p: Bytes): Option<Bytes>
    requires |p| >= 52 && a.nonceSize <= 16
  {
    a.open(p[20..36][..a.nonceSize], p[52..] + p[4..20], p[20..52])
  }

  function TryDecrypt(is311: bool, sessions: map<nat, Session>, p: Bytes): Received
    requires NoncesFit(sessions)
  {
    if !IsInvalid(p) then Plain(p)
    else if TransformInvalid(p) then Dropped(BrokenHeader)
    else if U64(p, 44) !in sessions then Dropped(UnknownSession)
    else if |p| < 68 then Dropped(Truncated)
    else if U32(p, 36) == 0 || U32(p, 36) > MAX_DIRECT_TCP_SIZE then Dropped(BadSize)
    else
      var s, mode := sessions[U64(p, 44)], U16(p, 42);
      if is311 && mode != ENCRYPTED then Dropped(NotEncrypted)
      else if !is311 && mode != AES128_CCM && mode != AES128_GCM then Dropped(UnknownAlgorithm)
      else if !is311 && s.cipherId != 0 && mode != s.cipherId then Dropped(CipherMismatch)
      else if s.decrypter.None? then MissingKey
      else
        match Opening(s.decrypter.value, p)
        case None => Dropped(DecryptFailed)
        case Some(m) =>
          if |m| != U32(p, 36) then Dropped(SizeMismatch)
          else if IsInvalid(m) then Dropped(BrokenInner)
          else Decrypted(m)
  }

  /** The decryption of a frame with the server's own CCM object: the tag is appended to
      the encrypted data, in the spare capacity behind the packet if there is any, and
      the result is opened in place. */
  method DecryptCcm(ccm: Ccm, pkt: Slice) returns (r: Option<Bytes>)
    requires ccm.Valid() && ccm.p == Params(11, 16)
    requires pkt.Valid() && pkt.len > 52 && pkt.arr != ccm.mac.ci
    modifies pkt.arr, ccm.mac, ccm.mac.ci
    ensures ccm.Valid()
    ensures r == if pkt.len - 52 < Pow256(4) then Opening(CcmAead(ccm.e), old(pkt.Get())) else None
  {
    hide Opened, Pow256, CcmAead;
    ghost var p := pkt.Get();
    var nonce, ad := pkt.Get()[20..31], pkt.Get()[20..52];
    var c := AppendTag(pkt);
    ghost var front := c.(len := 0).Get();
    assert front == [];
    var m := ccm.Open(c.(len := 0), nonce, c, ad);
    CcmOpening(ccm.e, p);
    ghost var o := Opened(ccm.e, ccm.p, nonce, ad, p[52..] + p[4..20]);
    assert m.Some? <==> pkt.len - 52 < Pow256(4) && o.Some?;
    if m.None? {
      return None;
    }
    assert m.value.Get() == front + o.value;
    assert front + o.value == o.value;
    r := Some(m.value.Get());
  }

  method AppendTag(pkt: Slice) returns (c: Slice)
    requires pkt.Valid() && pkt.len > 52
    modifies pkt.arr
    ensures c.Valid() && (c.arr == pkt.arr || fresh(c.arr)) && c.len == pkt.len - 36
    ensures c.Get() == old(pkt.Get())[52..] + old(pkt.Get())[4..20]
  {
    var tag := pkt.Get()[4..20];
    var tail;
    c, tail := SliceForAppend(Slice(pkt.arr, pkt.off + 52, pkt.len - 52, pkt.cap - 52), 16);
    CopyInto(tail.arr, tail.off, tag);
  }

  lemma {:induction false} CcmOpening(e: Cipher, p: Bytes)
    requires |p| > 52
    ensures Opening(CcmAead(e), p) == Opened(e, Params(11, 16), p[20..31], p[20..52], p[52..] + p[4..20])
  {
    hide Opened;
    assert p[20..36][..11] == p[20..31];
  }

  /** A packet sealed by one CCM object is opened by another with the same key. */
  method SealAndOpen(sealer: Ccm, opener: Ccm, s: Session, is311: bool, nonce: Bytes, pkt: Slice)
    returns (frame: Option<Bytes>, got: Option<Bytes>)
    requires sealer.Valid() && sealer.p == Params(11, 16) && opener.Valid() && opener.p == Params(11, 16)
    requires opener.mac != sealer.mac && opener.mac.ci != sealer.mac.ci && opener.e == sealer.e
    requires pkt.Valid() && pkt.len > 0 && pkt.arr != sealer.mac.ci && |nonce| == 11
    requires s.encrypter == CcmAead(sealer.e) && s.id <= ALL_ONES && s.cipherId < 0x1_0000
    modifies sealer.mac, sealer.mac.ci, opener.mac, opener.mac.ci
    ensures frame.None? <==> pkt.len >= Pow256(4)
    ensures frame.Some? ==> got == Some(old(pkt.Get()))
  {
    hide Pow256, CcmAead, Encrypted, AuthData;
    frame := EncryptCcm(sealer, s, is311, nonce, pkt);
    got := None;
    if frame.Some? {
      var buf := new byte[|frame.value|](i requires 0 <= i < |frame.value| => frame.value[i]);
      assert buf[0..buf.Length] == frame.value;
      FrameOpens(sealer.e, s, is311, nonce, old(pkt.Get()));
      got := DecryptCcm(opener, Slice(buf, 0, buf.Length, buf.Length));
    }
  }

  lemma {:induction false} FrameOpens(e: Cipher, s: Session, is311: bool, nonce: Bytes, x: Bytes)
    requires s.encrypter == CcmAead(e) && |nonce| == 11 && 0 < |x| < Pow256(4)
    requires s.id <= ALL_ONES && s.cipherId < 0x1_0000
    ensures TagsWith16(s.encrypter)
    ensures var p := Encrypted(s, is311, nonce, x); |p| == 52 + |x| && Opening(CcmAead(e), p) == Some(x)
  {
    CcmMatches(e);
    SmallPowers();
    hide Sealed, Opened, AuthData, Encrypted, Pow256;
    EncryptedReads(s, is311, nonce, x);
  }

  lemma {:induction false} AuthDataReads(s: Session, is311: bool, nonce: Bytes, size: nat)
    requires |nonce| <= 16
    ensures var ad := AuthData(s, is311, nonce, size);
      && ad[..|nonce|] == nonce && ad[16..20] == LE(4, size)
      && ad[22..24] == LE(2, if is311 then ENCRYPTED else s.cipherId) && ad[24..32] == LE(8, s.id)
  {
    hide LE;
  }

  lemma {:induction false} FrameReads(ad: Bytes, c: Bytes)
    requires |ad| == 32 && |c| >= 16
    ensures var p := Frame(ad, c);
      && p[..4] == [0xfd, 0x53, 0x4D, 0x42] && p[20..52] == ad && p[52..] + p[4..20] == c
      && p[20..36] == ad[..16] && p[36..40] == ad[16..20] && p[42..44] == ad[22..24] && p[44..52] == ad[24..32]
  {
    var p := Frame(ad, c);
    assert p[52..] == c[..|c| - 16] && p[4..20] == c[|c| - 16..] && p[20..52] == ad;
    assert p[20..36] == p[20..52][..16] && p[36..40] == p[20..52][16..20]
        && p[42..44] == p[20..52][22..24] && p[44..52] == p[20..52][24..32];
  }

  /** What the receiver reads from an encrypted packet's header. */
  lemma {:induction false} EncryptedReads(s: Session, is311: bool, nonce: Bytes, pkt: Bytes)
    requires TagsWith16(s.encrypter) && |nonce| == s.encrypter.nonceSize
    requires |pkt| < 0x1_0000_0000 && s.id <= ALL_ONES && s.cipherId < 0x1_0000
    ensures var p := Encrypted(s, is311, nonce, pkt); var ad := AuthData(s, is311, nonce, |pkt|);
      && |p| == 52 + |pkt| && IsInvalid(p) && HasMagic(p, 0xfd)
      && U32(p, 36) == |pkt| && U64(p, 44) == s.id && U16(p, 42) == (if is311 then ENCRYPTED else s.cipherId)
      && p[20..36][..|nonce|] == nonce && p[20..52] == ad
      && p[52..] + p[4..20] == s.encrypter.seal(nonce, pkt, ad)
  {
    hide AuthData, Frame, U16, U32, U64, LE;
    var ad := AuthData(s, is311, nonce, |pkt|);
    var c := s.encrypter.seal(nonce, pkt, ad);
    var p := Frame(ad, c);
    AuthDataReads(s, is311, nonce, |pkt|);
    FrameReads(ad, c);
    assert p[0] == p[..4][0] && p[1] == p[..4][1] && p[2] == p[..4][2] && p[3] == p[..4][3];
    U32At(p, 36, |pkt|); U64At(p, 44, s.id); U16At(p, 42, if is311 then ENCRYPTED else s.cipherId);
    assert p[20..36][..|nonce|] == ad[..16][..|nonce|] == ad[..|nonce|];
  }

  /** An encrypted packet reaches the peer as it was exactly when it is a valid packet
      of at least a header and within the transport limit. */
  lemma {:induction false} TransformRoundTripIff(s: Session, is311: bool, nonce: Bytes, pkt: Bytes,
                                                 peers: map<nat, Session>)
    requires s.id in peers && NoncesFit(peers) && peers[s.id].decrypter.Some?
    requires Matching(s.encrypter, peers[s.id].decrypter.value) && |nonce| == s.encrypter.nonceSize
    requires s.cipherId in {AES128_CCM, AES128_GCM} && peers[s.id].cipherId == s.cipherId
    requires s.id <= ALL_ONES && |pkt| < 0x1_0000_0000
    ensures TryDecrypt(is311, peers, Encrypted(s, is311, nonce, pkt)) == Decrypted(pkt)
            <==> 64 <= |pkt| <= MAX_DIRECT_TCP_SIZE && !IsInvalid(pkt)
  {
    hide AuthData, Frame, U16, U32, U64, LE, IsInvalid, HasMagic, Encrypted;
    EncryptedReads(s, is311, nonce, pkt);
    var p, ad := Encrypted(s, is311, nonce, pkt), AuthData(s, is311, nonce, |pkt|);
    if |pkt| >= 64 {
      assert Opening(peers[s.id].decrypter.value, p) == Some(pkt);
    }
  }

  /** Exactly which frames ask a session for a key it does not have: complete transform
      frames for it, of an allowed size and with the algorithm the session would use. */
  lemma {:induction false} MissingKeyIff(is311: bool, sessions: map<nat, Session>, p: Bytes)
    requires NoncesFit(sessions)
    ensures TryDecrypt(is311, sessions, p).MissingKey? <==>
      && |p| >= 116 && HasMagic(p, 0xfd) && 64 <= U32(p, 36) <= MAX_DIRECT_TCP_SIZE
      && U64(p, 44) in sessions && sessions[U64(p, 44)].decrypter.None?
      && (if is311 then U16(p, 42) == ENCRYPTED
          else U16(p, 42) in {AES128_CCM, AES128_GCM} && sessions[U64(p, 44)].cipherId in {0, U16(p, 42)})
  {
    hide U16, U32, U64;
    assert |p| >= 116 && HasMagic(p, 0xfd) ==> IsInvalid(p);
  }

  /** A frame of zeros around the fields of its header that asks a session without keys. */
  lemma {:induction false} FrameForKeylessSession(s: Session)
    requires s.decrypter.None?
    ensures var p: Bytes := [0xfd, 0x53, 0x4D, 0x42] + Zeros(32) + [64, 0, 0, 0, 0, 0, 1, 0, 1] + Zeros(71);
      TryDecrypt(true, map[1 := s], p).MissingKey?
  {
    var p: Bytes := [0xfd, 0x53, 0x4D, 0x42] + Zeros(32) + [64, 0, 0, 0, 0, 0, 1, 0, 1] + Zeros(71);
    assert p[36] == 64 && p[37] == p[38] == p[39] == 0 && p[42] == 1 && p[43] == 0;
    assert p[44] == 1 && p[45] == p[46] == p[47] == p[48] == p[49] == p[50] == p[51] == 0;
    MissingKeyIff(true, map[1 := s], p);
  }

  /** Whatever is delivered as decrypted is a valid packet whose frame is the sealing,
      under the receiving session's keys, of exactly that packet. */
  lemma {:induction false} DeliveredWasSealed(is311: bool, sessions: map<nat, Session>, p: Bytes, enc: Aead)
    requires NoncesFit(sessions) && TryDecrypt(is311, sessions, p).Decrypted?
    requires sessions[U64(p, 44)].decrypter.Some? ==> Matching(enc, sessions[U64(p, 44)].decrypter.value)
    ensures var m := TryDecrypt(is311, sessions, p).pkt;
      && 64 <= |m| <= MAX_DIRECT_TCP_SIZE && !IsInvalid(m)
      && p == Frame(p[20..52], enc.seal(p[20..20 + enc.nonceSize], m, p[20..52]))
  {
    hide U16, U32, U64, IsInvalid;
    var s, m := sessions[U64(p, 44)], TryDecrypt(is311, sessions, p).pkt;
    var n, c := p[20..20 + enc.nonceSize], p[52..] + p[4..20];
    assert p[20..36][..enc.nonceSize] == n;
    assert Opening(s.decrypter.value, p) == s.decrypter.value.open(n, c, p[20..52]) == Some(m);
    assert c == enc.seal(n, m, p[20..52]);
    assert c[|c| - 16..] == p[4..20] && c[..|c| - 16] == p[52..];
    assert p[..4] == [0xfd, 0x53, 0x4D, 0x42];
    assert p == p[..4] + p[4..20] + p[20..52] + p[52..];
  }
}
