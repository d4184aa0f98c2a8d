/** The SMB2 packet header: its field layout, the validity test every received
    header goes through, its encoder, and signing and verification in place. */
module Packet {
  import opened Bytes
  import opened Slices

  const HEADER_SIZE := 64
  const FLAG_RELATED := 4
  const FLAG_SIGNED := 8
  const SMB1_NEGOTIATE := 0x72
  const ALL_ONES := 0xFFFF_FFFF_FFFF_FFFF

  // ------------------------------------------------------------------- fields

  predicate HasMagic(p: Bytes, first: byte)
    requires |p| >= 4
  {
    p[0] == first && p[1] == 0x53 && p[2] == 0x4D && p[3] == 0x42
  }

  predicate IsSmb1(p: Bytes) {
    |p| >= 4 && HasMagic(p, 0xff)
  }

  function Command(p: Bytes): nat {
    if IsSmb1(p) then (if |p| < 5 then 0 else p[4])
    else if |p| < 14 then 0
    else U16(p, 12)
  }

  function MessageId(p: Bytes): nat
    requires |p| >= HEADER_SIZE
  {
    if IsSmb1(p) then ALL_ONES else U64(p, 24)
  }

  function Next(p: Bytes): nat
    requires |p| >= HEADER_SIZE
  {
    U32(p, 20)
  }

  predicate HasFlag(p: Bytes, flag: nat)
    requires |p| >= HEADER_SIZE && flag > 0
  {
    U32(p, 16) / flag % 2 == 1
  }

  /** flags with the bit of value flag set. */
  function SetFlag(flags: nat, flag: nat): nat
    requires flag > 0
  {
    if flags / flag % 2 == 1 then flags else flags + flag
  }

  predicate LinkFits(next: nat, len: nat) {
    next % 8 == 0 && (next == 0 || (64 <= next < len && len - next >= 64))
  }

  predicate IsInvalid(p: Bytes) {
    if |p| < 4 then true
    else if |p| >= 5 && IsSmb1(p) && Command(p) == SMB1_NEGOTIATE then false
    else if |p| < HEADER_SIZE then true
    else !HasMagic(p, 0xfe) || U16(p, 4) != 64 || !LinkFits(Next(p), |p|)
  }

  // ----------------------------------------------------------------- encoding

  datatype Header = Header(creditCharge: nat, channelSequence: nat, status: nat, command: nat,
    credits: nat, flags: nat, next: nat, messageId: nat, asyncId: nat, treeId: nat, sessionId: nat)

  /** The encoded header over the bytes was: an unused channel sequence or status
      word, an unused tree or async id, and the signature keep their bytes. */
  function HeaderBytes(h: Header, was: Bytes): (r: Bytes)
    requires |was| == HEADER_SIZE
    ensures |r| == HEADER_SIZE
  {
    Front(h, was) + LE(4, h.flags) + LE(4, h.next) + Back(h, was)
  }

  function Front(h: Header, was: Bytes): (r: Bytes)
    requires |was| == HEADER_SIZE
    ensures |r| == 16
  {
    [0xfe, 0x53, 0x4D, 0x42] + LE(2, 64) + LE(2, h.creditCharge) + StatusWord(h, was) +
    LE(2, h.command) + LE(2, h.credits)
  }

  function Back(h: Header, was: Bytes): (r: Bytes)
    requires |was| == HEADER_SIZE
    ensures |r| == 40
  {
    LE(8, h.messageId) + IdWords(h, was) + LE(8, h.sessionId) + was[48..]
  }

  function StatusWord(h: Header, was: Bytes): (r: Bytes)
    requires |was| == HEADER_SIZE
    ensures |r| == 4
  {
    if h.channelSequence != 0 then LE(2, h.channelSequence) + was[10..12]
    else if h.status != 0 then LE(4, h.status)
    else was[8..12]
  }

  function IdWords(h: Header, was: Bytes): (r: Bytes)
    requires |was| == HEADER_SIZE
    ensures |r| == 8
  {
    if h.treeId != 0 then was[32..36] + LE(4, h.treeId)
    else if h.asyncId != 0 then LE(8, h.asyncId)
    else was[32..40]
  }

  lemma {:induction false} Flat(done: Bytes, a: Bytes, b: Bytes, rest: Bytes)
    ensures ((done + a) + b) + rest == (done + (a + b)) + rest
  {
    assert (done + a) + b == done + (a + b);
  }

  /** The status word: a channel sequence if there is one, otherwise a non-zero status. */
  method PutStatus(h: Header, pkt: array<byte>, ghost done: Bytes, ghost was: Bytes)
    requires |done| == 8 && |was| >= HEADER_SIZE && pkt[..] == done + was[8..]
    modifies pkt
    ensures pkt[..] == (done + StatusWord(h, was[..HEADER_SIZE])) + was[12..]
  {
    if h.channelSequence != 0 {
      Put(pkt, 8, LE(2, h.channelSequence), done, was);
      Skip(done + LE(2, h.channelSequence), was, 2);
      Flat(done, LE(2, h.channelSequence), was[10..12], was[12..]);
      assert was[..HEADER_SIZE][10..12] == was[10..12];
    } else if h.status != 0 {
      Put(pkt, 8, LE(4, h.status), done, was);
    } else {
      Skip(done, was, 4);
      assert was[..HEADER_SIZE][8..12] == was[8..12];
    }
  }

  method PutIds(h: Header, pkt: array<byte>, ghost done: Bytes, ghost was: Bytes)
    requires |done| == 32 && |was| >= HEADER_SIZE && pkt[..] == done + was[32..]
    modifies pkt
    ensures pkt[..] == (done + IdWords(h, was[..HEADER_SIZE])) + was[40..]
  {
    if h.treeId != 0 {
      Skip(done, was, 4);
      Put(pkt, 36, LE(4, h.treeId), done + was[32..36], was);
      Flat(done, was[32..36], LE(4, h.treeId), was[40..]);
      assert was[..HEADER_SIZE][32..36] == was[32..36];
    } else if h.asyncId != 0 {
      Put(pkt, 32, LE(8, h.asyncId), done, was);
    } else {
      Skip(done, was, 8);
      assert was[..HEADER_SIZE][32..40] == was[32..40];
    }
  }

  method EncodeHeader(h: Header, pkt: array<byte>)
    requires pkt.Length >= HEADER_SIZE
    modifies pkt
    ensures pkt[..] == HeaderBytes(h, old(pkt[..HEADER_SIZE])) + old(pkt[HEADER_SIZE..])
  {
    hide LE, HeaderBytes, StatusWord, IdWords, Front, Back;
    ghost var was, done := pkt[..], [];
    ghost var hd := was[..HEADER_SIZE];
    Put(pkt, 0, [0xfe, 0x53, 0x4D, 0x42], done, was); done := [0xfe, 0x53, 0x4D, 0x42];
    Put(pkt, 4, LE(2, 64), done, was); done := done + LE(2, 64);
    Put(pkt, 6, LE(2, h.creditCharge), done, was); done := done + LE(2, h.creditCharge);
    PutStatus(h, pkt, done, was); done := done + StatusWord(h, hd);
    Put(pkt, 12, LE(2, h.command), done, was); done := done + LE(2, h.command);
    Put(pkt, 14, LE(2, h.credits), done, was); done := done + LE(2, h.credits);
    Put(pkt, 16, LE(4, h.flags), done, was); done := done + LE(4, h.flags);
    Put(pkt, 20, LE(4, h.next), done, was); done := done + LE(4, h.next);
    Put(pkt, 24, LE(8, h.messageId), done, was); done := done + LE(8, h.messageId);
    PutIds(h, pkt, done, was); done := done + IdWords(h, hd);
    Put(pkt, 40, LE(8, h.sessionId), done, was); done := done + LE(8, h.sessionId);
    Skip(done, was, 16);
    HeaderBytesIs(h, hd, done);
    assert was[48..64] == hd[48..];
  }

  lemma {:induction false} HeaderBytesIs(h: Header, was: Bytes, done: Bytes)
    requires |was| == HEADER_SIZE
    requires done == [0xfe, 0x53, 0x4D, 0x42] + LE(2, 64) + LE(2, h.creditCharge) + StatusWord(h, was) +
             LE(2, h.command) + LE(2, h.credits) + LE(4, h.flags) + LE(4, h.next) + LE(8, h.messageId) +
             IdWords(h, was) + LE(8, h.sessionId)
    ensures HeaderBytes(h, was) == done + was[48..]
  {
    hide LE, StatusWord, IdWords;
  }

  lemma {:induction false} HeaderLayout(h: Header, was: Bytes, rest: Bytes)
    requires |was| == HEADER_SIZE
    ensures var p := HeaderBytes(h, was) + rest;
      && p[..4] == [0xfe, 0x53, 0x4D, 0x42] && p[4..6] == LE(2, 64) && p[12..14] == LE(2, h.command)
      && p[16..20] == LE(4, h.flags) && p[20..24] == LE(4, h.next)
      && p[24..32] == LE(8, h.messageId) && p[40..48] == LE(8, h.sessionId) && p[48..64] == was[48..]
  {
    hide LE, StatusWord, IdWords;
    var p := HeaderBytes(h, was) + rest;
    assert p[..16] == Front(h, was) && p[16..20] == LE(4, h.flags) && p[20..24] == LE(4, h.next)
        && p[24..64] == Back(h, was) by {
      hide Front, Back;
    }
    assert p[4..6] == p[..16][4..6] && p[12..14] == p[..16][12..14] && p[..4] == p[..16][..4];
    assert p[24..32] == p[24..64][..8] && p[40..48] == p[24..64][16..24] && p[48..64] == p[24..64][24..];
  }

  /** What a receiver reads from an encoded header, whatever follows it. */
  lemma {:induction false} HeaderReadsBack(h: Header, was: Bytes, rest: Bytes)
    requires |was| == HEADER_SIZE
    ensures var p := HeaderBytes(h, was) + rest;
      && HasMagic(p, 0xfe) && U16(p, 4) == 64 && !IsSmb1(p)
      && Command(p) == h.command % 0x1_0000
      && U32(p, 16) == h.flags % 0x1_0000_0000
      && Next(p) == h.next % 0x1_0000_0000
      && MessageId(p) == h.messageId % (ALL_ONES + 1)
      && U64(p, 40) == h.sessionId % (ALL_ONES + 1)
      && p[48..64] == was[48..]
  {
    hide LE, U16, U32, U64, HeaderBytes;
    HeaderLayout(h, was, rest);
    var p := HeaderBytes(h, was) + rest;
    assert p[0] == p[..4][0] && p[1] == p[..4][1] && p[2] == p[..4][2] && p[3] == p[..4][3];
    U16At(p, 4, 64); U16At(p, 12, h.command); U32At(p, 16, h.flags);
    U32At(p, 20, h.next); U64At(p, 24, h.messageId); U64At(p, 40, h.sessionId);
  }

  // ---------------------------------------------------- signing, verification

  type Signature = s: Bytes | |s| == 16 witness Zeros(16)

  /** What a session holds for checking signatures. */
  datatype Keys = Anonymous | NoVerifier | Keyed(mac: Bytes -> Signature)

  function Unsigned(p: Bytes): (r: Bytes)
    requires |p| >= HEADER_SIZE
    ensures |r| == |p|
  {
    Splice(p, 48, Zeros(16))
  }

  function Flagged(p: Bytes): (r: Bytes)
    requires |p| >= HEADER_SIZE
    ensures |r| == |p|
  {
    Splice(p, 16, LE(4, SetFlag(U32(p, 16), FLAG_SIGNED)))
  }

  /** Overwriting part of a window is overwriting the window. */
  lemma {:induction false} SpliceWithin(s: Bytes, lo: nat, hi: nat, off: nat, b: Bytes)
    requires lo <= hi <= |s| && off + |b| <= hi - lo
    ensures Splice(s, lo + off, b)[lo..hi] == Splice(s[lo..hi], off, b)
    ensures Splice(s, lo + off, b) == Splice(s, lo, Splice(s[lo..hi], off, b))
  {
  }

  /** The signing order of the server: the flag first, then the MAC over the packet
      with whatever its signature field holds, then the signature. */
  function Signed(mac: Bytes -> Signature, p: Bytes): (r: Bytes)
    requires |p| >= HEADER_SIZE
    ensures |r| == |p|
  {
    Splice(Flagged(p), 48, mac(Flagged(p)))
  }

  /** The signature a packet must carry. */
  function Expected(k: Keys, p: Bytes): Signature
    requires |p| >= HEADER_SIZE
  {
    if k.Keyed? then k.mac(Unsigned(p)) else Zeros(16)
  }

  predicate Verified(k: Keys, p: Bytes)
    requires |p| >= HEADER_SIZE
  {
    !k.NoVerifier? && p[48..64] == Expected(k, p)
  }

  /** What verification leaves in the buffer. */
  function Rewritten(k: Keys, p: Bytes): (r: Bytes)
    requires |p| >= HEADER_SIZE
    ensures |r| == |p|
  {
    Splice(p, 48, Expected(k, p))
  }

  method Sign(mac: Bytes -> Signature, pkt: array<byte>)
    requires pkt.Length >= HEADER_SIZE
    modifies pkt
    ensures pkt[..] == Signed(mac, old(pkt[..]))
  {
    CopyInto(pkt, 16, LE(4, SetFlag(U32(pkt[..], 16), FLAG_SIGNED)));
    CopyInto(pkt, 48, mac(pkt[..]));
  }

  method Verify(k: Keys, buf: array<byte>, lo: nat, hi: nat) returns (ok: bool)
    requires lo + HEADER_SIZE <= hi <= buf.Length
    modifies buf
    ensures ok <==> Verified(k, old(buf[lo..hi]))
    ensures buf[..] == Splice(old(buf[..]), lo, Rewritten(k, old(buf[lo..hi])))
  {
    ghost var was, seg := buf[..], buf[lo..hi];
    var signature := buf[lo..hi][48..64];
    SpliceInside(seg, 48, Zeros(16));
    SpliceInside(seg, 48, Expected(k, seg));
    CopyInto(buf, lo + 48, Zeros(16));
    SpliceWithin(was, lo, hi, 48, Zeros(16));
    assert buf[lo..hi] == Unsigned(seg);
    if k.NoVerifier? {
      return false;
    }
    if k.Keyed? {
      CopyInto(buf, lo + 48, k.mac(buf[lo..hi]));
      SpliceTwice(was, lo + 48, Zeros(16), Expected(k, seg));
    }
    SpliceWithin(was, lo, hi, 48, Expected(k, seg));
    assert buf[lo..hi] == Rewritten(k, seg);
    assert buf[lo..hi][48..64] == Expected(k, seg);
    ok := signature == buf[lo..hi][48..64];
  }

  /** A packet that verifies is left as it was received. */
  lemma {:induction false} VerifiedIsUnchanged(k: Keys, p: Bytes)
    requires |p| >= HEADER_SIZE && !k.NoVerifier?
    ensures Verified(k, p) <==> Rewritten(k, p) == p
  {
    if Rewritten(k, p) == p {
      assert Rewritten(k, p)[48..64] == Expected(k, p);
    }
  }

  /** What the signer leaves is verified over the packet with a zeroed signature field,
      which is what the MAC was computed over when the field was zero before. */
  lemma {:induction false} SignedVerifiesUnder(mac: Bytes -> Signature, p: Bytes)
    requires |p| >= HEADER_SIZE
    ensures Verified(Keyed(mac), Signed(mac, p)) <==> mac(Flagged(p)) == mac(Unsigned(Flagged(p)))
    ensures p[48..64] == Zeros(16) ==> Verified(Keyed(mac), Signed(mac, p))
    ensures HasFlag(Signed(mac, p), FLAG_SIGNED)
  {
    var f, s := Flagged(p), Signed(mac, p);
    SignedKeepsFlags(f, mac(f));
    FlagIsSet(p);
    hide Flagged, Splice;
    SpliceTwice(f, 48, mac(f), Zeros(16));
    assert p[48..64] == Zeros(16) ==> Unsigned(f) == f by {
      SpliceOutside(p, 16, LE(4, SetFlag(U32(p, 16), FLAG_SIGNED)), 48, 64);
      SpliceTwice(f, 48, Zeros(16), Zeros(16));
    }
  }

  /** A MAC that answers differently on one message than on all others. */
  function Telling(message: Bytes): Bytes -> Signature {
    (x: Bytes) => if x == message then [1] + Zeros(15) else Zeros(16)
  }

  lemma {:induction false} TellingTells(message: Bytes, other: Bytes)
    ensures Telling(message)(message) == Telling(message)(other) <==> other == message
  {
    assert ([1] + Zeros(15))[0] != Zeros(16)[0];
  }

  /** A signed packet verifies under the same key, whatever the MAC, exactly when its
      signature field was zero before it was signed. */
  lemma {:induction false} SignedVerifiesIff(p: Bytes)
    requires |p| >= HEADER_SIZE
    ensures (forall mac: Bytes -> Signature :: Verified(Keyed(mac), Signed(mac, p))) <==> p[48..64] == Zeros(16)
    ensures p[48..64] != Zeros(16) ==>
              var mac := Telling(Flagged(p)); !Verified(Keyed(mac), Signed(mac, p))
  {
    hide Verified, Signed;
    forall mac: Bytes -> Signature
      ensures p[48..64] == Zeros(16) ==> Verified(Keyed(mac), Signed(mac, p))
    {
      SignedVerifiesUnder(mac, p);
    }
    var f := Flagged(p);
    SignedVerifiesUnder(Telling(f), p);
    TellingTells(f, Unsigned(f));
    SpliceOutside(p, 16, LE(4, SetFlag(U32(p, 16), FLAG_SIGNED)), 48, 64);
    SpliceInside(f, 48, Zeros(16));
  }

  /** A header full of ones, whose signature field is not zero, does not verify after
      it has been signed. */
  lemma {:induction false} StaleSignatureFails()
    ensures var p: Bytes := seq(HEADER_SIZE, _ => 1); var mac := Telling(Flagged(p));
            !Verified(Keyed(mac), Signed(mac, p))
  {
    var p: Bytes := seq(HEADER_SIZE, _ => 1);
    hide Verified, Signed, Flagged;
    assert p[48..64][0] != Zeros(16)[0];
    SignedVerifiesIff(p);
  }

  lemma {:induction false} SignedKeepsFlags(f: Bytes, m: Signature)
    requires |f| >= HEADER_SIZE
    ensures Splice(f, 48, m)[48..64] == m
    ensures U32(Splice(f, 48, m), 16) == U32(f, 16)
  {
  }

  lemma {:induction false} SetFlagSets(f: nat)
    requires f < 0x1_0000_0000
    ensures SetFlag(f, FLAG_SIGNED) < 0x1_0000_0000 && SetFlag(f, FLAG_SIGNED) / FLAG_SIGNED % 2 == 1
  {
    var q := f / 8;
    assert (f + 8) / 8 == q + 1;
  }

  lemma {:induction false} FlagIsSet(p: Bytes)
    requires |p| >= HEADER_SIZE
    ensures HasFlag(Flagged(p), FLAG_SIGNED)
  {
    var f := U32(p, 16);
    assert 0 <= f < 0x1_0000_0000;
    SetFlagSets(f);
    hide U32, SetFlag, LE, Splice;
    SpliceInside(p, 16, LE(4, SetFlag(f, FLAG_SIGNED)));
    U32Exactly(Flagged(p), 16, SetFlag(f, FLAG_SIGNED));
  }
}
