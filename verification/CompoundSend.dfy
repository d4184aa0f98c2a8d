/** Assembling compound responses: each response but the last is given a link to
    its 8-byte boundary, all of them are buffered, and the last one flushes. */
module CompoundSend {
  import opened Bytes
  import opened Compound
  import opened Packet
  import opened Slices
  import opened Wrappers

  function Padded(p: Bytes): (r: Bytes)
    ensures |r| == Align8(|p|)
  {
    p + Zeros(Align8(|p|) - |p|)
  }

  /** The buffered responses as one frame; only the last is left unpadded. */
  function Assembled(parts: seq<Bytes>): Bytes {
    if parts == [] then []
    else if |parts| == 1 then parts[0]
    else Padded(parts[0]) + Assembled(parts[1..])
  }

  datatype Response = Response(hdr: Header, body: Bytes)

  /** A response as it is encoded: related to the ones before it, and linked to a
      successor unless it answers the last request known so far. */
  function Linked(r: Response, first: bool, lastId: nat): (p: Bytes)
    ensures |p| == HEADER_SIZE + |r.body|
  {
    var flags := if first then r.hdr.flags else SetFlag(r.hdr.flags, FLAG_RELATED);
    var next := if r.hdr.messageId != lastId then Align8(HEADER_SIZE + |r.body|) else r.hdr.next;
    HeaderBytes(r.hdr.(flags := flags, next := next), Zeros(HEADER_SIZE)) + r.body
  }

  /** What is buffered once the responses rs were sent, where marks[i] is the last
      message id the receiver had recorded when response i was sent. */
  function Buffered(rs: seq<Response>, marks: seq<nat>): (parts: seq<Bytes>)
    requires |rs| == |marks|
    ensures |parts| == |rs|
  {
    if rs == [] then []
    else Buffered(rs[..|rs| - 1], marks[..|rs| - 1]) + [Linked(rs[|rs| - 1], |rs| == 1, marks[|rs| - 1])]
  }

  class CompoundContext {
    var lastMsgId: nat
    var rsp: seq<Bytes>
    ghost var sent: seq<Response>
    ghost var marks: seq<nat>

    ghost predicate Valid()
      reads this
    {
      |sent| == |marks| && rsp == Buffered(sent, marks)
    }

    constructor ()
      ensures Valid() && sent == [] && lastMsgId == 0
    {
      lastMsgId, rsp, sent, marks := 0, [], [], [];
    }

    /** The receiver's note of the last request of the chain. */
    method SetLast(id: nat)
      requires Valid()
      modifies this`lastMsgId
      ensures Valid() && lastMsgId == id
    {
      lastMsgId := id;
    }

    method Size() returns (s: nat)
      ensures s == |Assembled(rsp)|
    {
      s := 0;
      for i := 0 to |rsp|
        invariant s + |Assembled(rsp[i..])| == |Assembled(rsp)|
      {
        assert rsp[i..][1..] == rsp[i + 1..];
        s := s + if i != |rsp| - 1 then Align8(|rsp[i]|) else |rsp[i]|;
      }
    }

    method Encode(buf: array<byte>)
      requires buf.Length == |Assembled(rsp)| && buf[..] == Zeros(buf.Length)
      modifies buf
      ensures buf[..] == Assembled(rsp)
    {
      var off: nat := 0;
      for i := 0 to |rsp|
        invariant i < |rsp| ==> off <= buf.Length && buf[..off] + Assembled(rsp[i..]) == Assembled(rsp)
        invariant i < |rsp| ==> buf[off..] == Zeros(buf.Length - off)
        invariant i == |rsp| ==> buf[..] == Assembled(rsp)
      {
        ghost var was := buf[..];
        PutPart(was, off, rsp[i..]);
        CopyInto(buf, off, rsp[i]);
        off := off + Align8(|rsp[i]|);
      }
    }

    /** Buffers a response, and produces the whole frame with the last one. */
    method Send(r: Response) returns (frame: Option<Bytes>)
      requires Valid()
      modifies this`rsp, this`sent, this`marks
      ensures Valid()
      ensures sent == old(sent) + [r] && marks == old(marks) + [lastMsgId]
      ensures frame == if r.hdr.messageId != lastMsgId then None else Some(Assembled(Buffered(sent, marks)))
    {
      hide Linked, Assembled, HeaderBytes;
      var hdr := r.hdr;
      if rsp != [] {
        hdr := hdr.(flags := SetFlag(hdr.flags, FLAG_RELATED));
      }
      if hdr.messageId != lastMsgId {
        hdr := hdr.(next := Align8(HEADER_SIZE + |r.body|));
      }
      var pkt := EncodeResponse(hdr, r.body);
      assert pkt == Linked(r, rsp == [], lastMsgId) by { LinkedIs(r, rsp == [], lastMsgId, hdr); }
      BufferedSnoc(sent, marks, r, lastMsgId);
      rsp, sent, marks := rsp + [pkt], sent + [r], marks + [lastMsgId];
      if hdr.messageId != lastMsgId {
        return None;
      }
      var n := Size();
      var out := new byte[n](_ => 0);
      assert out[..] == Zeros(n);
      Encode(out);
      frame := Some(out[..]);
    }
  }

  lemma {:induction false} LinkedIs(r: Response, first: bool, lastId: nat, h: Header)
    requires h == r.hdr.(flags := if first then r.hdr.flags else SetFlag(r.hdr.flags, FLAG_RELATED),
      next := if r.hdr.messageId != lastId then Align8(HEADER_SIZE + |r.body|) else r.hdr.next)
    ensures Linked(r, first, lastId) == HeaderBytes(h, Zeros(HEADER_SIZE)) + r.body
  {
    hide HeaderBytes;
  }

  lemma {:induction false} BufferedSnoc(rs: seq<Response>, marks: seq<nat>, r: Response, m: nat)
    requires |rs| == |marks|
    ensures Buffered(rs + [r], marks + [m]) == Buffered(rs, marks) + [Linked(r, rs == [], m)]
  {
    assert (rs + [r])[..|rs|] == rs && (marks + [m])[..|rs|] == marks;
  }

  method EncodeResponse(h: Header, body: Bytes) returns (pkt: Bytes)
    ensures pkt == HeaderBytes(h, Zeros(HEADER_SIZE)) + body
  {
    hide HeaderBytes;
    var a := new byte[HEADER_SIZE + |body|](_ => 0);
    assert a[..HEADER_SIZE] == Zeros(HEADER_SIZE);
    EncodeHeader(h, a);
    ghost var was := a[..];
    CopyInto(a, HEADER_SIZE, body);
    pkt := a[..];
  }

  /** Copying one response into a zeroed rest of the frame. */
  lemma {:induction false} PutPart(was: Bytes, off: nat, parts: seq<Bytes>)
    requires parts != [] && off <= |was| && |was| == off + |Assembled(parts)|
    requires was[off..] == Zeros(|was| - off)
    ensures off + |parts[0]| <= |was|
    ensures var now := Splice(was, off, parts[0]); var end := off + Align8(|parts[0]|);
      if |parts| == 1 then now == was[..off] + Assembled(parts)
      else
        && end <= |was| && now[..end] == was[..off] + Padded(parts[0]) && now[end..] == Zeros(|was| - end)
        && was[..off] + Assembled(parts) == now[..end] + Assembled(parts[1..])
  {
    var now := Splice(was, off, parts[0]);
    assert forall i :: off <= i < |was| ==> was[i] == was[off..][i - off];
    if |parts| > 1 {
      var end := off + Align8(|parts[0]|);
      assert now[..end] == was[..off] + Padded(parts[0]);
    }
  }

  // ------------------------------------------------------------------ round trip

  /** A part with a sound header and the given link. */
  predicate GoodPart(p: Bytes, link: nat) {
    |p| >= HEADER_SIZE && HasMagic(p, 0xfe) && U16(p, 4) == 64 && Next(p) == link
  }

  predicate Chainable(parts: seq<Bytes>) {
    && parts != []
    && (forall i :: 0 <= i < |parts| - 1 ==> GoodPart(parts[i], Align8(|parts[i]|)))
    && GoodPart(parts[|parts| - 1], 0)
  }

  /** The parts as a splitter finds them: zero-padded to 8 bytes except the last. */
  function PaddedParts(parts: seq<Bytes>): seq<Bytes>
    requires parts != []
  {
    seq(|parts|, i requires 0 <= i < |parts| => if i < |parts| - 1 then Padded(parts[i]) else parts[i])
  }

  lemma {:induction false} AssembledSplits(parts: seq<Bytes>)
    requires Chainable(parts)
    ensures |Assembled(parts)| >= HEADER_SIZE
    ensures ValidChain(Assembled(parts)) && Segments(Assembled(parts)) == PaddedParts(parts)
  {
    hide U16, U32, GoodPart, ValidChain, Segments;
    if |parts| == 1 {
      ChainEnds(parts[0]);
      assert PaddedParts(parts) == parts;
    } else {
      var p, rest := parts[0], Assembled(parts[1..]);
      assert Chainable(parts[1..]);
      AssembledSplits(parts[1..]);
      var all := Padded(p) + rest;
      assert |p| >= HEADER_SIZE by { GoodLength(p, Align8(|p|)); }
      assert all[Align8(|p|)..] == rest && all[..Align8(|p|)] == Padded(p) && all[..|p|] == p;
      GoodPrefix(p, all, Align8(|p|));
      ChainGoesOn(all, Align8(|p|));
      assert PaddedParts(parts) == [Padded(p)] + PaddedParts(parts[1..]);
    }
  }

  lemma {:induction false} GoodLength(p: Bytes, link: nat)
    requires GoodPart(p, link)
    ensures |p| >= HEADER_SIZE
  {
  }

  lemma {:induction false} ChainEnds(p: Bytes)
    requires GoodPart(p, 0)
    ensures |p| >= HEADER_SIZE && ValidChain(p) && Segments(p) == [p]
  {
    hide U16, U32;
  }

  lemma {:induction false} ChainGoesOn(p: Bytes, link: nat)
    requires GoodPart(p, link) && link % 8 == 0 && 64 <= link <= |p| - 64 && ValidChain(p[link..])
    ensures ValidChain(p) && Segments(p) == [p[..link]] + Segments(p[link..])
  {
    hide U16, U32;
  }

  /** The header tests depend on the first 64 bytes only. */
  lemma {:induction false} GoodPrefix(p: Bytes, q: Bytes, link: nat)
    requires GoodPart(p, link) && |p| <= |q| && q[..|p|] == p
    ensures GoodPart(q, link)
  {
    assert forall i :: 0 <= i < |p| ==> q[i] == q[..|p|][i] == p[i];
  }

  lemma {:induction false} BufferedAt(rs: seq<Response>, marks: seq<nat>, i: nat)
    requires |rs| == |marks| && i < |rs|
    ensures Buffered(rs, marks)[i] == Linked(rs[i], i == 0, marks[i])
  {
    hide Linked;
    if i < |rs| - 1 { BufferedAt(rs[..|rs| - 1], marks[..|rs| - 1], i); }
  }

  /** A chain of responses: every field fits, the last answers the last request. */
  ghost predicate Answers(rs: seq<Response>, lastId: nat) {
    && rs != [] && rs[|rs| - 1].hdr.messageId == lastId
    && (forall i :: 0 <= i < |rs| ==> rs[i].hdr.next == 0 && HEADER_SIZE + |rs[i].body| + 7 < 0x1_0000_0000)
    && (forall i :: 0 <= i < |rs| - 1 ==> rs[i].hdr.messageId != 0 && rs[i].hdr.messageId != lastId)
  }

  /** The receiver records the last message id at any moment before its response is
      sent; until then the context holds zero. */
  ghost predicate Noted(marks: seq<nat>, lastId: nat) {
    && marks != [] && marks[|marks| - 1] == lastId
    && (forall i :: 0 <= i < |marks| ==> marks[i] == 0 || marks[i] == lastId)
  }

  /** Assembling and splitting again gives back exactly the responses: whatever the
      moment at which the last request was noted, only the last response flushes, the
      frame passes the validator, and its segments are the encoded responses. */
  lemma {:induction false} CompoundRoundTrip(rs: seq<Response>, marks: seq<nat>, lastId: nat)
    requires |rs| == |marks| && Answers(rs, lastId) && Noted(marks, lastId)
    ensures forall i :: 0 <= i < |rs| - 1 ==> rs[i].hdr.messageId != marks[i]
    ensures rs[|rs| - 1].hdr.messageId == marks[|rs| - 1]
    ensures var frame := Assembled(Buffered(rs, marks));
      && ValidChain(frame)
      && |Segments(frame)| == |rs|
      && (forall i :: 0 <= i < |rs| - 1 ==> Segments(frame)[i] == Padded(Linked(rs[i], i == 0, marks[i])))
      && Segments(frame)[|rs| - 1] == Linked(rs[|rs| - 1], |rs| == 1, lastId)
  {
    hide Linked, Padded, Assembled, GoodPart, Segments, ValidChain;
    var parts := Buffered(rs, marks);
    forall i | 0 <= i < |rs| ensures parts[i] == Linked(rs[i], i == 0, marks[i])
        && GoodPart(parts[i], if i < |rs| - 1 then Align8(|parts[i]|) else 0) {
      BufferedAt(rs, marks, i);
      LinkedIsGood(rs[i], i == 0, marks[i]);
    }
    AssembledSplits(parts);
  }

  lemma {:induction false} LinkedIsGood(r: Response, first: bool, lastId: nat)
    requires r.hdr.next == 0 && HEADER_SIZE + |r.body| + 7 < 0x1_0000_0000
    ensures GoodPart(Linked(r, first, lastId), if r.hdr.messageId != lastId then Align8(HEADER_SIZE + |r.body|) else 0)
  {
    var h := r.hdr.(flags := if first then r.hdr.flags else SetFlag(r.hdr.flags, FLAG_RELATED),
      next := if r.hdr.messageId != lastId then Align8(HEADER_SIZE + |r.body|) else r.hdr.next);
    LinkedIs(r, first, lastId, h);
    hide GoodPart, Linked, HeaderBytes;
    EncodedIsGood(h, r.body);
  }

  lemma {:induction false} EncodedIsGood(h: Header, body: Bytes)
    requires h.next < 0x1_0000_0000
    ensures GoodPart(HeaderBytes(h, Zeros(HEADER_SIZE)) + body, h.next)
  {
    hide HeaderBytes, U16, U32, U64, MessageId, IsSmb1, HasMagic, Command, Zeros, Next;
    HeaderReadsBack(h, Zeros(HEADER_SIZE), body);
  }

  /** What the peer reads from each segment: its own message id and session id, the
      related flag on all but the first, an unsigned header, and the body. */
  lemma {:induction false} LinkedReadsBack(r: Response, first: bool, lastId: nat)
    requires r.hdr.messageId <= ALL_ONES && r.hdr.sessionId <= ALL_ONES && r.hdr.flags < 0x1_0000_0000
    ensures var p := Linked(r, first, lastId);
      && MessageId(p) == r.hdr.messageId && SessionId(p) == r.hdr.sessionId
      && (HasFlag(p, FLAG_RELATED) <==> !first || r.hdr.flags / FLAG_RELATED % 2 == 1)
      && p[48..64] == Zeros(16) && p[64..] == r.body
  {
    var h := r.hdr.(flags := if first then r.hdr.flags else SetFlag(r.hdr.flags, FLAG_RELATED),
      next := if r.hdr.messageId != lastId then Align8(HEADER_SIZE + |r.body|) else r.hdr.next);
    LinkedIs(r, first, lastId, h);
    FlagKept(r.hdr.flags);
    hide *;
    assert h.flags < 0x1_0000_0000;
    ReadsBackExactly(h, r.body);
  }

  lemma {:induction false} ReadsBackExactly(h: Header, body: Bytes)
    requires h.messageId <= ALL_ONES && h.sessionId <= ALL_ONES && h.flags < 0x1_0000_0000
    ensures var p := HeaderBytes(h, Zeros(HEADER_SIZE)) + body;
      && MessageId(p) == h.messageId && SessionId(p) == h.sessionId
      && (HasFlag(p, FLAG_RELATED) <==> h.flags / FLAG_RELATED % 2 == 1)
      && p[48..64] == Zeros(16) && p[64..] == body
  {
    hide HeaderBytes, U16, U32, U64, MessageId, SessionId, IsSmb1, HasMagic, Command, HasFlag, Next, Zeros;
    var p := HeaderBytes(h, Zeros(HEADER_SIZE)) + body;
    HeaderReadsBack(h, Zeros(HEADER_SIZE), body);
    SignatureSlot();
    FlagIs(p, h.flags);
    assert p[64..] == body;
  }

  lemma {:induction false} SignatureSlot()
    ensures Zeros(HEADER_SIZE)[48..] == Zeros(16)
  {
  }

  lemma {:induction false} FlagIs(p: Bytes, flags: nat)
    requires |p| >= HEADER_SIZE && U32(p, 16) == flags % 0x1_0000_0000 && flags < 0x1_0000_0000
    ensures HasFlag(p, FLAG_RELATED) <==> flags / FLAG_RELATED % 2 == 1
    ensures SessionId(p) == U64(p, 40)
  {
    hide U32, U64;
  }

  lemma {:induction false} FlagKept(flags: nat)
    requires flags < 0x1_0000_0000
    ensures SetFlag(flags, FLAG_RELATED) < 0x1_0000_0000
    ensures SetFlag(flags, FLAG_RELATED) / FLAG_RELATED % 2 == 1
  {
  }

  /** Signing an assembled frame leaves its links alone. */
  lemma {:induction false} SigningKeepsChain(mac: Bytes -> Signature, p: Bytes)
    requires ValidChain(p) && !IsSmb1(p)
    ensures var s := Signed(mac, p);
      && ValidChain(s) && |Segments(s)| == |Segments(p)| && Segments(s)[1..] == Segments(p)[1..]
  {
    var s := Signed(mac, p);
    SignedOutside(mac, p);
    SameHeader(p, s);
    assert Next(p) != 0 ==> s[Next(p)..] == p[Next(p)..];
  }

  lemma {:induction false} SignedOutside(mac: Bytes -> Signature, p: Bytes)
    requires |p| >= HEADER_SIZE
    ensures var s := Signed(mac, p); s[..16] == p[..16] && s[20..48] == p[20..48] && s[64..] == p[64..]
  {
    hide LE;
  }

  lemma {:induction false} SameHeader(p: Bytes, s: Bytes)
    requires |p| == |s| >= HEADER_SIZE && s[..16] == p[..16] && s[20..48] == p[20..48]
    requires !IsSmb1(p) && !IsInvalid(p)
    ensures !IsInvalid(s) && Next(s) == Next(p)
  {
    assert forall i :: 0 <= i < 16 ==> s[i] == s[..16][i] == p[i];
    assert forall i :: 20 <= i < 48 ==> s[i] == s[20..48][i - 20] == p[i];
    assert s[20] == p[20] && s[21] == p[21] && s[22] == p[22] && s[23] == p[23];
  }

  /** Signing covers the whole frame with one signature, which the receiver checks
      against the first packet alone: whatever the MAC, that packet verifies exactly
      when the frame is a single packet whose signature field was zero. */
  lemma {:induction false} FirstSegmentVerifiesIff(p: Bytes)
    requires ValidChain(p) && !IsSmb1(p)
    ensures forall mac: Bytes -> Signature :: ValidChain(Signed(mac, p))
    ensures (forall mac: Bytes -> Signature :: Verified(Keyed(mac), Segments(Signed(mac, p))[0]))
              <==> Next(p) == 0 && p[48..64] == Zeros(16)
    ensures Next(p) != 0 || p[48..64] != Zeros(16) ==>
              var mac := Telling(Flagged(p)); !Verified(Keyed(mac), Segments(Signed(mac, p))[0])
  {
    hide Verified, Signed, Flagged, Telling, Segments;
    SignedVerifiesIff(p);
    forall mac: Bytes -> Signature
      ensures ValidChain(Signed(mac, p))
      ensures Next(p) == 0 ==> Segments(Signed(mac, p))[0] == Signed(mac, p)
    {
      SignedHead(mac, p);
    }
    if Next(p) != 0 {
      var f := Flagged(p);
      SignedHead(Telling(f), p);
      HeadVerifiesUnder(Telling(f), p, Next(p));
      TellingTells(f, Unsigned(f[..Next(p)]));
    }
  }

  lemma {:induction false} SignedHead(mac: Bytes -> Signature, p: Bytes)
    requires ValidChain(p) && !IsSmb1(p)
    ensures ValidChain(Signed(mac, p))
    ensures HEADER_SIZE <= Next(p) <= |p| || Next(p) == 0
    ensures Segments(Signed(mac, p))[0] == if Next(p) == 0 then Signed(mac, p) else Signed(mac, p)[..Next(p)]
  {
    hide Signed;
    SigningKeepsChain(mac, p);
    SignedOutside(mac, p);
    SameHeader(p, Signed(mac, p));
  }

  /** The first n bytes of a signed frame, checked on their own. */
  lemma {:induction false} HeadVerifiesUnder(mac: Bytes -> Signature, p: Bytes, n: nat)
    requires HEADER_SIZE <= n <= |p|
    ensures Verified(Keyed(mac), Signed(mac, p)[..n]) <==> mac(Flagged(p)) == mac(Unsigned(Flagged(p)[..n]))
  {
    var f := Flagged(p);
    hide Flagged;
    SpliceWithin(f, 0, n, 48, mac(f));
    assert Signed(mac, p)[..n] == Splice(f[..n], 48, mac(f));
    SpliceInside(f[..n], 48, mac(f));
    SpliceTwice(f[..n], 48, mac(f), Zeros(16));
  }
}
