/** Compound frames: several SMB2 packets chained by their NextCommand links. The
    validator of received frames, the receiver's split loop that checks signatures
    in place, and the assembler of compound responses. */
module Compound {
  import opened Bytes
  import opened Packet
  import opened Slices
  import opened Wrappers

  // --------------------------------------------------------------- valid chains

  /** Every link stays inside the frame and leaves room for a whole header. */
  predicate ValidChain(p: Bytes)
    decreases |p|
  {
    && |p| >= HEADER_SIZE && !IsInvalid(p)
    && (Next(p) == 0 || (64 <= Next(p) <= |p| - 64 && ValidChain(p[Next(p)..])))
  }

  function Segments(p: Bytes): (r: seq<Bytes>)
    requires ValidChain(p)
    ensures |r| > 0
    decreases |p|
  {
    if Next(p) == 0 then [p] else [p[..Next(p)]] + Segments(p[Next(p)..])
  }

  function Concat(parts: seq<Bytes>): Bytes {
    if parts == [] then [] else parts[0] + Concat(parts[1..])
  }

  /** The segments tile the frame, and each holds at least a header. */
  lemma {:induction false} SegmentsTileFrame(p: Bytes)
    requires ValidChain(p)
    ensures Concat(Segments(p)) == p
    ensures forall s :: s in Segments(p) ==> |s| >= HEADER_SIZE
    ensures 64 * |Segments(p)| <= |p|
    decreases |p|
  {
    hide IsInvalid, Next;
    if Next(p) == 0 {
      assert Concat([p]) == p;
    } else {
      var head, rest := p[..Next(p)], p[Next(p)..];
      SegmentsTileFrame(rest);
      assert Segments(p)[1..] == Segments(rest);
      assert p == head + rest;
    }
  }

  datatype Verdict = Accepted | BrokenHeader | TooMany | BadOffset

  /** Accepts exactly the frames that form a valid chain; the limit on the number of
      parts is never what refuses one. */
  method ValidateFrame(pkt: Bytes) returns (v: Verdict)
    ensures v == Accepted <==> ValidChain(pkt)
    ensures v != TooMany
  {
    if |pkt| < 64 {
      return BrokenHeader;
    }
    var cur, parts, maxParts := pkt, 0, |pkt| / 64 + 1;
    v := Accepted;
    while true
      invariant v == Accepted && |cur| >= 64 && 64 * parts + |cur| <= |pkt|
      invariant ValidChain(pkt) <==> ValidChain(cur)
      decreases |cur|
    {
      if IsInvalid(cur) {
        v := BrokenHeader;
        break;
      }
      parts := parts + 1;
      if parts > maxParts {
        v := TooMany;
        break;
      }
      var off := Next(cur);
      if off == 0 {
        break;
      }
      if off < 64 || off > |cur| - 64 {
        v := BadOffset;
        break;
      }
      cur := cur[off..];
    }
  }

  // ------------------------------------------------------------- the split loop

  /** What the receiver knows when it splits a frame. */
  datatype Env = Env(sessions: map<nat, Keys>, requireSigning: bool, isEncrypted: bool)

  function SessionId(p: Bytes): nat
    requires |p| >= HEADER_SIZE
  {
    U64(p, 40)
  }

  predicate WellFormed(p: Bytes)
    requires |p| >= HEADER_SIZE
  {
    !IsSmb1(p) && U16(p, 4) == 64
  }

  /** The keys a packet is verified with, when it is verified at all. */
  function KeysFor(e: Env, p: Bytes): Option<Keys>
    requires |p| >= HEADER_SIZE
  {
    if WellFormed(p) && MessageId(p) != ALL_ONES && HasFlag(p, FLAG_SIGNED) && SessionId(p) in e.sessions
    then Some(e.sessions[SessionId(p)]) else None
  }

  /** When the receiver finds nothing wrong with a packet's signature. */
  predicate Trusted(e: Env, p: Bytes)
    requires |p| >= HEADER_SIZE
  {
    && WellFormed(p)
    && (MessageId(p) == ALL_ONES ||
        if HasFlag(p, FLAG_SIGNED) then KeysFor(e, p).Some? && Verified(KeysFor(e, p).value, p)
        else !(e.requireSigning && !e.isEncrypted && SessionId(p) in e.sessions && !e.sessions[SessionId(p)].Anonymous?))
  }

  /** The packet as the check leaves it in the buffer. */
  function AfterCheck(e: Env, p: Bytes): (r: Bytes)
    requires |p| >= HEADER_SIZE
    ensures |r| == |p|
  {
    if KeysFor(e, p).Some? then Rewritten(KeysFor(e, p).value, p) else p
  }

  lemma {:induction false} TrustedIsUnchanged(e: Env, p: Bytes)
    requires |p| >= HEADER_SIZE && Trusted(e, p)
    ensures AfterCheck(e, p) == p
  {
    hide Verified, Rewritten;
    if KeysFor(e, p).Some? {
      var k := KeysFor(e, p).value;
      assert !k.NoVerifier? by { assert Verified(k, p); VerifiedHasKeys(k, p); }
      VerifiedIsUnchanged(k, p);
    }
  }

  lemma {:induction false} VerifiedHasKeys(k: Keys, p: Bytes)
    requires |p| >= HEADER_SIZE && Verified(k, p)
    ensures !k.NoVerifier?
  {
  }

  method CheckSegment(e: Env, buf: array<byte>, lo: nat, hi: nat) returns (ok: bool)
    requires lo + HEADER_SIZE <= hi <= buf.Length
    modifies buf
    ensures ok <==> Trusted(e, old(buf[lo..hi]))
    ensures buf[..] == Splice(old(buf[..]), lo, AfterCheck(e, old(buf[lo..hi])))
  {
    var p := buf[lo..hi];
    SpliceTwice(buf[..], lo, p, p);
    if IsSmb1(p) || U16(p, 4) != 64 {
      return false;
    }
    if MessageId(p) != ALL_ONES {
      if HasFlag(p, FLAG_SIGNED) {
        if SessionId(p) !in e.sessions {
          return false;
        }
        ok := Verify(e.sessions[SessionId(p)], buf, lo, hi);
        return;
      }
      if e.requireSigning && !e.isEncrypted && SessionId(p) in e.sessions && !e.sessions[SessionId(p)].Anonymous? {
        return false;
      }
    }
    ok := true;
  }

  // How the frame is cut: a context exists once an unrelated packet with a successor
  // has been seen, and the last packet, when related, needs one.

  predicate OpensContext(p: Bytes)
    requires |p| >= HEADER_SIZE
  {
    !HasFlag(p, FLAG_RELATED) && Next(p) != 0
  }

  /** Whether the split loop, entered with or without a context, has one when the
      last packet asks for it. */
  predicate ContextAtEnd(p: Bytes, has: bool)
    requires ValidChain(p)
    decreases |p|
  {
    if Next(p) == 0 then has || !HasFlag(p, FLAG_RELATED)
    else ContextAtEnd(p[Next(p)..], has || OpensContext(p))
  }

  /** The loop lacks the context exactly when every packet of the frame is related. */
  lemma {:induction false} ContextMissingIff(p: Bytes, has: bool)
    requires ValidChain(p)
    ensures var segs := Segments(p);
      ContextAtEnd(p, has) <==> has || exists i :: 0 <= i < |segs| && |segs[i]| >= HEADER_SIZE && !HasFlag(segs[i], FLAG_RELATED)
    decreases |p|
  {
    var segs := Segments(p);
    assert segs[0] == if Next(p) == 0 then p else p[..Next(p)];
    HeadFlag(p);
    if Next(p) != 0 {
      var rest := p[Next(p)..];
      ContextMissingIff(rest, has || OpensContext(p));
      var tail := Segments(rest);
      assert forall i :: 0 <= i < |tail| ==> tail[i] == segs[i + 1];
      assert forall i :: 0 < i < |segs| ==> segs[i] == tail[i - 1];
    }
  }

  /** A frame of one packet marked as related: it is well chained, and the receiver has
      no context for it. */
  lemma {:induction false} LoneRelatedPacket()
    ensures var p: Bytes := [0xfe, 0x53, 0x4D, 0x42, 64, 0] + Zeros(10) + [FLAG_RELATED] + Zeros(47);
            ValidChain(p) && |Segments(p)| == 1 && !ContextAtEnd(p, false)
  {
    var p: Bytes := [0xfe, 0x53, 0x4D, 0x42, 64, 0] + Zeros(10) + [FLAG_RELATED] + Zeros(47);
    assert p[0] == 0xfe && p[1] == 0x53 && p[2] == 0x4D && p[3] == 0x42 && p[4] == 64 && p[5] == 0;
    assert p[16] == 4 && p[17] == p[18] == p[19] == 0 && p[20] == p[21] == p[22] == p[23] == 0;
  }

  /** The first segment carries the frame's own header. */
  lemma {:induction false} HeadFlag(p: Bytes)
    requires ValidChain(p)
    ensures var s := Segments(p)[0]; |s| >= HEADER_SIZE && s[..64] == p[..64] && U32(s, 16) == U32(p, 16)
  {
  }

  function Checked(e: Option<Env>, p: Bytes): (r: Bytes)
    requires |p| >= HEADER_SIZE
    ensures |r| == |p|
  {
    if e.Some? then AfterCheck(e.value, p) else p
  }

  /** The packets handed to the worker, in order. */
  function HandedOver(e: Option<Env>, p: Bytes): seq<Bytes>
    requires ValidChain(p)
    decreases |p|
  {
    if Next(p) == 0 then [Checked(e, p)]
    else [Checked(e, p[..Next(p)])] + HandedOver(e, p[Next(p)..])
  }

  /** One packet per segment, each the segment as its own check left it; checking
      one segment never disturbs another. */
  lemma {:induction false} HandedOverIsSegments(e: Option<Env>, p: Bytes)
    requires ValidChain(p)
    ensures var segs := Segments(p); var out := HandedOver(e, p);
      && |out| == |segs|
      && forall i :: 0 <= i < |segs| ==> |segs[i]| >= HEADER_SIZE && out[i] == Checked(e, segs[i])
    decreases |p|
  {
    hide Checked, IsInvalid, U32;
    if Next(p) != 0 { HandedOverIsSegments(e, p[Next(p)..]); }
  }

  lemma {:induction false} HandedOverUnchanged(e: Env, p: Bytes)
    requires ValidChain(p)
    requires forall s :: s in Segments(p) ==> |s| >= HEADER_SIZE && Trusted(e, s)
    ensures HandedOver(Some(e), p) == Segments(p)
  {
    HandedOverIsSegments(Some(e), p);
    var segs, out := Segments(p), HandedOver(Some(e), p);
    forall i | 0 <= i < |segs| ensures out[i] == segs[i] {
      assert segs[i] in segs;
      TrustedIsUnchanged(e, segs[i]);
    }
  }

  /** Signatures are checked only once sessions are in use; the loop only logs the verdict. */
  method CheckWithSession(e: Option<Env>, buf: array<byte>, lo: nat, hi: nat)
    requires lo + HEADER_SIZE <= hi <= buf.Length
    modifies buf
    ensures buf[..] == Splice(old(buf[..]), lo, Checked(e, old(buf[lo..hi])))
  {
    SpliceTwice(buf[..], lo, buf[lo..hi], buf[lo..hi]);
    if e.Some? {
      var ok := CheckSegment(e.value, buf, lo, hi);
    }
  }

  /** The split loop in front of byte pos, with the packets in out handed over. */
  ghost predicate Splitting(e: Option<Env>, frame: Bytes, buf: Bytes, pos: nat, out: seq<Bytes>, has: bool, done: bool) {
    && pos <= |buf| == |frame| && ValidChain(frame)
    && buf[..pos] == Concat(out)
    && (if done then pos == |buf| && HandedOver(e, frame) == out && ContextAtEnd(frame, false)
        else
          && ValidChain(buf[pos..]) && HandedOver(e, frame) == out + HandedOver(e, buf[pos..])
          && ContextAtEnd(frame, false) == ContextAtEnd(buf[pos..], has))
  }

  /** One round of the split loop keeps this. */
  lemma {:induction false} Round(e: Option<Env>, frame: Bytes, was: Bytes, now: Bytes, pos: nat, end: nat, out: seq<Bytes>, has: bool)
    requires Splitting(e, frame, was, pos, out, has, false) && |was[pos..]| >= HEADER_SIZE
    requires var p := was[pos..];
      && pos + HEADER_SIZE <= end <= |was|
      && end == (if Next(p) != 0 then pos + Next(p) else |was|)
      && now == Splice(was, pos, Checked(e, was[pos..end]))
      && (Next(p) == 0 && HasFlag(p, FLAG_RELATED) ==> has)
    ensures |now| == |was|
    ensures var p := was[pos..];
      Splitting(e, frame, now, end, out + [now[pos..end]], has || OpensContext(p), Next(p) == 0)
  {
    hide HandedOver, ValidChain, ContextAtEnd, Checked, HasFlag, Concat, Splice, U32, IsInvalid, HasMagic;
    var p := was[pos..];
    Unfold(e, p, has);
    SegmentStep(was, now, pos, end, e);
    ConcatSnoc(out, now[pos..end]);
    if Next(p) == 0 {
      assert was[pos..end] == p;
      assert now[pos..end] == Checked(e, p);
    } else {
      assert out + HandedOver(e, p) == (out + [now[pos..end]]) + HandedOver(e, now[end..]);
    }
  }

  /** The receiver's loop over an accepted frame, checking signatures in place.
      It never meets an invalid header, although it rewrites the buffer it splits;
      it stops early only for want of a context. */
  method SplitFrame(buf: array<byte>, e: Option<Env>) returns (out: seq<Bytes>, badHeader: bool, noContext: bool)
    requires ValidChain(buf[..])
    modifies buf
    ensures !badHeader
    ensures noContext <==> !ContextAtEnd(old(buf[..]), false)
    ensures !noContext ==> out == HandedOver(e, old(buf[..])) && buf[..] == Concat(out)
  {
    ghost var frame := buf[..];
    var pos, has, done := 0, false, false;
    out, badHeader, noContext := [], false, false;
    assert frame[..0] == Concat([]) && frame[0..] == frame;
    hide HandedOver, ValidChain, ContextAtEnd, IsInvalid, Checked, Splice, Concat, HasFlag, U32;
    while !done
      invariant Splitting(e, frame, buf[..], pos, out, has, done) && !badHeader && !noContext
      decreases buf.Length - pos, !done
    {
      ghost var was := buf[..];
      var p := buf[pos..];
      assert p == was[pos..];
      Unfold(e, p, has);
      if IsInvalid(p) {
        badHeader := true;
        break;
      }
      var has' := has || OpensContext(p);
      if HasFlag(p, FLAG_RELATED) && Next(p) == 0 && !has' {
        noContext := true;
        break;
      }
      var end := if Next(p) != 0 then pos + Next(p) else buf.Length;
      assert buf[pos..end] == was[pos..end];
      CheckWithSession(e, buf, pos, end);
      Round(e, frame, was, buf[..], pos, end, out, has);
      assert buf[..][pos..end] == buf[pos..end];
      out, has, done, pos := out + [buf[pos..end]], has', Next(p) == 0, end;
    }
    assert done ==> buf[..pos] == buf[..];
  }

  /** One round of the split loop, on the values it computes. */
  lemma {:induction false} Unfold(e: Option<Env>, p: Bytes, has: bool)
    requires ValidChain(p)
    ensures |p| >= HEADER_SIZE && !IsInvalid(p)
    ensures Next(p) == 0 ==>
      && HandedOver(e, p) == [Checked(e, p)]
      && ContextAtEnd(p, has) == (has || !HasFlag(p, FLAG_RELATED))
    ensures Next(p) != 0 ==>
      && 64 <= Next(p) <= |p| - 64 && ValidChain(p[Next(p)..])
      && HandedOver(e, p) == [Checked(e, p[..Next(p)])] + HandedOver(e, p[Next(p)..])
      && ContextAtEnd(p, has) == ContextAtEnd(p[Next(p)..], has || OpensContext(p))
  {
    hide IsInvalid, HasFlag, U32;
  }

  lemma {:induction false} SegmentStep(was: Bytes, now: Bytes, pos: nat, end: nat, e: Option<Env>)
    requires pos + HEADER_SIZE <= end <= |was|
    requires now == Splice(was, pos, Checked(e, was[pos..end]))
    ensures |now| == |was| && now[..pos] == was[..pos] && now[end..] == was[end..]
    ensures now[pos..end] == Checked(e, was[pos..end])
    ensures now[..end] == now[..pos] + now[pos..end]
    ensures was[pos..][..end - pos] == was[pos..end] && was[pos..][end - pos..] == was[end..]
  {
    hide Checked;
  }

  lemma {:induction false} ConcatSnoc(parts: seq<Bytes>, b: Bytes)
    ensures Concat(parts + [b]) == Concat(parts) + b
  {
    if parts == [] {
      assert Concat([b]) == b;
    } else {
      assert (parts + [b])[1..] == parts[1..] + [b];
      ConcatSnoc(parts[1..], b);
    }
  }
}
