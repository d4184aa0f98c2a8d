/** Counter with CBC-MAC (NIST SP 800-38C) as pure functions: the formatting of
    appendix A with the length-prefix thresholds the server uses, generation and
    decryption-verification, and the obligations of section 5.4. */
module CcmSpec {
  import opened Bytes
  import opened BlockModes
  import opened Wrappers

  datatype Params = Params(nonceSize: nat, tagSize: nat) {
    predicate Legal() {
      7 <= nonceSize <= 13 && 4 <= tagSize <= 16 && tagSize % 2 == 0
    }

    /** The octet length of the payload length field. */
    function Q(): nat
      requires Legal()
    {
      15 - nonceSize
    }

    predicate Fits(nonce: Bytes, data: Bytes, payload: Bytes)
      requires Legal()
    {
      |nonce| == nonceSize && |data| < Pow256(8) && |payload| < Pow256(Q())
    }
  }

  // ---------------------------------------------------------------- formatting

  /** The counter block Ctr_j of section A.3. */
  function CtrBlock(p: Params, nonce: Bytes, j: nat): Block
    requires p.Legal() && |nonce| == p.nonceSize
  {
    [p.Q() - 1] + nonce + BE(p.Q(), j)
  }

  /** The first block B_0 of section A.2.1. */
  function FirstBlock(p: Params, nonce: Bytes, hasData: bool, len: nat): Block
    requires p.Legal() && |nonce| == p.nonceSize
  {
    [(if hasData then 64 else 0) + 8 * ((p.tagSize - 2) / 2) + (p.Q() - 1)] + nonce + BE(p.Q(), len)
  }

  /** The associated-data length prefix as the server writes it. */
  function LengthPrefix(a: nat): Bytes {
    if a < 0x8000 - 0x80 then BE(2, a)
    else if a <= 0x7FFF_FFFF then [0xff, 0xfe] + BE(4, a)
    else [0xff, 0xff] + BE(8, a)
  }

  /** The prefix of section A.2.2. */
  function StandardLengthPrefix(a: nat): Bytes {
    if a < 0x1_0000 - 0x100 then BE(2, a)
    else if a < 0x1_0000_0000 then [0xff, 0xfe] + BE(4, a)
    else [0xff, 0xff] + BE(8, a)
  }

  function FormatWith(p: Params, nonce: Bytes, prefix: Bytes, data: Bytes, payload: Bytes): (r: Bytes)
    requires p.Legal() && |nonce| == p.nonceSize
    ensures |r| % 16 == 0
  {
    var padded := if |data| > 0 then PadToBlock(prefix + data) else [];
    WholeBlocks(|padded|, |PadToBlock(payload)|);
    FirstBlock(p, nonce, |data| > 0, |payload|) + padded + PadToBlock(payload)
  }

  lemma {:induction false} WholeBlocks(a: nat, b: nat)
    requires a % 16 == 0 && b % 16 == 0
    ensures (16 + a + b) % 16 == 0
  {
  }

  /** The block sequence B_0 B_1 ... that is authenticated. */
  function Formatted(p: Params, nonce: Bytes, data: Bytes, payload: Bytes): (r: Bytes)
    requires p.Legal() && |nonce| == p.nonceSize
    ensures |r| % 16 == 0
  {
    FormatWith(p, nonce, LengthPrefix(|data|), data, payload)
  }

  // --------------------------------------------------- generation and opening

  function Tag(e: Cipher, p: Params, nonce: Bytes, data: Bytes, payload: Bytes): Block
    requires p.Legal() && |nonce| == p.nonceSize
  {
    Cbc(e, ZERO_BLOCK, Formatted(p, nonce, data, payload))
  }

  /** S_1 S_2 ... truncated to n bytes. */
  function PayloadStream(e: Cipher, p: Params, nonce: Bytes, n: nat): (r: Bytes)
    requires p.Legal() && |nonce| == p.nonceSize
    ensures |r| == n
    ensures forall i :: 0 <= i < n ==> r[i] == e(CtrBlock(p, nonce, 1 + i / 16))[i % 16]
  {
    seq(n, i requires 0 <= i => e(CtrBlock(p, nonce, 1 + i / 16))[i % 16])
  }

  /** The encrypted payload and the full 16-byte masked tag of m, as they are laid
      out in the output buffer. */
  function SealFull(e: Cipher, p: Params, nonce: Bytes, data: Bytes, payload: Bytes, m: Bytes): (r: Bytes)
    requires p.Legal() && |nonce| == p.nonceSize
    ensures |r| == |payload| + 16
  {
    XorSeq(payload, PayloadStream(e, p, nonce, |payload|))
    + XorBlock(e(CtrBlock(p, nonce, 0)), Tag(e, p, nonce, data, m))
  }

  /** Section 6.1: the ciphertext with the tag truncated to tagSize. */
  function Sealed(e: Cipher, p: Params, nonce: Bytes, data: Bytes, payload: Bytes): (r: Bytes)
    requires p.Legal() && |nonce| == p.nonceSize
    ensures |r| == |payload| + p.tagSize
  {
    SealFull(e, p, nonce, data, payload, payload)[..|payload| + p.tagSize]
  }

  /** Section 6.2: the payload, or nothing when the tag does not match. */
  function Opened(e: Cipher, p: Params, nonce: Bytes, data: Bytes, c: Bytes): Option<Bytes>
    requires p.Legal() && |nonce| == p.nonceSize && |c| >= p.tagSize
  {
    var n := |c| - p.tagSize;
    var payload := XorSeq(c[..n], PayloadStream(e, p, nonce, n));
    var t := XorBlock(Tag(e, p, nonce, data, payload), e(CtrBlock(p, nonce, 0)));
    if t[..p.tagSize] == c[n..] then Some(payload) else None
  }

  lemma {:induction false} XorBlockComm(a: Block, b: Block)
    ensures XorBlock(a, b) == XorBlock(b, a)
  {
    forall i | 0 <= i < 16 ensures Xor(a[i], b[i]) == Xor(b[i], a[i]) {
      XorNatComm(a[i], b[i]);
    }
  }

  /** Opening accepts a string as the payload x exactly when that string is the
      sealing of x: every sealed payload opens to itself, and nothing else opens. */
  lemma {:induction false} OpenedIffSealed(e: Cipher, p: Params, nonce: Bytes, data: Bytes, c: Bytes, x: Bytes)
    requires p.Legal() && |nonce| == p.nonceSize && |c| >= p.tagSize
    ensures Opened(e, p, nonce, data, c) == Some(x) <==> c == Sealed(e, p, nonce, data, x)
  {
    hide Tag, CtrBlock, PayloadStream, XorBlock, Xor;
    var n := |c| - p.tagSize;
    var k := PayloadStream(e, p, nonce, n);
    var y := XorSeq(c[..n], k);
    XorSeqTwice(c[..n], k);
    assert c == c[..n] + c[n..];
    assert Opened(e, p, nonce, data, c) == Some(y) <==> c == Sealed(e, p, nonce, data, y) by {
      XorBlockComm(Tag(e, p, nonce, data, y), e(CtrBlock(p, nonce, 0)));
      var full := SealFull(e, p, nonce, data, y, y);
      assert full[..n] == c[..n];
      assert Sealed(e, p, nonce, data, y)[n..] == full[n..][..p.tagSize];
      assert Sealed(e, p, nonce, data, y)[..n] == full[..n];
    }
    if c == Sealed(e, p, nonce, data, x) {
      assert |x| == n;
      assert c[..n] == XorSeq(x, k);
      XorSeqTwice(x, k);
    }
  }

  // -------------------------------------------------- section 5.4 obligations

  function Sub(s: Bytes, off: nat, n: nat): Bytes {
    if off + n <= |s| then s[off..off + n] else []
  }

  /** Reads a length prefix: how many bytes it takes and the length it announces. */
  function ReadPrefix(s: Bytes, off: nat): (nat, nat) {
    var w := BEVal(Sub(s, off, 2));
    if w == 0xfffe then (6, BEVal(Sub(s, off + 2, 4)))
    else if w == 0xffff then (10, BEVal(Sub(s, off + 2, 8)))
    else (2, w)
  }

  /** Recovers nonce, associated data and payload from a formatted string. */
  function Parse(p: Params, s: Bytes): (Bytes, Bytes, Bytes)
    requires p.Legal()
  {
    var flags := Sub(s, 0, 1);
    var nonce := Sub(s, 1, p.nonceSize);
    var len := BEVal(Sub(s, 1 + p.nonceSize, p.Q()));
    if |flags| == 1 && flags[0] / 64 % 2 == 1 then
      var (k, a) := ReadPrefix(s, 16);
      var off := 16 + k + a + PadLen(k + a);
      (nonce, Sub(s, 16 + k, a), Sub(s, off, len))
    else
      (nonce, [], Sub(s, 16, len))
  }

  lemma {:induction false} SubConcat(a: Bytes, b: Bytes, off: nat, n: nat)
    ensures Sub(a + b, |a| + off, n) == Sub(b, off, n)
    ensures off + n <= |a| ==> Sub(a + b, off, n) == a[off..off + n]
  {
  }

  lemma {:induction false} ReadPrefixInverts(a: nat, pre: Bytes, tail: Bytes)
    requires a < Pow256(8)
    ensures ReadPrefix(pre + LengthPrefix(a) + tail, |pre|) == (|LengthPrefix(a)|, a)
  {
    SmallPowers();
    var l := LengthPrefix(a);
    var s := pre + l + tail;
    if a < 0x8000 - 0x80 {
      BEValBE(2, a);
      assert Sub(s, |pre|, 2) == l;
    } else {
      var n := if a <= 0x7FFF_FFFF then 4 else 8;
      BEValBE(n, a);
      assert Sub(s, |pre|, 2) == l[..2];
      assert l[..2][..1] == [0xff] && [0xff][..0] == [];
      assert BEVal([]) == 0 && BEVal([0xff]) == 0xff;
      assert BEVal(l[..2]) == if n == 4 then 0xfffe else 0xffff;
      assert Sub(s, |pre| + 2, n) == BE(n, a);
    }
  }

  /** The header block alone yields the nonce, the data flag and the payload length. */
  predicate HeaderReads(p: Params, f0: Block, nonce: Bytes, hasData: bool, len: nat)
    requires p.Legal()
  {
    && f0[1..1 + p.nonceSize] == nonce
    && BEVal(f0[1 + p.nonceSize..16]) == len
    && (f0[0] / 64 % 2 == 1 <==> hasData)
  }

  lemma {:induction false} ReadFirstBlock(p: Params, nonce: Bytes, hasData: bool, len: nat)
    requires p.Legal() && |nonce| == p.nonceSize && len < Pow256(p.Q())
    ensures HeaderReads(p, FirstBlock(p, nonce, hasData, len), nonce, hasData, len)
  {
    var f0 := FirstBlock(p, nonce, hasData, len);
    BEValBE(p.Q(), len);
    assert f0[1..1 + p.nonceSize] == nonce;
    assert f0[1 + p.nonceSize..16] == BE(p.Q(), len);
  }

  /** The data section that follows the header block, with anything behind it. */
  lemma {:induction false} ReadDataSection(f0: Block, data: Bytes, after: Bytes)
    requires 0 < |data| < Pow256(8)
    ensures var l := LengthPrefix(|data|);
            var s := f0 + (PadToBlock(l + data) + after);
            && ReadPrefix(s, 16) == (|l|, |data|)
            && Sub(s, 16 + |l|, |data|) == data
  {
    var l := LengthPrefix(|data|);
    var rest := data + (Zeros(PadLen(|l + data|)) + after);
    var s := f0 + (PadToBlock(l + data) + after);
    assert s == f0 + l + rest;
    ReadPrefixInverts(|data|, f0, rest);
    SubConcat(f0 + l, rest, 0, |data|);
  }

  lemma {:induction false} ParseSections(p: Params, f0: Block, nonce: Bytes, data: Bytes, payload: Bytes, tail: Bytes, mid: Bytes)
    requires p.Legal() && HeaderReads(p, f0, nonce, |data| > 0, |payload|) && |data| < Pow256(8)
    requires mid == if |data| > 0 then PadToBlock(LengthPrefix(|data|) + data) else []
    ensures Parse(p, f0 + (mid + (payload + tail))) == (nonce, data, payload)
  {
    hide LengthPrefix, PadToBlock, BEVal, Sub, ReadPrefix, Parse, PadLen;
    var after := payload + tail;
    var s := f0 + (mid + after);
    assert Sub(s, 1, p.nonceSize) == nonce && s[0] == f0[0] by {
      SubConcat(f0, mid + after, 1, p.nonceSize);
    }
    assert BEVal(Sub(s, 1 + p.nonceSize, p.Q())) == |payload| by {
      SubConcat(f0, mid + after, 1 + p.nonceSize, p.Q());
    }
    assert Sub(s, 16 + |mid|, |payload|) == payload by {
      ReadPayload(f0, mid, payload, tail);
    }
    if |data| > 0 {
      var k := |LengthPrefix(|data|)|;
      assert ReadPrefix(s, 16) == (k, |data|) && Sub(s, 16 + k, |data|) == data by {
        ReadDataSection(f0, data, after);
      }
      ParseWith(p, s, k, |data|);
      assert 16 + k + |data| + PadLen(k + |data|) == 16 + |mid|;
    } else {
      ParseWithout(p, s);
    }
  }

  lemma {:induction false} ParseWith(p: Params, s: Bytes, k: nat, a: nat)
    requires p.Legal() && |s| >= 1 && s[0] / 64 % 2 == 1 && ReadPrefix(s, 16) == (k, a)
    ensures Parse(p, s) == (Sub(s, 1, p.nonceSize), Sub(s, 16 + k, a),
                            Sub(s, 16 + k + a + PadLen(k + a), BEVal(Sub(s, 1 + p.nonceSize, p.Q()))))
  {
  }

  lemma {:induction false} ParseWithout(p: Params, s: Bytes)
    requires p.Legal() && |s| >= 1 && s[0] / 64 % 2 == 0
    ensures Parse(p, s) == (Sub(s, 1, p.nonceSize), [], Sub(s, 16, BEVal(Sub(s, 1 + p.nonceSize, p.Q()))))
  {
  }

  lemma {:induction false} ReadPayload(f0: Block, mid: Bytes, payload: Bytes, tail: Bytes)
    ensures Sub(f0 + (mid + (payload + tail)), 16 + |mid|, |payload|) == payload
  {
    SubConcat(f0, mid + (payload + tail), |mid|, |payload|);
    SubConcat(mid, payload + tail, 0, |payload|);
    SubConcat(payload, tail, 0, |payload|);
  }

  /** Unique decodability, even when more bytes follow: no formatted string is a
      proper prefix of another one. */
  lemma {:induction false} ParseInvertsFormat(p: Params, nonce: Bytes, data: Bytes, payload: Bytes, tail: Bytes)
    requires p.Legal() && p.Fits(nonce, data, payload)
    ensures Parse(p, Formatted(p, nonce, data, payload) + tail) == (nonce, data, payload)
  {
    var f0 := FirstBlock(p, nonce, |data| > 0, |payload|);
    var mid := if |data| > 0 then PadToBlock(LengthPrefix(|data|) + data) else [];
    var pad := Zeros(PadLen(|payload|));
    ReadFirstBlock(p, nonce, |data| > 0, |payload|);
    ParseSections(p, f0, nonce, data, payload, pad + tail, mid);
    Regroup(f0, mid, payload, pad, tail);
  }

  lemma {:induction false} Regroup(a: Bytes, b: Bytes, c: Bytes, d: Bytes, e: Bytes)
    ensures a + b + (c + d) + e == a + (b + (c + (d + e)))
  {
  }

  /** Distinct inputs under one nonce differ in a block that both formattings
      have, so neither MAC computation extends the other. */
  lemma {:induction false} DistinctInputsDivergeInCommonBlock(p: Params, nonce: Bytes, d1: Bytes, x1: Bytes, d2: Bytes, x2: Bytes)
      returns (i: nat)
    requires p.Legal() && p.Fits(nonce, d1, x1) && p.Fits(nonce, d2, x2)
    requires d1 != d2 || x1 != x2
    ensures var f1, f2 := Formatted(p, nonce, d1, x1), Formatted(p, nonce, d2, x2);
            && 16 * i + 16 <= |f1| && 16 * i + 16 <= |f2|
            && f1[16 * i..16 * i + 16] != f2[16 * i..16 * i + 16]
  {
    hide Formatted, Parse;
    var f1, f2 := Formatted(p, nonce, d1, x1), Formatted(p, nonce, d2, x2);
    var n := if |f1| <= |f2| then |f1| else |f2|;
    ParseInvertsFormat(p, nonce, d1, x1, f2[n..]);
    ParseInvertsFormat(p, nonce, d2, x2, f1[n..]);
    EqualPrefixes(f1, f2, n);
    i := FirstDifferingBlock(f1[..n], f2[..n]);
    SliceOfTake(f1, n, 16 * i);
    SliceOfTake(f2, n, 16 * i);
  }

  lemma {:induction false} EqualPrefixes(a: Bytes, b: Bytes, n: nat)
    requires n <= |a| && n <= |b|
    ensures n == |a| || n == |b| ==> a[..n] == b[..n] ==> a + b[n..] == b + a[n..]
  {
    if a[..n] == b[..n] {
      assert a == a[..n] + a[n..] && b == b[..n] + b[n..];
    }
  }

  lemma {:induction false} SliceOfTake(s: Bytes, n: nat, k: nat)
    requires k + 16 <= n <= |s|
    ensures s[k..k + 16] == s[..n][k..k + 16]
  {
  }

  lemma {:induction false} FirstDifferingBlock(a: Bytes, b: Bytes) returns (i: nat)
    requires |a| == |b| && |a| % 16 == 0 && a != b
    ensures 16 * i + 16 <= |a| && a[16 * i..16 * i + 16] != b[16 * i..16 * i + 16]
  {
    if a[..16] != b[..16] {
      i := 0;
    } else {
      assert a == a[..16] + a[16..] && b == b[..16] + b[16..];
      var j := FirstDifferingBlock(a[16..], b[16..]);
      i := j + 1;
      assert a[16..][16 * j..16 * j + 16] == a[16 * i..16 * i + 16];
      assert b[16..][16 * j..16 * j + 16] == b[16 * i..16 * i + 16];
    }
  }

  /** B_0 of any message differs from every counter block of any message. */
  lemma {:induction false} FirstBlockIsNoCounterBlock(p: Params, n1: Bytes, n2: Bytes, hasData: bool, len: nat, j: nat)
    requires p.Legal() && |n1| == p.nonceSize && |n2| == p.nonceSize
    ensures FirstBlock(p, n1, hasData, len) != CtrBlock(p, n2, j)
  {
    assert FirstBlock(p, n1, hasData, len)[0] != CtrBlock(p, n2, j)[0];
  }

  /** A counter block read as a number: the counter on top of a fixed prefix. */
  lemma {:induction false} CtrBlockValue(p: Params, nonce: Bytes, j: nat)
    requires p.Legal() && |nonce| == p.nonceSize && j < Pow256(p.Q())
    ensures BEVal(CtrBlock(p, nonce, j)) == BEVal([p.Q() - 1] + nonce) * Pow256(p.Q()) + j
  {
    var pre := [p.Q() - 1] + nonce;
    assert CtrBlock(p, nonce, j) == pre + BE(p.Q(), j);
    BEValConcat(pre, BE(p.Q(), j));
    BEValBE(p.Q(), j);
  }

  /** Within the payload limit the 128-bit increment never carries into the nonce:
      the running counter equals the counter block of the standard. */
  lemma {:induction false} CounterStaysInField(p: Params, nonce: Bytes, j: nat)
    requires p.Legal() && |nonce| == p.nonceSize && 1 + j < Pow256(p.Q())
    ensures CounterAdd(CtrBlock(p, nonce, 1), j) == CtrBlock(p, nonce, 1 + j)
  {
    CtrBlockValue(p, nonce, 1);
    CtrBlockValue(p, nonce, 1 + j);
    CounterAddReaches(CtrBlock(p, nonce, 1), j, CtrBlock(p, nonce, 1 + j));
  }

  lemma {:induction false} CounterAddReaches(iv: Block, j: nat, b: Block)
    requires BEVal(b) == BEVal(iv) + j
    ensures CounterAdd(iv, j) == b
  {
    WrapOfValue(b, BEVal(iv) + j);
  }

  lemma {:induction false} WrapOfValue(s: Bytes, v: nat)
    requires v == BEVal(s)
    ensures BE(|s|, v % Pow256(|s|)) == s
  {
    BEBEVal(s);
    SmallMod(v, Pow256(|s|));
  }

  lemma {:induction false} SmallMod(v: nat, m: nat)
    requires v < m
    ensures v % m == v
  {
  }

  lemma {:induction false} CounterModeIsPayloadStream(e: Cipher, p: Params, nonce: Bytes, n: nat)
    requires p.Legal() && |nonce| == p.nonceSize && n < Pow256(p.Q())
    ensures KeyStream(e, CtrBlock(p, nonce, 1), n) == PayloadStream(e, p, nonce, n)
  {
    hide CtrBlock, CounterAdd, Pow256;
    forall i | 0 <= i < n
      ensures KeyByte(e, CtrBlock(p, nonce, 1), i) == e(CtrBlock(p, nonce, 1 + i / 16))[i % 16]
    {
      BlockIndex(i, n);
      CounterStaysInField(p, nonce, i / 16);
    }
  }

  lemma {:induction false} BlockIndex(i: nat, n: nat)
    requires i < n
    ensures 1 + i / 16 <= n
  {
  }

  // ------------------------------------------------------ standard conformance

  predicate ConformingLength(a: nat) {
    a < 0x8000 - 0x80 || 0x1_0000 - 0x100 <= a < 0x8000_0000 || a >= 0x1_0000_0000
  }

  /** The authenticated string is the one of section A.2 exactly outside the two
      bands of data lengths where the thresholds differ. */
  lemma {:induction false} ConformsToStandardIff(p: Params, nonce: Bytes, data: Bytes, payload: Bytes)
    requires p.Legal() && p.Fits(nonce, data, payload)
    ensures Formatted(p, nonce, data, payload)
            == FormatWith(p, nonce, StandardLengthPrefix(|data|), data, payload)
       <==> ConformingLength(|data|)
  {
    PrefixesAgreeIff(|data|);
    PrefixVisible(p, nonce, LengthPrefix(|data|), data, payload);
    PrefixVisible(p, nonce, StandardLengthPrefix(|data|), data, payload);
  }

  /** The two length prefixes agree, or already differ in their first two bytes. */
  lemma {:induction false} PrefixesAgreeIff(a: nat)
    requires a < Pow256(8)
    ensures |LengthPrefix(a)| >= 2 && |StandardLengthPrefix(a)| >= 2
    ensures ConformingLength(a) ==> LengthPrefix(a) == StandardLengthPrefix(a)
    ensures !ConformingLength(a) ==> LengthPrefix(a)[..2] != StandardLengthPrefix(a)[..2]
  {
    var l, l' := LengthPrefix(a), StandardLengthPrefix(a);
    if 0x8000 - 0x80 <= a < 0x1_0000 - 0x100 {
      TwoOctets(a);
      assert l[..2][0] == 0xff && l'[..2][0] == a / 256;
    } else if 0x8000_0000 <= a < 0x1_0000_0000 {
      assert l[..2][1] == 0xff && l'[..2][1] == 0xfe;
    }
  }

  /** The first length of the lower band: the standard still uses two octets. */
  lemma {:induction false} ShortFormEndsEarly()
    ensures LengthPrefix(0x7F80) == [0xff, 0xfe] + BE(4, 0x7F80)
    ensures StandardLengthPrefix(0x7F80) == [0x7F, 0x80]
  {
    TwoOctets(0x7F80);
  }

  lemma {:induction false} TwoOctets(a: nat)
    requires a < 0x1_0000
    ensures BE(2, a) == [a / 256, a % 256]
  {
    assert BE(0, a / 256 / 256) == [];
    assert BE(1, a / 256) == [a / 256 % 256];
  }

  lemma {:induction false} PrefixVisible(p: Params, nonce: Bytes, prefix: Bytes, data: Bytes, payload: Bytes)
    requires p.Legal() && |nonce| == p.nonceSize && |prefix| >= 2
    ensures |data| > 0 ==> |FormatWith(p, nonce, prefix, data, payload)| >= 18
    ensures |data| > 0 ==> FormatWith(p, nonce, prefix, data, payload)[16..18] == prefix[..2]
  {
  }
}
