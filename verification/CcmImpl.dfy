/** The buffer-reusing implementation of CCM, proved against CcmSpec: the lazy
    CBC-MAC, the tag computation that overwrites the counter block, and sealing
    and opening into slices that may share storage with their input. */
module CcmImpl {
  import opened Bytes
  import opened BlockModes
  import opened CcmSpec
  import opened Slices
  import opened Wrappers

  method EncryptInPlace(e: Cipher, a: array<byte>)
    requires a.Length == 16
    modifies a
    ensures a[..] == e(old(a[..]))
  {
    var out := e(a[..]);
    CopyInto(a, 0, out);
    assert a[..] == out;
  }

  class Mac {
    const e: Cipher
    const ci: array<byte>
    var p: nat

    ghost predicate Valid()
      reads this
    {
      ci.Length == 16 && p <= 16
    }

    ghost function State(): Chain
      requires Valid()
      reads this, ci
    {
      Chain(ci[..], p)
    }

    constructor (e: Cipher)
      ensures Valid() && this.e == e && fresh(ci)
    {
      this.e := e;
      this.ci := new byte[16](_ => 0);
      this.p := 0;
    }

    method Reset()
      requires Valid()
      modifies this, ci
      ensures Valid() && State() == Chain(ZERO_BLOCK, 0)
    {
      forall i | 0 <= i < 16 {
        ci[i] := 0;
      }
      p := 0;
      assert ci[..] == ZERO_BLOCK;
    }

    method Write(m: Bytes)
      requires Valid()
      modifies this, ci
      ensures Valid() && State() == Absorb(e, old(State()), m)
    {
      ghost var s := State();
      assert m[..0] == [];
      for i := 0 to |m|
        invariant Valid() && State() == Absorb(e, s, m[..i])
      {
        assert m[..i + 1][..i] == m[..i];
        if p >= 16 {
          EncryptInPlace(e, ci);
          p := 0;
        }
        ghost var c := ci[..];
        ci[p] := Xor(ci[p], m[i]);
        assert ci[..] == c[p := Xor(c[p], m[i])];
        p := p + 1;
      }
      assert m[..|m|] == m;
    }

    method PadZero()
      requires Valid()
      modifies this, ci
      ensures Valid() && State() == BlockModes.PadZero(e, old(State()))
    {
      if p != 0 {
        EncryptInPlace(e, ci);
        p := 0;
      }
    }

    method Sum() returns (t: Block)
      requires Valid()
      ensures t == State().ci
    {
      t := ci[..];
    }
  }

  /** The largest payload length whose length fits n octets, in wrapping 64-bit
      arithmetic: for n = 8 the shift itself overflows to zero. */
  function MaxUvarint(n: nat): nat {
    (Pow256(n) % 0x1_0000_0000_0000_0000 + 0xFFFF_FFFF_FFFF_FFFF) % 0x1_0000_0000_0000_0000
  }

  lemma {:induction false} MaxUvarintIsLimit(n: nat)
    requires 1 <= n <= 8
    ensures MaxUvarint(n) == Pow256(n) - 1
  {
    assert Pow256(2) == 0x1_0000 && Pow256(4) == 0x1_0000_0000 && Pow256(6) == 0x1_0000_0000_0000
        && Pow256(8) == 0x1_0000_0000_0000_0000;
  }

  /** Writes u big-endian into the n bytes at off. */
  method PutUvarint(a: array<byte>, off: nat, n: nat, u: nat)
    requires off + n <= a.Length
    modifies a
    ensures a[..] == Splice(old(a[..]), off, BE(n, u))
  {
    ghost var was := a[..];
    for i := 0 to n
      invariant a[..] == Splice(was, off, BE(n, u)[..i])
    {
      BEDigit(n, u, i);
      a[off + i] := u / Pow256(n - 1 - i) % 256;
    }
    assert BE(n, u)[..n] == BE(n, u);
  }

  lemma {:induction false} BEDigit(n: nat, u: nat, i: nat)
    requires i < n
    ensures BE(n, u)[i] == u / Pow256(n - 1 - i) % 256
  {
    if i < n - 1 {
      BEDigit(n - 1, u / 256, i);
      DivDiv(u, 256, Pow256(n - 2 - i));
    }
  }

  lemma {:induction false} DivDiv(u: nat, a: nat, b: nat)
    requires a > 0 && b > 0
    ensures a * b > 0 && u / (a * b) == u / a / b
  {
    var q, r := u / a / b, u / a % b;
    assert u / a == b * q + r;
    assert u == a * (b * q + r) + u % a;
    MulAssoc(a, b, q);
    assert u == (a * b) * q + (a * r + u % a);
    MulMono(a, r, b - 1);
    DivUnique(u, a * b, q, a * r + u % a);
  }

  class Ccm {
    const e: Cipher
    const mac: Mac
    const p: Params

    ghost predicate Valid()
      reads this, mac
    {
      p.Legal() && mac.e == e && mac.Valid()
    }

    constructor (e: Cipher, p: Params)
      requires p.Legal()
      ensures Valid() && this.e == e && this.p == p && fresh(mac) && fresh(mac.ci)
    {
      this.e := e;
      this.p := p;
      this.mac := new Mac(e);
    }

    /** Turns the counter block given in b into B_0. */
    method MakeFirstBlock(b: array<byte>, nonce: Bytes, hasData: bool, len: nat)
      requires p.Legal() && b.Length == 16
      requires |nonce| == p.nonceSize && b[..] == CtrBlock(p, nonce, 1)
      modifies b
      ensures b[..] == FirstBlock(p, nonce, hasData, len)
    {
      hide CtrBlock, FirstBlock, Or, Splice, BE, TagField;
      ghost var b0 := b[..];
      OrFirst(b, TagField(p));
      ghost var b1 := b[..];
      PutUvarint(b, 1 + p.nonceSize, p.Q(), len);
      ghost var b2 := b[..];
      if hasData {
        OrFirst(b, 64);
      }
      FirstBlockFormed(p, nonce, hasData, len, b0, b1, b2);
    }

    /** Sets bits of the first octet. */
    static method OrFirst(b: array<byte>, bits: byte)
      requires b.Length > 0
      modifies b
      ensures b[..] == old(b[..])[0 := Or(old(b[..])[0], bits)]
    {
      b[0] := Or(b[0], bits);
    }

    /** Overwrites the front of b with the data length prefix. */
    method PutLengthPrefix(b: array<byte>, a: nat) returns (l: nat)
      requires b.Length == 16
      modifies b
      ensures l <= 16 && b[..l] == LengthPrefix(a)
    {
      if a < 0x8000 - 0x80 {
        PutUvarint(b, 0, 2, a);
        l := 2;
      } else if a <= 0x7FFF_FFFF {
        b[0] := 0xff;
        b[1] := 0xfe;
        PutUvarint(b, 2, 4, a);
        l := 6;
      } else {
        b[0] := 0xff;
        b[1] := 0xff;
        PutUvarint(b, 2, 8, a);
        l := 10;
      }
      assert b[..l] == LengthPrefix(a);
    }

    /** Computes the tag, overwriting the counter block in b twice. */
    method GetTag(b: array<byte>, nonce: Bytes, data: Bytes, payload: Bytes) returns (t: Block)
      requires Valid() && b != mac.ci && b.Length == 16
      requires |nonce| == p.nonceSize && b[..] == CtrBlock(p, nonce, 1)
      modifies b, mac, mac.ci
      ensures Valid()
      ensures t == Tag(e, p, nonce, data, payload)
    {
      mac.Reset();
      MakeFirstBlock(b, nonce, |data| > 0, |payload|);
      mac.Write(b[..]);
      if |data| > 0 {
        var l := PutLengthPrefix(b, |data|);
        mac.Write(b[..l]);
        mac.Write(data);
        mac.PadZero();
        StreamWithData(e, ZERO_BLOCK, FirstBlock(p, nonce, true, |payload|), LengthPrefix(|data|), data, payload,
                       Formatted(p, nonce, data, payload));
      } else {
        StreamWithoutData(e, ZERO_BLOCK, FirstBlock(p, nonce, false, |payload|), payload);
      }
      mac.Write(payload);
      mac.PadZero();
      t := mac.Sum();
    }

    /** A fresh Ctr_0 block. */
    method NewCounter(nonce: Bytes) returns (ctr: array<byte>)
      requires p.Legal() && |nonce| == p.nonceSize
      ensures fresh(ctr) && ctr.Length == 16 && ctr[..] == CtrBlock(p, nonce, 0)
    {
      ctr := new byte[16](_ => 0);
      ctr[0] := 15 - p.nonceSize - 1;
      CopyInto(ctr, 1, nonce);
      CounterBlockZero(p, nonce, ctr[..]);
    }

    /** Lays S_0 and, in front of it, the ciphertext of x down at out. */
    method MaskInto(a: array<byte>, out: nat, nonce: Bytes, x: Bytes) returns (ctr: array<byte>)
      requires p.Legal() && |nonce| == p.nonceSize && |x| < Pow256(p.Q())
      requires out + |x| + 16 <= a.Length
      modifies a
      ensures fresh(ctr) && ctr.Length == 16 && ctr[..] == CtrBlock(p, nonce, 1)
      ensures a[..] == Splice(old(a[..]), out,
                              XorSeq(x, PayloadStream(e, p, nonce, |x|)) + e(CtrBlock(p, nonce, 0)))
    {
      ctr := NewCounter(nonce);
      var s0 := e(ctr[..]);
      CopyInto(a, out + |x|, s0);
      ctr[15] := 1;
      CounterBlockOne(p, nonce, ctr[..]);
      var c := XorSeq(x, KeyStream(e, ctr[..], |x|));
      CounterModeIsPayloadStream(e, p, nonce, |x|);
      CopyInto(a, out, c);
    }

    /** Fills the n + 16 bytes at out with ciphertext and masked tag. The payload
        may sit exactly at out; the tag then covers what its storage holds by then. */
    method SealInto(a: array<byte>, out: nat, nonce: Bytes, payload: Slice, data: Bytes)
      requires Valid() && payload.Valid() && a != mac.ci && payload.arr != mac.ci
      requires |nonce| == p.nonceSize && payload.len < Pow256(p.Q())
      requires out + payload.len + 16 <= a.Length
      requires payload.SitsAt(a, out) || payload.Apart(a, out, out + payload.len + 16)
      modifies a, mac, mac.ci
      ensures Valid()
      ensures a[..] == Splice(old(a[..]), out, Written(e, p, nonce, data, old(payload.Get()), payload.SitsAt(a, out)))
    {
      hide Tag, PayloadStream, CtrBlock, Splice, Pow256, XorSeq;
      var n := payload.len;
      ghost var pre := a[..];
      ghost var x := payload.Get();
      var ctr := MaskInto(a, out, nonce, payload.Get());
      ghost var c := XorSeq(x, PayloadStream(e, p, nonce, n));
      ghost var s0 := e(CtrBlock(p, nonce, 0));
      SplicedPair(pre, out, c, s0, a[..]);
      ghost var m := if payload.SitsAt(a, out) then c else x;
      if payload.arr == a && !payload.SitsAt(a, out) {
        SpliceOutside(pre, out, c + s0, payload.off, payload.off + n);
        WindowOf(payload, a[..]);
      }
      assert payload.Get() == m;
      var t := GetTag(ctr, nonce, data, payload.Get());
      SplicedTail(pre, out, c, s0, XorBlock(s0, t));
      assert a[out + n..out + n + 16] == s0;
      var tag := Slice(a, out + n, 16, 16);
      var _ := XorBytes(tag, tag, t);
    }

    /** Encrypts and authenticates behind dst. */
    method Seal(dst: Slice, nonce: Bytes, payload: Slice, data: Bytes) returns (ret: Option<Slice>)
      requires Valid() && dst.Valid() && payload.Valid()
      requires dst.arr != mac.ci && payload.arr != mac.ci
      requires |nonce| == p.nonceSize
      requires var out := dst.off + dst.len;
        || payload.SitsAt(dst.arr, out) || payload.Apart(dst.arr, out, out + payload.len + 16)
        || dst.cap < dst.len + payload.len + 16
      modifies dst.arr, mac, mac.ci
      ensures Valid()
      ensures ret.None? <==> payload.len >= Pow256(p.Q())
      ensures ret.None? ==> dst.arr[..] == old(dst.arr[..])
      ensures ret.Some? ==>
                var inPlace := payload.SitsAt(dst.arr, dst.off + dst.len) && dst.cap >= dst.len + payload.len + 16;
                var w := Written(e, p, nonce, data, old(payload.Get()), inPlace);
                && ret.value.Valid() && ret.value.len == payload.len + p.tagSize
                && Appended(ret.value.(len := dst.len + |w|), dst, old(dst.Get()), w)
                && (if dst.cap >= dst.len + |w|
                    then ret.value.SameStart(dst) && dst.arr[..] == Splice(old(dst.arr[..]), dst.off + dst.len, w)
                    else fresh(ret.value.arr) && dst.arr[..] == old(dst.arr[..]))
    {
      hide Opened, Written, PayloadStream, Tag, CtrBlock, Splice, Pow256, MaxUvarint, XorBlock, XorSeq;
      MaxUvarintIsLimit(p.Q());
      if MaxUvarint(15 - p.nonceSize) < payload.len {
        return None;
      }
      var n := payload.len;
      ghost var x := payload.Get();
      ghost var before := dst.arr[..];
      var head, tail := SliceForAppend(dst, n + 16);
      ghost var pre := head.arr[..];
      SealInto(head.arr, tail.off, nonce, payload, data);
      ghost var w := Written(e, p, nonce, data, x, payload.SitsAt(head.arr, tail.off));
      SpliceBehind(pre, head.off, tail.off, w);
      ret := Some(head.(len := n + p.tagSize));
    }

    /** Decrypts the n bytes at src into out, which may be the same place, and
        returns the tag expected behind them. */
    method OpenInto(a: array<byte>, out: nat, nonce: Bytes, c: Bytes, data: Bytes) returns (t: Block)
      requires Valid() && a != mac.ci
      requires |nonce| == p.nonceSize && |c| < Pow256(p.Q())
      requires out + |c| <= a.Length
      modifies a, mac, mac.ci
      ensures Valid()
      ensures var x := XorSeq(c, PayloadStream(e, p, nonce, |c|));
              && a[..] == Splice(old(a[..]), out, x)
              && t == XorBlock(Tag(e, p, nonce, data, x), e(CtrBlock(p, nonce, 0)))
    {
      ghost var pre := a[..];
      var ctr := NewCounter(nonce);
      var s0 := e(ctr[..]);
      ctr[15] := 1;
      CounterBlockOne(p, nonce, ctr[..]);
      var x := XorSeq(c, KeyStream(e, ctr[..], |c|));
      CounterModeIsPayloadStream(e, p, nonce, |c|);
      CopyInto(a, out, x);
      SpliceBehind(pre, out, out, x);
      var tag := GetTag(ctr, nonce, data, a[out..out + |c|]);
      t := XorSeq(tag, s0);
    }

    /** Extends dst by the decryption of c and returns the expected tag. */
    method OpenBehind(dst: Slice, nonce: Bytes, c: Bytes, data: Bytes) returns (head: Slice, t: Block)
      requires Valid() && dst.Valid() && dst.arr != mac.ci
      requires |nonce| == p.nonceSize && |c| < Pow256(p.Q())
      modifies dst.arr, mac, mac.ci
      ensures Valid()
      ensures var x := XorSeq(c, PayloadStream(e, p, nonce, |c|));
              && Appended(head, dst, old(dst.Get()), x)
              && t == XorBlock(Tag(e, p, nonce, data, x), e(CtrBlock(p, nonce, 0)))
              && (if dst.cap >= dst.len + |c|
                  then head.SameStart(dst) && dst.arr[..] == Splice(old(dst.arr[..]), dst.off + dst.len, x)
                  else fresh(head.arr) && dst.arr[..] == old(dst.arr[..]))
    {
      hide PayloadStream, Tag, CtrBlock, XorBlock, XorSeq, Splice;
      var tail;
      head, tail := SliceForAppend(dst, |c|);
      ghost var pre := head.arr[..];
      t := OpenInto(head.arr, tail.off, nonce, c, data);
      ghost var x := XorSeq(c, PayloadStream(e, p, nonce, |c|));
      SpliceBehind(pre, head.off, tail.off, x);
    }

    /** The same from a ciphertext slice, which may be where the result goes; also
        reads the tag received, after the result has been written. */
    method OpenAside(dst: Slice, nonce: Bytes, ciphertext: Slice, data: Bytes) returns (head: Slice, t: Block, tag: Bytes)
      requires Valid() && dst.Valid() && ciphertext.Valid()
      requires dst.arr != mac.ci && ciphertext.arr != mac.ci
      requires |nonce| == p.nonceSize && p.tagSize < ciphertext.len < p.tagSize + Pow256(p.Q())
      requires var out, n := dst.off + dst.len, ciphertext.len - p.tagSize;
        || ciphertext.SitsAt(dst.arr, out) || ciphertext.Apart(dst.arr, out, out + n)
        || dst.cap < dst.len + n
      modifies dst.arr, mac, mac.ci
      ensures Valid() && tag == old(ciphertext.Get())[ciphertext.len - p.tagSize..]
      ensures var c := old(ciphertext.Get())[..ciphertext.len - p.tagSize];
              var x := XorSeq(c, PayloadStream(e, p, nonce, |c|));
              && Appended(head, dst, old(dst.Get()), x)
              && t == XorBlock(Tag(e, p, nonce, data, x), e(CtrBlock(p, nonce, 0)))
              && (if dst.cap >= dst.len + |c|
                  then head.SameStart(dst) && dst.arr[..] == Splice(old(dst.arr[..]), dst.off + dst.len, x)
                  else fresh(head.arr) && dst.arr[..] == old(dst.arr[..]))
    {
      hide PayloadStream, Tag, CtrBlock, XorBlock, XorSeq, Splice, Pow256;
      var n := ciphertext.len - p.tagSize;
      ghost var c, pre := ciphertext.Get(), ciphertext.arr[..];
      WindowOf(ciphertext, pre);
      head, t := OpenBehind(dst, nonce, ciphertext.Get()[..n], data);
      ghost var post := ciphertext.arr[..];
      if ciphertext.arr == dst.arr && dst.cap >= dst.len + n {
        TailKept(pre, post, dst.off + dst.len, XorSeq(c[..n], PayloadStream(e, p, nonce, n)),
                 ciphertext.off, n, ciphertext.len);
      } else {
        assert post == pre;
      }
      WindowOf(ciphertext, post);
      tag := ciphertext.Get()[n..];
    }

    /** Decrypts behind dst, which may be the emptied ciphertext slice itself, and
        checks the tag. */
    method Open(dst: Slice, nonce: Bytes, ciphertext: Slice, data: Bytes) returns (ret: Option<Slice>)
      requires Valid() && dst.Valid() && ciphertext.Valid()
      requires dst.arr != mac.ci && ciphertext.arr != mac.ci
      requires |nonce| == p.nonceSize && ciphertext.len > p.tagSize
      requires var out, n := dst.off + dst.len, ciphertext.len - p.tagSize;
        || ciphertext.SitsAt(dst.arr, out) || ciphertext.Apart(dst.arr, out, out + n)
        || dst.cap < dst.len + n
      modifies dst.arr, mac, mac.ci
      ensures Valid()
      ensures ret.Some? <==> ciphertext.len - p.tagSize < Pow256(p.Q())
                             && Opened(e, p, nonce, data, old(ciphertext.Get())).Some?
      ensures ret.Some? ==>
                var x := Opened(e, p, nonce, data, old(ciphertext.Get())).value;
                && ret.value.Valid() && Appended(ret.value, dst, old(dst.Get()), x)
                && (if dst.cap >= ret.value.len
                    then ret.value.SameStart(dst) && dst.arr[..] == Splice(old(dst.arr[..]), dst.off + dst.len, x)
                    else fresh(ret.value.arr) && dst.arr[..] == old(dst.arr[..]))
    {
      hide Opened, PayloadStream, Tag, CtrBlock, XorBlock, XorSeq, Splice, MaxUvarint, Pow256;
      MaxUvarintIsLimit(p.Q());
      if MaxUvarint(15 - p.nonceSize) < ciphertext.len - p.tagSize {
        return None;
      }
      ghost var c := ciphertext.Get();
      var head, t, tag := OpenAside(dst, nonce, ciphertext, data);
      OpenedParts(e, p, nonce, data, c);
      if t[..p.tagSize] != tag {
        return None;
      }
      ret := Some(head);
    }
  }

  lemma {:induction false} OpenedParts(e: Cipher, p: Params, nonce: Bytes, data: Bytes, c: Bytes)
    requires p.Legal() && |nonce| == p.nonceSize && |c| >= p.tagSize
    ensures var n := |c| - p.tagSize;
            var x := XorSeq(c[..n], PayloadStream(e, p, nonce, n));
            var t := XorBlock(Tag(e, p, nonce, data, x), e(CtrBlock(p, nonce, 0)));
            Opened(e, p, nonce, data, c) == if t[..p.tagSize] == c[n..] then Some(x) else None
  {
    hide Tag, CtrBlock, PayloadStream;
  }

  /** The slice holds the old contents of dst followed by w. */
  predicate Appended(s: Slice, dst: Slice, before: Bytes, w: Bytes)
    requires dst.Valid()
    reads s.arr
  {
    s.Valid() && s.len == dst.len + |w| && s.Get() == before + w
  }

  /** What Seal writes behind dst. When the payload is encrypted in place the
      authenticated string is the ciphertext instead of the payload. */
  function Written(e: Cipher, p: Params, nonce: Bytes, data: Bytes, x: Bytes, inPlace: bool): (r: Bytes)
    requires p.Legal() && |nonce| == p.nonceSize
    ensures |r| == |x| + 16
  {
    SealFull(e, p, nonce, data, x, if inPlace then XorSeq(x, PayloadStream(e, p, nonce, |x|)) else x)
  }

  /** The tag length field of B_0, in its place in the flags octet. */
  function TagField(p: Params): (r: byte)
    requires p.Legal()
    ensures r < 64
  {
    8 * ((p.tagSize - 2) / 2)
  }

  lemma {:induction false} OrIs(a: byte, b: byte)
    ensures Or(a, b) == OrNat(a, b)
  {
  }

  lemma {:induction false} FirstBlockBits(p: Params)
    requires p.Legal()
    ensures TagField(p) + (p.Q() - 1) < 64
    ensures Or(p.Q() - 1, TagField(p)) == TagField(p) + (p.Q() - 1)
    ensures Or(TagField(p) + (p.Q() - 1), 64) == 64 + (TagField(p) + (p.Q() - 1))
  {
    var k := TagFieldEighths(p);
    var q := p.Q() - 1;
    hide Or, OrNat, TagField;
    OrIs(q, 8 * k); OrIs(8 * k + q, 64);
    OrAbove8(q, k); OrAbove64(8 * k + q);
  }

  lemma {:induction false} TagFieldEighths(p: Params) returns (k: nat)
    requires p.Legal()
    ensures k <= 7 && TagField(p) == 8 * k
  {
    k := (p.tagSize - 2) / 2;
  }

  lemma {:induction false} OrAbove8(q: nat, k: nat)
    requires q < 8
    ensures OrNat(q, 8 * k) == 8 * k + q
  {
    assert Pow2(3) == 8;
    OrNatDisjoint(q, k, 3);
  }

  lemma {:induction false} OrAbove64(q: nat)
    requires q < 64
    ensures OrNat(q, 64) == 64 + q
  {
    assert Pow2(3) == 8 && Pow2(6) == 64;
    OrNatDisjoint(q, 1, 6);
  }

  lemma {:induction false} FirstBlockSteps(p: Params, nonce: Bytes, len: nat)
    requires p.Legal() && |nonce| == p.nonceSize
    ensures var k, c := TagField(p) + (p.Q() - 1), CtrBlock(p, nonce, 1);
            && k < 64 && c[0] == p.Q() - 1
            && Splice(c[0 := k], 1 + p.nonceSize, BE(p.Q(), len)) == FirstBlock(p, nonce, false, len)
            && FirstBlock(p, nonce, false, len)[0] == k
            && FirstBlock(p, nonce, false, len)[0 := 64 + k] == FirstBlock(p, nonce, true, len)
  {
    hide BE;
  }

  lemma {:induction false} FirstBlockFormed(p: Params, nonce: Bytes, hasData: bool, len: nat, b0: Bytes, b1: Bytes, b2: Bytes)
    requires p.Legal() && |nonce| == p.nonceSize && b0 == CtrBlock(p, nonce, 1)
    requires b1 == b0[0 := Or(b0[0], TagField(p))] && b2 == Splice(b1, 1 + p.nonceSize, BE(p.Q(), len))
    ensures |b2| > 0 && (if hasData then b2[0 := Or(b2[0], 64)] else b2) == FirstBlock(p, nonce, hasData, len)
  {
    hide CtrBlock, FirstBlock, Or, Splice, BE, TagField;
    FirstBlockBits(p);
    FirstBlockSteps(p, nonce, len);
  }

  lemma {:induction false} CounterBlockZero(p: Params, nonce: Bytes, b: Bytes)
    requires p.Legal() && |nonce| == p.nonceSize && |b| == 16
    requires b[0] == p.Q() - 1 && b[1..1 + p.nonceSize] == nonce && b[1 + p.nonceSize..] == Zeros(p.Q())
    ensures b == CtrBlock(p, nonce, 0)
  {
    BEZero(p.Q());
    assert b == [b[0]] + b[1..1 + p.nonceSize] + b[1 + p.nonceSize..];
  }

  lemma {:induction false} BEZero(n: nat)
    ensures BE(n, 0) == Zeros(n)
    ensures n > 0 ==> BE(n, 1) == Zeros(n - 1) + [1]
  {
    if n > 0 {
      BEZero(n - 1);
      assert Zeros(n) == Zeros(n - 1) + [0];
    }
  }

  lemma {:induction false} CounterBlockOne(p: Params, nonce: Bytes, b: Bytes)
    requires p.Legal() && |nonce| == p.nonceSize && |b| == 16
    requires b == CtrBlock(p, nonce, 0)[15 := 1]
    ensures b == CtrBlock(p, nonce, 1)
  {
    BEZero(p.Q());
  }

  lemma {:induction false} AbsorbTwoParts(e: Cipher, iv: Block, a: Bytes, b: Bytes)
    ensures BlockModes.PadZero(e, Absorb(e, BlockModes.PadZero(e, Absorb(e, Chain(iv, 0), a)), b))
            == Chain(Cbc(e, iv, PadToBlock(a) + PadToBlock(b)), 0)
  {
    AbsorbThenPad(e, iv, a);
    AbsorbThenPad(e, Cbc(e, iv, PadToBlock(a)), b);
    CbcConcat(e, iv, PadToBlock(a), PadToBlock(b));
  }

  /** The writes and pads that GetTag performs, for any first block. */
  lemma {:induction false} StreamWithData(e: Cipher, iv: Block, b0: Block, l: Bytes, data: Bytes, payload: Bytes, f: Bytes)
    requires |f| % 16 == 0 && f == b0 + PadToBlock(l + data) + PadToBlock(payload)
    ensures var s0 := Absorb(e, Chain(iv, 0), b0);
            var s1 := BlockModes.PadZero(e, Absorb(e, Absorb(e, s0, l), data));
            BlockModes.PadZero(e, Absorb(e, s1, payload))
            == Chain(Cbc(e, iv, f), 0)
  {
    hide *;
    AbsorbConcat(e, Chain(iv, 0), b0, l);
    AbsorbConcat(e, Chain(iv, 0), b0 + l, data);
    assert b0 + l + data == b0 + (l + data);
    AbsorbTwoParts(e, iv, b0 + (l + data), payload);
    PadBehindBlock(b0, l + data);
  }

  lemma {:induction false} StreamWithoutData(e: Cipher, iv: Block, b0: Block, payload: Bytes)
    ensures var s0 := Absorb(e, Chain(iv, 0), b0);
            BlockModes.PadZero(e, Absorb(e, s0, payload))
            == Chain(Cbc(e, iv, b0 + [] + PadToBlock(payload)), 0)
  {
    AbsorbConcat(e, Chain(iv, 0), b0, payload);
    AbsorbThenPad(e, iv, b0 + payload);
    PadBehindBlock(b0, payload);
    assert b0 + [] == b0;
  }

  lemma {:induction false} PadBehindBlock(b0: Bytes, m: Bytes)
    requires |b0| == 16
    ensures PadToBlock(b0 + m) == b0 + PadToBlock(m)
  {
    PadLenPeriod(|m|);
    hide PadLen;
  }

  lemma {:induction false} PadLenPeriod(n: nat)
    ensures PadLen(16 + n) == PadLen(n)
  {
  }

  lemma {:induction false} SplicedPair(pre: Bytes, out: nat, c: Bytes, s0: Bytes, post: Bytes)
    requires out + |c + s0| <= |pre| && post == Splice(pre, out, c + s0)
    ensures post[out..out + |c|] == c
    ensures post[out + |c|..out + |c| + |s0|] == s0
  {
  }

  lemma {:induction false} SplicedTail(pre: Bytes, out: nat, c: Bytes, s0: Bytes, w: Bytes)
    requires out + |c + s0| <= |pre| && |w| == |s0|
    ensures Splice(Splice(pre, out, c + s0), out + |c|, w) == Splice(pre, out, c + w)
  {
  }

  /** Writing in front of the tag, or apart from the whole, leaves the tag alone. */
  lemma {:induction false} TailKept(pre: Bytes, post: Bytes, at: nat, w: Bytes, off: nat, n: nat, len: nat)
    requires at + |w| <= |pre| && off + len <= |pre| && n <= len && post == Splice(pre, at, w)
    requires at + |w| <= off + n || off + len <= at
    ensures post[off..off + len][n..] == pre[off..off + len][n..]
  {
    SpliceOutside(pre, at, w, off + n, off + len);
    assert post[off..off + len][n..] == post[off + n..off + len];
    assert pre[off..off + len][n..] == pre[off + n..off + len];
  }

  lemma {:induction false} WindowOf(s: Slice, all: Bytes)
    requires s.Valid() && all == s.arr[..]
    ensures s.Get() == all[s.off..s.off + s.len]
  {
  }

  lemma {:induction false} SpliceBehind(pre: Bytes, off: nat, out: nat, w: Bytes)
    requires off <= out && out + |w| <= |pre|
    ensures Splice(pre, out, w)[off..out + |w|] == pre[off..out] + w
    ensures Splice(pre, out, w)[out..out + |w|] == w
  {
  }

  // ------------------------------------------- what callers of Seal get back

  /** With separate storage, what Seal leaves behind dst starts with the sealed payload. */
  lemma {:induction false} WrittenIsSealed(e: Cipher, p: Params, nonce: Bytes, data: Bytes, x: Bytes)
    requires p.Legal() && |nonce| == p.nonceSize
    ensures Written(e, p, nonce, data, x, false)[..|x| + p.tagSize] == Sealed(e, p, nonce, data, x)
  {
    hide Tag, CtrBlock, PayloadStream;
  }

  /** The returned slice has the length of the sealed payload alone, so it is the
      promised extension of dst exactly when dst was empty. */
  lemma {:induction false} ReturnedSliceIsExtensionIff(e: Cipher, p: Params, nonce: Bytes, data: Bytes, x: Bytes, dst: Bytes)
    requires p.Legal() && |nonce| == p.nonceSize
    ensures (dst + Written(e, p, nonce, data, x, false))[..|x| + p.tagSize] == dst + Sealed(e, p, nonce, data, x)
       <==> dst == []
  {
    WrittenIsSealed(e, p, nonce, data, x);
    var w := Written(e, p, nonce, data, x, false);
    if dst == [] {
      assert dst + w == w && dst + Sealed(e, p, nonce, data, x) == Sealed(e, p, nonce, data, x);
    }
  }

  /** Sealing in place is opened again exactly when ciphertext and payload happen
      to have the same truncated tag, because the ciphertext was authenticated. */
  lemma {:induction false} InPlaceSealOpensIff(e: Cipher, p: Params, nonce: Bytes, data: Bytes, x: Bytes)
    requires p.Legal() && |nonce| == p.nonceSize
    ensures Opened(e, p, nonce, data, Written(e, p, nonce, data, x, true)[..|x| + p.tagSize]) == Some(x)
       <==> Tag(e, p, nonce, data, XorSeq(x, PayloadStream(e, p, nonce, |x|)))[..p.tagSize]
            == Tag(e, p, nonce, data, x)[..p.tagSize]
  {
    hide Tag, CtrBlock, PayloadStream, Opened;
    var n := |x|;
    var k := PayloadStream(e, p, nonce, n);
    var c := XorSeq(x, k);
    var s0 := e(CtrBlock(p, nonce, 0));
    var w := Written(e, p, nonce, data, x, true)[..n + p.tagSize];
    var tc, tx := Tag(e, p, nonce, data, c), Tag(e, p, nonce, data, x);
    assert w[..n] == c && w[n..] == XorBlock(s0, tc)[..p.tagSize];
    XorSeqTwice(x, k);
    OpenedParts(e, p, nonce, data, w);
    XorBlockComm(s0, tc);
    assert XorBlock(tc, s0)[..p.tagSize] == XorSeq(tc[..p.tagSize], s0);
    assert XorBlock(tx, s0)[..p.tagSize] == XorSeq(tx[..p.tagSize], s0);
    XorSeqCancel(tc[..p.tagSize], tx[..p.tagSize], s0);
  }

  /** What the caller can check is therefore whether Seal works in place: with separate
      storage, or too little capacity behind dst, the result opens for every cipher,
      nonce, data and payload, and in place it does not. */
  lemma {:induction false} SealOpensIff(inPlace: bool)
    ensures (forall e: Cipher, p: Params, nonce: Bytes, data: Bytes, x: Bytes | p.Legal() && p.Fits(nonce, data, x) ::
              SealOpens(e, p, nonce, data, x, inPlace)) <==> !inPlace
  {
    hide Opened, Written;
    if inPlace {
      var e: Cipher, p := (b: Block) => b, Params(13, 16);
      InPlaceSealFailure(e, p, Zeros(13));
      SmallPowers();
      assert !SealOpens(e, p, Zeros(13), [], [1], true);
    } else {
      forall e: Cipher, p: Params, nonce: Bytes, data: Bytes, x: Bytes | p.Legal() && p.Fits(nonce, data, x)
        ensures SealOpens(e, p, nonce, data, x, false)
      {
        WrittenIsSealed(e, p, nonce, data, x);
        OpenedIffSealed(e, p, nonce, data, Sealed(e, p, nonce, data, x), x);
      }
    }
  }

  predicate SealOpens(e: Cipher, p: Params, nonce: Bytes, data: Bytes, x: Bytes, inPlace: bool)
    requires p.Legal() && |nonce| == p.nonceSize
  {
    Opened(e, p, nonce, data, Written(e, p, nonce, data, x, inPlace)[..|x| + p.tagSize]) == Some(x)
  }

  /** And it can fail: a one-byte payload under a block function that changes nothing. */
  lemma {:induction false} InPlaceSealFailure(e: Cipher, p: Params, nonce: Bytes)
    requires p == Params(13, 16) && nonce == Zeros(13) && forall b: Block :: e(b) == b
    ensures Opened(e, p, nonce, [], Written(e, p, nonce, [], [1], true)[..17]) != Some([1])
  {
    var x: Bytes := [1];
    var c := XorSeq(x, PayloadStream(e, p, nonce, 1));
    assert CtrBlock(p, nonce, 1)[0] == 1;
    assert c == [0] by { assert PayloadStream(e, p, nonce, 1)[0] == 1; assert Xor(1, 1) == 0; }
    TagOfOneBlock(e, p, nonce, x);
    TagOfOneBlock(e, p, nonce, c);
    var f: byte := FirstBlock(p, nonce, false, 1)[0];
    XorZero(f);
    XorNatTwice(1, f); XorNatComm(1, f); XorNatTwice(0, f);
    assert Tag(e, p, nonce, [], x)[..16][0] != Tag(e, p, nonce, [], c)[..16][0];
    InPlaceSealOpensIff(e, p, nonce, [], x);
  }

  /** With the identity as block function, the first tag byte of a one-byte payload. */
  lemma {:induction false} TagOfOneBlock(e: Cipher, p: Params, nonce: Bytes, x: Bytes)
    requires p == Params(13, 16) && nonce == Zeros(13) && |x| == 1 && forall b: Block :: e(b) == b
    ensures Tag(e, p, nonce, [], x)[0] == Xor(Xor(0, FirstBlock(p, nonce, false, 1)[0]), x[0])
  {
    var f0: Bytes := FirstBlock(p, nonce, false, 1);
    var px := PadToBlock(x);
    var m := Formatted(p, nonce, [], x);
    assert m == f0 + px;
    assert m[..|m| - 16] == f0 && m[|m| - 16..] == px;
    assert f0[..|f0| - 16] == [] && f0[|f0| - 16..] == f0;
    assert Cbc(e, ZERO_BLOCK, f0) == e(XorBlock(ZERO_BLOCK, f0));
    assert Cbc(e, ZERO_BLOCK, m) == e(XorBlock(Cbc(e, ZERO_BLOCK, f0), px));
  }
}
