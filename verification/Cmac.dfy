/** CMAC (NIST SP 800-38B) over a 128-bit block cipher: the incremental digest,
    proved against the specification of section 6.2 for every way of cutting a
    message into writes, and its subkeys, proved to be doublings in GF(2^128). */
module Cmac {
  import opened Bytes
  import opened BlockModes
  import opened Slices

  // ------------------------------------------------------------------ subkeys

  /** The block shifted left by one bit; bytes are most significant first. */
  function ShiftLeft(b: Block): Block {
    seq(16, i requires 0 <= i < 16 => (2 * b[i] as int) % 256 + (if i < 15 then b[i + 1] / 128 else 0))
  }

  /** One step of the subkey generation of section 6.1. */
  function Double(b: Block): Block {
    var s := ShiftLeft(b);
    if b[0] / 128 != 0 then s[15 := Xor(s[15], 0x87)] else s
  }

  /** The coefficient of u^k of a block read as a polynomial over GF(2). */
  function Coef(b: Block, k: nat): bool
    requires k < 128
  {
    Bit(b[15 - k / 8], k % 8)
  }

  /** The bits of a byte shifted left with a carry coming in below. */
  lemma {:induction false} ShiftedByteBit(x: byte, carry: nat, k: nat)
    requires carry <= 1 && k < 8
    ensures Bit((2 * x as int) % 256 + carry, k) == if k == 0 then carry == 1 else Bit(x, k - 1)
  {
    hide Bit;
    var y := (2 * x as int) % 256 + carry;
    assert y / 2 == x % 128 && y % 2 == carry;
    BitStep(y, k);
    if k > 0 {
      LowBits(x, 7, k - 1);
      Pow2Of7();
    }
  }

  lemma {:induction false} Pow2Of7()
    ensures Pow2(7) == 128
  {
    assert Pow2(3) == 8 && Pow2(5) == 32;
  }

  lemma {:induction false} LowBits(x: nat, n: nat, k: nat)
    requires k < n
    ensures Bit(x % Pow2(n), k) == Bit(x, k)
  {
    BitStep(x, k); BitStep(x % Pow2(n), k);
    HalfOfMod(x, Pow2(n - 1));
    if k > 0 { LowBits(x / 2, n - 1, k - 1); }
  }

  lemma {:induction false} HalfOfMod(x: nat, m: nat)
    requires m > 0
    ensures x % (2 * m) % 2 == x % 2 && x % (2 * m) / 2 == x / 2 % m
  {
    var q, r := x / 2 / m, x / 2 % m;
    assert x == 2 * (m * q + r) + x % 2;
    MulAssoc(2, m, q);
    DivUnique(x, 2 * m, q, 2 * r + x % 2);
  }

  lemma {:induction false} XorBit(x: nat, y: nat, k: nat)
    ensures Bit(XorNat(x, y), k) == (Bit(x, k) != Bit(y, k))
  {
    XorNatStep(x, y);
    BitStep(x, k); BitStep(y, k); BitStep(XorNat(x, y), k);
    if k > 0 { XorBit(x / 2, y / 2, k - 1); }
  }

  lemma {:induction false} BitsOf87(k: nat)
    requires k < 8
    ensures Bit(0x87, k) <==> k == 0 || k == 1 || k == 2 || k == 7
  {
    BitStep(0x87, k);
    if k > 0 { BitStep(0x43, k - 1); }
    if k > 1 { BitStep(0x21, k - 2); }
    if k > 2 { BitStep(0x10, k - 3); }
    if k > 3 { BitStep(0x08, k - 4); }
    if k > 4 { BitStep(0x04, k - 5); }
    if k > 5 { BitStep(0x02, k - 6); }
    if k > 6 { BitStep(0x01, k - 7); }
  }

  lemma {:induction false} TopBit(x: byte)
    ensures Bit(x, 7) <==> x / 128 == 1
  {
    Pow2Of7();
  }

  lemma {:induction false} ShiftLeftCoef(b: Block, k: nat)
    requires k < 128
    ensures Coef(ShiftLeft(b), k) <==> k > 0 && Coef(b, k - 1)
  {
    var i, j := 15 - k / 8, k % 8;
    hide Bit;
    if i < 15 { TopBit(b[i + 1]); }
    ShiftedByteBit(b[i], if i < 15 then b[i + 1] / 128 else 0, j);
    if k > 0 && j > 0 {
      assert 15 - (k - 1) / 8 == i && (k - 1) % 8 == j - 1;
    }
    if k > 0 && j == 0 {
      assert 15 - (k - 1) / 8 == i + 1 && (k - 1) % 8 == 7;
    }
  }

  /** Double multiplies by u modulo u^128 + u^7 + u^2 + u + 1. */
  lemma {:induction false} DoubleIsMultiplicationByU(b: Block, k: nat)
    requires k < 128
    ensures Coef(Double(b), k)
       <==> ((k > 0 && Coef(b, k - 1)) != (Coef(b, 127) && (k == 0 || k == 1 || k == 2 || k == 7)))
  {
    hide Bit, ShiftLeft;
    ShiftLeftCoef(b, k);
    TopBit(b[0]);
    if k < 8 {
      XorBit(ShiftLeft(b)[15], 0x87, k);
      BitsOf87(k);
    }
  }

  // -------------------------------------------------------------------- spec

  function Subkey1(e: Cipher): Block { Double(e(ZERO_BLOCK)) }

  function Subkey2(e: Cipher): Block { Double(Subkey1(e)) }

  /** M_n of section 6.2: the last block, completed and masked. */
  function LastBlock(e: Cipher, t: Bytes): Block
    requires |t| <= 16
  {
    if |t| == 16 then XorBlock(t, Subkey1(e))
    else XorBlock(t + [0x80] + Zeros(15 - |t|), Subkey2(e))
  }

  /** Where the last block starts; an empty message has an empty last block. */
  function LastStart(n: nat): (k: nat)
    ensures k % 16 == 0 && k <= n <= k + 16
  {
    if n == 0 then 0 else Head(n)
  }

  /** CMAC generation of section 6.2. */
  function Mac(e: Cipher, m: Bytes): Block {
    var k := LastStart(|m|);
    e(XorBlock(Cbc(e, ZERO_BLOCK, m[..k]), LastBlock(e, m[k..])))
  }

  // ----------------------------------------------------------- implementation

  /** What Sum computes from a running state. */
  function Finish(e: Cipher, s: Chain): Block
    requires s.p <= 16
  {
    var d := XorBlock(s.ci, if s.p < 16 then Subkey2(e) else Subkey1(e));
    e(if s.p < 16 then d[s.p := Xor(d[s.p], 0x80)] else d)
  }

  lemma {:induction false} XorAssocNat(a: nat, b: nat, c: nat)
    ensures XorNat(XorNat(a, b), c) == XorNat(a, XorNat(b, c))
    decreases a + b + c
  {
    if a + b + c > 0 {
      XorAssocNat(a / 2, b / 2, c / 2);
      XorAssocStep(a, b, c);
    }
  }

  lemma {:induction false} XorAssocStep(a: nat, b: nat, c: nat)
    requires XorNat(XorNat(a / 2, b / 2), c / 2) == XorNat(a / 2, XorNat(b / 2, c / 2))
    ensures XorNat(XorNat(a, b), c) == XorNat(a, XorNat(b, c))
  {
    hide XorNat;
    XorNatStep(a, b); XorNatStep(XorNat(a, b), c);
    XorNatStep(b, c); XorNatStep(a, XorNat(b, c));
    var x, y := XorNat(XorNat(a, b), c), XorNat(a, XorNat(b, c));
    assert x / 2 == y / 2;
    assert x % 2 == y % 2 by { ParityAssoc(a % 2, b % 2, c % 2); }
    HalfEq(x, y);
  }

  lemma {:induction false} ParityAssoc(a: nat, b: nat, c: nat)
    requires a < 2 && b < 2 && c < 2
    ensures ((a + b) % 2 + c) % 2 == (a + (b + c) % 2) % 2
  {
  }

  /** Masking the mixed-in tail and setting the pad bit is mixing in the completed,
      masked block. */
  lemma {:induction false} FinishMixed(e: Cipher, c: Block, t: Bytes)
    requires |t| <= 16
    ensures Finish(e, Chain(Mix(c, t), |t|)) == e(XorBlock(c, LastBlock(e, t)))
  {
    var k := if |t| < 16 then Subkey2(e) else Subkey1(e);
    var full := if |t| < 16 then t + [0x80] + Zeros(15 - |t|) else t;
    var d := XorBlock(Mix(c, t), k);
    var d' := if |t| < 16 then d[|t| := Xor(d[|t|], 0x80)] else d;
    hide Subkey1, Subkey2;
    forall i | 0 <= i < 16 ensures d'[i] == Xor(c[i], Xor(full[i], k[i])) {
      XorAssocNat(c[i], full[i], k[i]);
      if i > |t| { XorZero(c[i]); XorZero(k[i]); }
      if i == |t| { XorAssocNat(c[i], k[i], 0x80); XorNatComm(k[i], 0x80); }
    }
    assert d' == XorBlock(c, LastBlock(e, t));
  }

  /** Sum after absorbing a whole message is the CMAC of that message. */
  lemma {:induction false} FinishIsMac(e: Cipher, m: Bytes)
    ensures Finish(e, Absorb(e, Chain(ZERO_BLOCK, 0), m)) == Mac(e, m)
  {
    var k := LastStart(|m|);
    var c := Cbc(e, ZERO_BLOCK, m[..k]);
    if |m| > 0 {
      LazyChain(e, ZERO_BLOCK, m);
    } else {
      assert Mix(ZERO_BLOCK, []) == ZERO_BLOCK && m[k..] == [];
    }
    FinishMixed(e, c, m[k..]);
  }

  method Shift1(src: array<byte>, dst: array<byte>) returns (carry: byte)
    requires src.Length == 16 && dst.Length == 16
    modifies dst
    ensures dst[..] == ShiftLeft(old(src[..]))
    ensures carry == old(src[0]) / 128
  {
    carry := 0;
    ghost var was: Block := src[..];
    var i := 16;
    while i > 0
      invariant 0 <= i <= 16
      invariant carry == if i < 16 then was[i] / 128 else 0
      invariant forall j :: i <= j < 16 ==> dst[j] == ShiftLeft(was)[j]
      invariant forall j :: 0 <= j < i ==> src[j] == was[j]
    {
      i := i - 1;
      var top := src[i] / 128;
      dst[i] := (2 * src[i] as int) % 256 + carry;
      carry := top;
    }
  }

  class Digest {
    const e: Cipher
    const k1: array<byte>
    const k2: array<byte>
    const ci: array<byte>
    const digest: array<byte>
    var p: nat
    ghost var written: Bytes

    /** The state is the one reached by absorbing everything written since the last reset. */
    ghost predicate Valid()
      reads this, k1, k2, ci
    {
      && k1.Length == 16 && k2.Length == 16 && ci.Length == 16 && digest.Length == 16
      && k1 != k2 && k1 != ci && k1 != digest && k2 != ci && k2 != digest && ci != digest
      && k1[..] == Subkey1(e) && k2[..] == Subkey2(e)
      && p <= 16 && Chain(ci[..], p) == Absorb(e, Chain(ZERO_BLOCK, 0), written)
    }

    constructor (e: Cipher)
      ensures Valid() && this.e == e && written == []
      ensures fresh(k1) && fresh(k2) && fresh(ci) && fresh(digest)
    {
      this.e := e;
      this.k1 := new byte[16](_ => 0);
      this.k2 := new byte[16](_ => 0);
      this.ci := new byte[16](_ => 0);
      this.digest := new byte[16](_ => 0);
      this.p := 0;
      this.written := [];
      new;
      assert k1[..] == ZERO_BLOCK;
      var l := e(k1[..]);
      CopyInto(k1, 0, l);
      assert k1[..] == l;
      var c := Shift1(k1, k1);
      if c != 0 {
        k1[15] := Xor(k1[15], 0x87);
      }
      assert k1[..] == Subkey1(e);
      c := Shift1(k1, k2);
      if c != 0 {
        k2[15] := Xor(k2[15], 0x87);
      }
      assert k2[..] == Subkey2(e);
      assert ci[..] == ZERO_BLOCK;
    }

    method Reset()
      requires Valid()
      modifies this, ci
      ensures Valid() && written == []
    {
      forall i | 0 <= i < 16 {
        ci[i] := 0;
      }
      p := 0;
      written := [];
      assert ci[..] == ZERO_BLOCK;
    }

    method Write(m: Bytes)
      requires Valid()
      modifies this, ci
      ensures Valid() && written == old(written) + m
    {
      hide Subkey1, Subkey2, Absorb, Xor;
      ghost var w := written;
      assert w + m[..0] == w;
      for i := 0 to |m|
        invariant Valid() && written == w + m[..i]
      {
        if p >= 16 {
          var x := e(ci[..]);
          CopyInto(ci, 0, x);
          assert ci[..] == x;
          p := 0;
        }
        ghost var c := ci[..];
        ci[p] := Xor(ci[p], m[i]);
        assert ci[..] == c[p := Xor(c[p], m[i])];
        p := p + 1;
        AbsorbSnoc(e, Chain(ZERO_BLOCK, 0), written, m[i]);
        written := written + [m[i]];
        assert w + m[..i + 1] == written;
      }
      assert m[..|m|] == m;
    }

    /** Returns the CMAC of everything written; the running state is untouched, so
        more may be written afterwards. */
    method Sum() returns (t: Block)
      requires Valid()
      modifies digest
      ensures Valid()
      ensures t == Mac(e, written)
    {
      hide Subkey1, Subkey2, Absorb, Xor, Mac;
      ghost var s := Chain(ci[..], p);
      var k := k1;
      if p < 16 {
        k := k2;
      }
      ghost var key: Block := k[..];
      for i := 0 to 16
        invariant ci[..] == s.ci && k[..] == key && Valid()
        invariant forall j :: 0 <= j < i ==> digest[j] == XorBlock(s.ci, key)[j]
      {
        digest[i] := Xor(ci[i], k[i]);
      }
      assert digest[..] == XorBlock(s.ci, key);
      if p < 16 {
        digest[p] := Xor(digest[p], 0x80);
      }
      var d := e(digest[..]);
      CopyInto(digest, 0, d);
      assert digest[..] == d;
      FinishIsMac(e, written);
      t := d;
    }
  }
}
