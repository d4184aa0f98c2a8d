/** Octets, their bitwise operations, and the big- and little-endian integer
    layouts that every wire format and cipher mode of the server relies on. */
module Bytes {

  type byte = b: int | 0 <= b < 256
  type Bytes = seq<byte>

  /** Bitwise exclusive or of two naturals, bit by bit from the least significant end. */
  function XorNat(a: nat, b: nat): nat
    decreases a + b
  {
    if a == 0 && b == 0 then 0 else (a % 2 + b % 2) % 2 + 2 * XorNat(a / 2, b / 2)
  }

  /** Bitwise inclusive or of two naturals. */
  function OrNat(a: nat, b: nat): nat
    decreases a + b
  {
    if a == 0 && b == 0 then 0
    else (if a % 2 == 1 || b % 2 == 1 then 1 else 0) + 2 * OrNat(a / 2, b / 2)
  }

  function Pow2(k: nat): (r: nat)
    ensures r > 0
  {
    if k == 0 then 1 else 2 * Pow2(k - 1)
  }

  lemma {:induction false} XorBound(a: nat, b: nat, k: nat)
    requires a < Pow2(k) && b < Pow2(k)
    ensures XorNat(a, b) < Pow2(k)
  {
    if k > 0 { XorBound(a / 2, b / 2, k - 1); }
  }

  lemma {:induction false} OrBound(a: nat, b: nat, k: nat)
    requires a < Pow2(k) && b < Pow2(k)
    ensures OrNat(a, b) < Pow2(k)
  {
    if k > 0 { OrBound(a / 2, b / 2, k - 1); }
  }

  lemma {:induction false} Pow2Of8()
    ensures Pow2(8) == 256
  {
    assert Pow2(2) == 4 && Pow2(4) == 16 && Pow2(6) == 64;
  }

  function Xor(a: byte, b: byte): byte {
    Pow2Of8(); XorBound(a, b, 8);
    XorNat(a, b)
  }

  function Or(a: byte, b: byte): byte {
    Pow2Of8(); OrBound(a, b, 8);
    OrNat(a, b)
  }

  /** Exclusive or with the same value twice gives back the first operand. */
  lemma {:induction false} XorNatTwice(a: nat, b: nat)
    ensures XorNat(XorNat(a, b), b) == a
    decreases a + b
  {
    if a + b == 0 {
      assert XorNat(0, 0) == 0;
    } else {
      hide XorNat;
      XorNatTwice(a / 2, b / 2);
      XorNatStep(a, b);
      XorNatStep(XorNat(a, b), b);
      ParityTwice(a % 2, b % 2);
      HalfEq(XorNat(XorNat(a, b), b), a);
    }
  }

  lemma {:induction false} ParityTwice(x: nat, y: nat)
    requires x < 2 && y < 2
    ensures ((x + y) % 2 + y) % 2 == x
  {
  }

  /** The low bit and the remaining bits of an exclusive or. */
  lemma {:induction false} XorNatStep(a: nat, b: nat)
    ensures XorNat(a, b) % 2 == (a % 2 + b % 2) % 2
    ensures XorNat(a, b) / 2 == XorNat(a / 2, b / 2)
  {
    var low, rest := (a % 2 + b % 2) % 2, XorNat(a / 2, b / 2);
    assert XorNat(a, b) == low + 2 * rest;
    hide XorNat;
  }

  lemma {:induction false} HalfEq(a: nat, b: nat)
    requires a % 2 == b % 2 && a / 2 == b / 2
    ensures a == b
  {
  }

  lemma {:induction false} XorNatZero(a: nat)
    ensures XorNat(a, 0) == a
  {
    if a > 0 { XorNatZero(a / 2); }
  }

  lemma {:induction false} XorNatComm(a: nat, b: nat)
    ensures XorNat(a, b) == XorNat(b, a)
    decreases a + b
  {
    if a + b > 0 { XorNatComm(a / 2, b / 2); }
  }

  lemma {:induction false} XorTwice(a: byte, b: byte)
    ensures Xor(Xor(a, b), b) == a
  {
    XorNatTwice(a, b);
  }

  lemma {:induction false} XorZero(a: byte)
    ensures Xor(a, 0) == a && Xor(0, a) == a
  {
    XorNatZero(a); XorNatComm(a, 0);
  }

  /** Or-ing in a multiple of 2^k above k low bits is addition. */
  lemma {:induction false} OrNatDisjoint(a: nat, b: nat, k: nat)
    requires a < Pow2(k)
    ensures OrNat(a, Pow2(k) * b) == a + Pow2(k) * b
  {
    if k == 0 {
      OrNatZero(b);
    } else {
      assert Pow2(k) * b == 2 * (Pow2(k - 1) * b) by { MulAssoc(2, Pow2(k - 1), b); }
      OrNatDisjoint(a / 2, b, k - 1);
    }
  }

  lemma {:induction false} OrNatZero(b: nat)
    ensures OrNat(0, b) == b
  {
    if b > 0 { OrNatZero(b / 2); }
  }

  lemma {:induction false} MulAssoc(a: int, b: int, c: int)
    ensures a * b * c == a * (b * c)
  {
  }

  /** Bit k of a natural. */
  predicate Bit(x: nat, k: nat) {
    x / Pow2(k) % 2 == 1
  }

  lemma {:induction false} BitStep(x: nat, k: nat)
    ensures k == 0 ==> Bit(x, k) == (x % 2 == 1)
    ensures k > 0 ==> Bit(x, k) == Bit(x / 2, k - 1)
  {
    if k > 0 {
      var m := Pow2(k - 1);
      var q, r := x / 2 / m, x / 2 % m;
      assert x == 2 * (m * q + r) + x % 2;
      MulAssoc(2, m, q);
      DivUnique(x, 2 * m, q, 2 * r + x % 2);
    }
  }

  lemma {:induction false} OrBit(a: nat, b: nat, k: nat)
    ensures Bit(OrNat(a, b), k) <==> Bit(a, k) || Bit(b, k)
    decreases k
  {
    hide Bit;
    OrNatStep(a, b);
    BitStep(OrNat(a, b), k); BitStep(a, k); BitStep(b, k);
    if k > 0 { OrBit(a / 2, b / 2, k - 1); }
  }

  lemma {:induction false} OrNatStep(a: nat, b: nat)
    ensures OrNat(a, b) % 2 == (if a % 2 == 1 || b % 2 == 1 then 1 else 0)
    ensures OrNat(a, b) / 2 == OrNat(a / 2, b / 2)
  {
    var low, rest := if a % 2 == 1 || b % 2 == 1 then 1 else 0, OrNat(a / 2, b / 2);
    assert OrNat(a, b) == low + 2 * rest;
    hide OrNat;
  }

  // ---------------------------------------------------------------- sequences

  function Zeros(n: nat): (r: Bytes)
    ensures |r| == n
  {
    seq(n, _ => 0)
  }

  /** The next multiple of eight. */
  function Align8(n: nat): (r: nat)
    ensures n <= r < n + 8 && r % 8 == 0
  {
    (n + 7) / 8 * 8
  }

  /** The next multiple of four. */
  function Align4(n: nat): (r: nat)
    ensures n <= r < n + 4 && r % 4 == 0
  {
    (n + 3) / 4 * 4
  }

  /** Pointwise exclusive or over the shorter of the two lengths. */
  function XorSeq(a: Bytes, b: Bytes): (r: Bytes)
    ensures |r| == if |a| <= |b| then |a| else |b|
    ensures forall i :: 0 <= i < |r| ==> r[i] == Xor(a[i], b[i])
  {
    seq(if |a| <= |b| then |a| else |b|, i requires 0 <= i < |a| && i < |b| => Xor(a[i], b[i]))
  }

  lemma {:induction false} XorSeqTwice(a: Bytes, b: Bytes)
    requires |a| <= |b|
    ensures XorSeq(XorSeq(a, b), b) == a
  {
    forall i | 0 <= i < |a| ensures XorSeq(XorSeq(a, b), b)[i] == a[i] {
      XorTwice(a[i], b[i]);
    }
  }

  /** Two masked strings are equal exactly when the strings are. */
  lemma {:induction false} XorSeqCancel(a: Bytes, b: Bytes, k: Bytes)
    requires |a| == |b| <= |k|
    ensures XorSeq(a, k) == XorSeq(b, k) <==> a == b
  {
    XorSeqTwice(a, k); XorSeqTwice(b, k);
  }

  /** s with the bytes at off overwritten by b. */
  function Splice(s: Bytes, off: nat, b: Bytes): (r: Bytes)
    requires off + |b| <= |s|
    ensures |r| == |s|
  {
    seq(|s|, i requires 0 <= i < |s| => if off <= i < off + |b| then b[i - off] else s[i])
  }

  lemma {:induction false} SpliceOutside(s: Bytes, off: nat, b: Bytes, i: nat, j: nat)
    requires off + |b| <= |s| && i <= j <= |s| && (j <= off || off + |b| <= i)
    ensures Splice(s, off, b)[i..j] == s[i..j]
  {
  }

  lemma {:induction false} SpliceInside(s: Bytes, off: nat, b: Bytes)
    requires off + |b| <= |s|
    ensures Splice(s, off, b)[off..off + |b|] == b
  {
  }

  lemma {:induction false} SpliceAppend(s: Bytes, off: nat, a: Bytes, b: Bytes)
    requires off + |a| + |b| <= |s|
    ensures Splice(Splice(s, off, a), off + |a|, b) == Splice(s, off, a + b)
  {
  }

  lemma {:induction false} SpliceTwice(s: Bytes, off: nat, b: Bytes, c: Bytes)
    requires off + |b| <= |s| && |c| == |b|
    ensures Splice(Splice(s, off, b), off, c) == Splice(s, off, c)
    ensures c == s[off..off + |b|] ==> Splice(s, off, c) == s
  {
  }

  // ---------------------------------------------------------------- integers

  function Pow256(n: nat): (r: nat)
    ensures r > 0
  {
    if n == 0 then 1 else 256 * Pow256(n - 1)
  }

  lemma {:induction false} Pow256Add(a: nat, b: nat)
    ensures Pow256(a + b) == Pow256(a) * Pow256(b)
  {
    if a > 0 {
      Pow256Add(a - 1, b);
      assert a + b - 1 == (a - 1) + b;
      MulAssoc(256, Pow256(a - 1), Pow256(b));
    }
  }

  lemma {:induction false} Pow256Mono(a: nat, b: nat)
    requires a <= b
    ensures Pow256(a) <= Pow256(b)
  {
    if a < b { Pow256Mono(a, b - 1); }
  }

  /** The low n octets of v, most significant first. */
  function BE(n: nat, v: nat): (r: Bytes)
    ensures |r| == n
  {
    if n == 0 then [] else BE(n - 1, v / 256) + [v % 256]
  }

  /** The number a big-endian string denotes. */
  function BEVal(s: Bytes): nat {
    if |s| == 0 then 0 else 256 * BEVal(s[..|s| - 1]) + s[|s| - 1]
  }

  lemma {:induction false} BEValBE(n: nat, v: nat)
    requires v < Pow256(n)
    ensures BEVal(BE(n, v)) == v
  {
    if n > 0 {
      BEValBE(n - 1, v / 256);
      assert BE(n, v)[..n - 1] == BE(n - 1, v / 256);
    }
  }

  lemma {:induction false} BEBEVal(s: Bytes)
    ensures BEVal(s) < Pow256(|s|)
    ensures BE(|s|, BEVal(s)) == s
  {
    if |s| > 0 {
      BEBEVal(s[..|s| - 1]);
      assert s == s[..|s| - 1] + [s[|s| - 1]];
    }
  }

  lemma {:induction false} BEValConcat(a: Bytes, b: Bytes)
    ensures BEVal(a + b) == BEVal(a) * Pow256(|b|) + BEVal(b)
  {
    if |b| == 0 {
      assert a + b == a;
    } else {
      var b' := b[..|b| - 1];
      assert (a + b)[..|a + b| - 1] == a + b';
      BEValConcat(a, b');
      assert 256 * (BEVal(a) * Pow256(|b'|)) == BEVal(a) * Pow256(|b|) by {
        MulAssoc(256, BEVal(a), Pow256(|b'|)); MulAssoc(BEVal(a), 256, Pow256(|b'|));
      }
    }
  }

  /** The low n octets of v, least significant first. */
  function LE(n: nat, v: nat): (r: Bytes)
    ensures |r| == n
  {
    if n == 0 then [] else [v % 256] + LE(n - 1, v / 256)
  }

  function LEVal(s: Bytes): nat {
    if |s| == 0 then 0 else s[0] + 256 * LEVal(s[1..])
  }

  lemma {:induction false} LEValLE(n: nat, v: nat)
    ensures LEVal(LE(n, v)) == v % Pow256(n)
    ensures v < Pow256(n) ==> LEVal(LE(n, v)) == v
  {
    if n > 0 {
      LEValLE(n - 1, v / 256);
      assert LE(n, v)[1..] == LE(n - 1, v / 256);
      ModStep(v, Pow256(n - 1));
    }
  }

  lemma {:induction false} ModStep(v: nat, m: nat)
    requires m > 0
    ensures v % 256 + 256 * (v / 256 % m) == v % (256 * m)
  {
    var q, r := v / 256 / m, v / 256 % m;
    assert v / 256 == m * q + r;
    assert v == 256 * (m * q + r) + v % 256;
    MulAssoc(256, m, q);
    assert v == (256 * m) * q + (256 * r + v % 256);
    assert 0 <= 256 * r + v % 256 < 256 * m;
    DivUnique(v, 256 * m, q, 256 * r + v % 256);
  }

  lemma {:induction false} DivUnique(v: int, m: int, q: int, r: int)
    requires m > 0 && v == m * q + r && 0 <= r < m
    ensures v / m == q && v % m == r
  {
    var d := v / m - q;
    assert v == m * (v / m) + v % m;
    assert m * d == r - v % m by { assert m * d == m * (v / m) - m * q; }
    if d >= 1 { MulMono(m, 1, d); }
    if d <= -1 { MulMono(m, d, -1); }
  }

  lemma {:induction false} MulMono(m: int, a: int, b: int)
    requires m >= 0 && a <= b
    ensures m * a <= m * b
  {
  }

  lemma {:induction false} LowByte(b: byte, v: nat)
    ensures (b + 256 * v) % 256 == b && (b + 256 * v) / 256 == v
  {
  }

  lemma {:induction false} LELEVal(s: Bytes)
    ensures LEVal(s) < Pow256(|s|)
    ensures LE(|s|, LEVal(s)) == s
  {
    if |s| > 0 {
      LELEVal(s[1..]);
      assert s == [s[0]] + s[1..];
      LowByte(s[0], LEVal(s[1..]));
    }
  }

  function U16(s: Bytes, off: nat): (r: nat)
    requires off + 2 <= |s|
    ensures r < 0x1_0000
  {
    s[off] as int + 0x100 * s[off + 1] as int
  }

  function U32(s: Bytes, off: nat): (r: nat)
    requires off + 4 <= |s|
    ensures r < 0x1_0000_0000
  {
    U16(s, off) + 0x1_0000 * U16(s, off + 2)
  }

  function U64(s: Bytes, off: nat): nat
    requires off + 8 <= |s|
  {
    U32(s, off) + 0x1_0000_0000 * U32(s, off + 4)
  }

  /** The fixed-offset readers are the little-endian value of the bytes they read. */
  lemma {:induction false} U16Val(s: Bytes, off: nat)
    requires off + 2 <= |s|
    ensures U16(s, off) == LEVal(s[off..off + 2])
  {
    var w := s[off..off + 2];
    assert LEVal(w[1..]) == w[1] as int by { assert LEVal(w[1..][1..]) == 0; }
  }

  lemma {:induction false} LEValConcat(a: Bytes, b: Bytes)
    ensures LEVal(a + b) == LEVal(a) + Pow256(|a|) * LEVal(b)
  {
    if |a| == 0 {
      assert a + b == b;
    } else {
      assert (a + b)[1..] == a[1..] + b;
      LEValConcat(a[1..], b);
      MulAssoc(256, Pow256(|a| - 1), LEVal(b));
    }
  }

  lemma {:induction false} SmallPowers()
    ensures Pow256(2) == 0x1_0000 && Pow256(4) == 0x1_0000_0000 && Pow256(8) == 0x1_0000_0000_0000_0000
  {
    assert Pow256(1) == 256;
    assert Pow256(2) == 0x1_0000;
    Pow256Add(2, 2); Pow256Add(4, 4);
  }

  lemma {:induction false} U32Val(s: Bytes, off: nat)
    requires off + 4 <= |s|
    ensures U32(s, off) == LEVal(s[off..off + 4])
  {
    hide LEVal;
    assert s[off..off + 4] == s[off..off + 2] + s[off + 2..off + 4];
    LEValConcat(s[off..off + 2], s[off + 2..off + 4]);
    U16Val(s, off); U16Val(s, off + 2); SmallPowers();
  }

  lemma {:induction false} U64Val(s: Bytes, off: nat)
    requires off + 8 <= |s|
    ensures U64(s, off) == LEVal(s[off..off + 8])
  {
    hide LEVal;
    assert s[off..off + 8] == s[off..off + 4] + s[off + 4..off + 8];
    LEValConcat(s[off..off + 4], s[off + 4..off + 8]);
    U32Val(s, off); U32Val(s, off + 4); SmallPowers();
  }

  lemma {:induction false} U16At(s: Bytes, off: nat, v: nat)
    requires off + 2 <= |s| && s[off..off + 2] == LE(2, v)
    ensures U16(s, off) == v % 0x1_0000
  {
    hide LE, LEVal;
    U16Val(s, off); LEValLE(2, v); SmallPowers();
  }

  lemma {:induction false} U32At(s: Bytes, off: nat, v: nat)
    requires off + 4 <= |s| && s[off..off + 4] == LE(4, v)
    ensures U32(s, off) == v % 0x1_0000_0000
  {
    hide LE, LEVal;
    U32Val(s, off); LEValLE(4, v); SmallPowers();
  }

  lemma {:induction false} U32Exactly(s: Bytes, off: nat, v: nat)
    requires off + 4 <= |s| && s[off..off + 4] == LE(4, v) && v < 0x1_0000_0000
    ensures U32(s, off) == v
  {
    hide U32, LE;
    U32At(s, off, v);
  }

  lemma {:induction false} U64At(s: Bytes, off: nat, v: nat)
    requires off + 8 <= |s| && s[off..off + 8] == LE(8, v)
    ensures U64(s, off) == v % 0x1_0000_0000_0000_0000
  {
    hide LE, LEVal;
    U64Val(s, off); LEValLE(8, v); SmallPowers();
  }
}
