/** The two streaming constructions shared by CCM and CMAC, over an arbitrary
    16-byte block function: a CBC chain that encrypts a full block only when the
    next byte arrives, and counter-mode key streams. The lazy chain is proved
    against textbook CBC over whole blocks. */
module BlockModes {
  import opened Bytes

  type Block = b: Bytes | |b| == 16 witness Zeros(16)
  type Cipher = Block -> Block

  const ZERO_BLOCK: Block := Zeros(16)

  function XorBlock(a: Block, b: Block): Block {
    XorSeq(a, b)
  }

  // ------------------------------------------------------------- CBC chaining

  /** The running state: the chaining block and how many of its bytes have been
      mixed since the last encryption. */
  datatype Chain = Chain(ci: Block, p: nat)

  predicate ChainOk(s: Chain) { s.p <= 16 }

  function AbsorbByte(e: Cipher, s: Chain, x: byte): (r: Chain)
    requires ChainOk(s)
    ensures ChainOk(r)
  {
    var t := if s.p >= 16 then Chain(e(s.ci), 0) else s;
    Chain(t.ci[t.p := Xor(t.ci[t.p], x)], t.p + 1)
  }

  function Absorb(e: Cipher, s: Chain, m: Bytes): (r: Chain)
    requires ChainOk(s)
    ensures ChainOk(r)
  {
    if |m| == 0 then s else AbsorbByte(e, Absorb(e, s, m[..|m| - 1]), m[|m| - 1])
  }

  function PadZero(e: Cipher, s: Chain): (r: Chain)
    ensures ChainOk(s) ==> ChainOk(r)
  {
    if s.p != 0 then Chain(e(s.ci), 0) else s
  }

  /** Textbook CBC over whole blocks, as section 6.2 of NIST SP 800-38B and
      section 6.1 of NIST SP 800-38C chain them. */
  function Cbc(e: Cipher, iv: Block, m: Bytes): Block
    requires |m| % 16 == 0
  {
    if |m| == 0 then iv else e(XorBlock(Cbc(e, iv, m[..|m| - 16]), m[|m| - 16..]))
  }

  function PadLen(n: nat): (r: nat)
    ensures r < 16 && (n + r) % 16 == 0
  {
    (16 - n % 16) % 16
  }

  function PadToBlock(m: Bytes): (r: Bytes)
    ensures |r| == |m| + PadLen(|m|) && |r| % 16 == 0
  {
    m + Zeros(PadLen(|m|))
  }

  /** c with its first |t| bytes mixed with t. */
  function Mix(c: Block, t: Bytes): (r: Block)
    requires |t| <= 16
    ensures forall i :: 0 <= i < 16 ==> r[i] == if i < |t| then Xor(c[i], t[i]) else c[i]
  {
    seq(16, i requires 0 <= i < 16 => if i < |t| then Xor(c[i], t[i]) else c[i])
  }

  lemma {:induction false} MixIsXorPadded(c: Block, t: Bytes)
    requires 0 < |t| <= 16
    ensures |PadToBlock(t)| == 16 && Mix(c, t) == XorBlock(c, PadToBlock(t))
  {
    forall i | |t| <= i < 16 ensures Xor(c[i], 0) == c[i] {
      XorZero(c[i]);
    }
  }

  /** How many bytes of a non-empty message precede its last (full or partial) block. */
  function Head(n: nat): (k: nat)
    requires n > 0
    ensures k % 16 == 0 && k < n <= k + 16
  {
    (n - 1) / 16 * 16
  }

  lemma {:induction false} HeadParts(n: nat)
    requires n > 0
    ensures n + PadLen(n) == Head(n) + 16 && PadLen(n) == PadLen(n - Head(n))
    ensures Head(n + 1) == if n % 16 == 0 then n else Head(n)
    ensures n % 16 == 0 ==> n == Head(n) + 16
    ensures n % 16 != 0 ==> n < Head(n) + 16
  {
  }

  /** The padded message: whole blocks, then the padded last one. */
  lemma {:induction false} PaddedParts(m: Bytes)
    requires |m| > 0
    ensures var k, pm := Head(|m|), PadToBlock(m);
            |pm| == k + 16 && pm[..k] == m[..k] && pm[k..] == PadToBlock(m[k..])
  {
    HeadParts(|m|);
    hide Head, PadLen;
  }

  lemma {:induction false} AbsorbSnoc(e: Cipher, s: Chain, m: Bytes, x: byte)
    requires ChainOk(s)
    ensures Absorb(e, s, m + [x]) == AbsorbByte(e, Absorb(e, s, m), x)
  {
    assert (m + [x])[..|m|] == m;
  }

  lemma {:induction false} AbsorbConcat(e: Cipher, s: Chain, a: Bytes, b: Bytes)
    requires ChainOk(s)
    ensures Absorb(e, s, a + b) == Absorb(e, Absorb(e, s, a), b)
  {
    if |b| == 0 {
      assert a + b == a;
    } else {
      assert (a + b)[..|a + b| - 1] == a + b[..|b| - 1];
      AbsorbConcat(e, s, a, b[..|b| - 1]);
    }
  }

  /** The lazy chain after a non-empty message: the textbook chain over all
      blocks but the last, with the last one mixed in and not yet encrypted. */
  function LazyForm(e: Cipher, iv: Block, m: Bytes): Chain
    requires |m| > 0
  {
    var k := Head(|m|);
    Chain(Mix(Cbc(e, iv, m[..k]), m[k..]), |m| - k)
  }

  /** Encrypting the lazy form finishes the chain over the padded message. */
  lemma {:induction false} LazyFinish(e: Cipher, iv: Block, m: Bytes)
    requires |m| > 0
    ensures e(LazyForm(e, iv, m).ci) == Cbc(e, iv, PadToBlock(m))
  {
    hide Mix, XorBlock, Head, PadToBlock;
    var k := Head(|m|);
    MixIsXorPadded(Cbc(e, iv, m[..k]), m[k..]);
    PaddedParts(m);
  }

  lemma {:induction false} MixOne(c: Block, t: Bytes, x: byte)
    requires |t| < 16
    ensures Mix(c, t)[|t| := Xor(Mix(c, t)[|t|], x)] == Mix(c, t + [x])
  {
  }

  lemma {:induction false} MixNone(c: Block)
    ensures Mix(c, []) == c
  {
  }

  lemma {:induction false} LazyStep(e: Cipher, iv: Block, m: Bytes, x: byte)
    requires |m| > 0
    ensures AbsorbByte(e, LazyForm(e, iv, m), x) == LazyForm(e, iv, m + [x])
  {
    hide Mix, Cbc, Head;
    HeadParts(|m|);
    var k := Head(|m|);
    var m' := m + [x];
    var k' := Head(|m'|);
    if |m| % 16 == 0 {
      assert k' == |m| && m'[..k'] == m && m'[k'..] == [x];
      assert PadToBlock(m) == m;
      MixNone(Cbc(e, iv, m));
      LazyFinish(e, iv, m);
      MixOne(Cbc(e, iv, m), [], x);
      assert [] + [x] == m'[k'..];
    } else {
      assert k' == k && m'[..k] == m[..k] && m'[k..] == m[k..] + [x];
      MixOne(Cbc(e, iv, m[..k]), m[k..], x);
    }
  }

  lemma {:induction false} LazyFirst(e: Cipher, iv: Block, x: byte)
    ensures AbsorbByte(e, Absorb(e, Chain(iv, 0), []), x) == LazyForm(e, iv, [x])
  {
    MixOne(iv, [], x);
    MixNone(iv);
    assert Head(1) == 0 && [x][..0] == [] && [x][0..] == [] + [x];
  }

  lemma {:induction false} LazyChain(e: Cipher, iv: Block, m: Bytes)
    requires |m| > 0
    ensures Absorb(e, Chain(iv, 0), m) == LazyForm(e, iv, m)
  {
    var m' := m[..|m| - 1];
    var x := m[|m| - 1];
    assert m == m' + [x];
    AbsorbSnoc(e, Chain(iv, 0), m', x);
    if |m'| == 0 {
      LazyFirst(e, iv, x);
    } else {
      hide LazyForm, Absorb, AbsorbByte;
      LazyChain(e, iv, m');
      LazyStep(e, iv, m', x);
    }
  }

  lemma {:induction false} CbcConcat(e: Cipher, iv: Block, a: Bytes, b: Bytes)
    requires |a| % 16 == 0 && |b| % 16 == 0
    ensures Cbc(e, iv, a + b) == Cbc(e, Cbc(e, iv, a), b)
  {
    if |b| == 0 {
      assert a + b == a;
    } else {
      CbcConcat(e, iv, a, b[..|b| - 16]);
      assert (a + b)[..|a + b| - 16] == a + b[..|b| - 16];
      assert (a + b)[|a + b| - 16..] == b[|b| - 16..];
    }
  }

  /** Writing a message and padding it computes textbook CBC of the padded message. */
  lemma {:induction false} AbsorbThenPad(e: Cipher, iv: Block, m: Bytes)
    ensures PadZero(e, Absorb(e, Chain(iv, 0), m)) == Chain(Cbc(e, iv, PadToBlock(m)), 0)
  {
    if |m| == 0 {
      assert PadToBlock(m) == [];
    } else {
      LazyChain(e, iv, m);
      LazyFinish(e, iv, m);
    }
  }

  // ------------------------------------------------------------- counter mode

  /** The j-th successor of a counter block, as a 128-bit big-endian number. */
  function CounterAdd(iv: Block, j: nat): Block {
    BE(|iv|, (BEVal(iv) + j) % Pow256(|iv|))
  }

  function KeyByte(e: Cipher, iv: Block, i: nat): byte {
    e(CounterAdd(iv, i / 16))[i % 16]
  }

  /** The first n key-stream bytes of the standard counter mode started at iv. */
  function KeyStream(e: Cipher, iv: Block, n: nat): (r: Bytes)
    ensures |r| == n
    ensures forall i :: 0 <= i < n ==> r[i] == KeyByte(e, iv, i)
  {
    seq(n, i requires 0 <= i => KeyByte(e, iv, i))
  }
}
