/** What both sides of the NTLM version 2 handshake share: flags, attribute-value
    pairs, descriptors of payload fields, the response and the session keys. The
    hash functions and the RC4 key stream are parameters. */
module Ntlm {
  import opened Bytes
  import opened Slices
  import opened Utf16
  import opened Wrappers

  type Digest = d: Bytes | |d| == 16 witness Zeros(16)

  /** HMAC-MD5, MD4, MD5, the RC4 key stream of a key, and upper-casing. */
  datatype Crypto = Crypto(hmac: (Bytes, Bytes) -> Digest, md4: Bytes -> Digest, md5: Bytes -> Digest,
    rc4: (Bytes, nat) -> byte, upper: Str -> Str)

  const SIGNATURE: Bytes := [0x4E, 0x54, 0x4C, 0x4D, 0x53, 0x53, 0x50, 0]
  const VERSION: Bytes := [0x0A, 0, 0, 0, 0, 0, 0, 0x0F]

  const REQUEST_TARGET := 0x4
  const NEGOTIATE_LM_KEY := 0x80
  const EXTENDED_SESSIONSECURITY := 0x8_0000
  const TARGET_INFO := 0x80_0000
  const NEGOTIATE_VERSION := 0x200_0000
  const NEGOTIATE_128 := 0x2000_0000
  const KEY_EXCH := 0x4000_0000
  const NEGOTIATE_56 := 0x8000_0000
  const DEFAULT_FLAGS := 0xE288_8215

  predicate HasBit(flags: nat, bit: nat)
    requires bit > 0
  {
    flags / bit % 2 == 1
  }

  function SetBit(flags: nat, bit: nat): nat
    requires bit > 0
  {
    if HasBit(flags, bit) then flags else flags + bit
  }

  function And(a: nat, b: nat): nat
    decreases a + b
  {
    if a == 0 || b == 0 then 0 else (a % 2) * (b % 2) + 2 * And(a / 2, b / 2)
  }

  lemma {:induction false} AndSelf(a: nat)
    ensures And(a, a) == a
  {
    if a > 0 {
      AndSelf(a / 2);
      assert a % 2 == 0 || a % 2 == 1;
    }
  }

  // ------------------------------------------------------------------ AV pairs

  const AV_EOL := 0
  const AV_NB_COMPUTER := 1
  const AV_NB_DOMAIN := 2
  const AV_DNS_COMPUTER := 3
  const AV_DNS_DOMAIN := 4
  const AV_FLAGS := 6
  const AV_TIMESTAMP := 7
  const AV_TARGET_NAME := 9
  const AV_CHANNEL_BINDINGS := 10

  datatype AvPair = AvPair(id: nat, value: Bytes) {
    predicate Fits() {
      id < 0x1_0000 && |value| < 0x1_0000
    }
  }

  function AvBytes(p: AvPair): (r: Bytes)
    ensures |r| == 4 + |p.value|
  {
    LE(2, p.id) + LE(2, |p.value|) + p.value
  }

  function AvListBytes(ps: seq<AvPair>): Bytes {
    if ps == [] then [] else AvBytes(ps[0]) + AvListBytes(ps[1..])
  }

  /** The pairs of a block, read until nothing is left. */
  function AvList(bs: Bytes): Option<seq<AvPair>> {
    if bs == [] then Some([])
    else if |bs| < 4 || |bs| < 4 + U16(bs, 2) then None
    else
      var n := U16(bs, 2);
      match AvList(bs[4 + n..])
      case None => None
      case Some(rest) => Some([AvPair(U16(bs, 0), bs[4..4 + n])] + rest)
  }

  /** A block must end in an end-of-list pair. */
  function ParseAvPairs(bs: Bytes): Option<seq<AvPair>> {
    if |bs| < 4 || bs[|bs| - 4..] != Zeros(4) then None else AvList(bs)
  }

  function AvMap(ps: seq<AvPair>): map<nat, Bytes> {
    if ps == [] then map[] else AvMap(ps[..|ps| - 1])[ps[|ps| - 1].id := ps[|ps| - 1].value]
  }

  lemma {:induction false} AvListCons(p: AvPair, rest: Bytes)
    requires p.Fits()
    ensures AvList(AvBytes(p) + rest) ==
      match AvList(rest) case None => None case Some(ps) => Some([p] + ps)
  {
    hide LE, U16;
    var bs, n := AvBytes(p) + rest, |p.value|;
    assert bs[0..2] == LE(2, p.id) && bs[2..4] == LE(2, n);
    U16At(bs, 0, p.id); U16At(bs, 2, n);
    assert bs[4..4 + n] == p.value && bs[4 + n..] == rest;
  }

  lemma {:induction false} AvListOne(p: AvPair)
    ensures AvListBytes([p]) == AvBytes(p)
  {
    assert [p][1..] == [];
  }

  lemma {:induction false} AvListJoin(a: seq<AvPair>, b: seq<AvPair>)
    ensures AvListBytes(a + b) == AvListBytes(a) + AvListBytes(b)
  {
    hide AvBytes;
    if a == [] {
      assert a + b == b;
    } else {
      assert (a + b)[1..] == a[1..] + b;
      AvListJoin(a[1..], b);
    }
  }

  /** Parsing inverts printing, with anything parsable behind. */
  lemma {:induction false} AvListInverts(ps: seq<AvPair>, rest: Bytes)
    requires (forall p :: p in ps ==> p.Fits()) && AvList(rest).Some?
    ensures AvList(AvListBytes(ps) + rest) == Some(ps + AvList(rest).value)
  {
    hide AvBytes, AvList;
    if ps == [] {
      assert AvListBytes(ps) + rest == rest;
      assert ps + AvList(rest).value == AvList(rest).value;
    } else {
      AvListInverts(ps[1..], rest);
      AvListCons(ps[0], AvListBytes(ps[1..]) + rest);
      assert AvListBytes(ps) + rest == AvBytes(ps[0]) + (AvListBytes(ps[1..]) + rest);
      assert [ps[0]] + (ps[1..] + AvList(rest).value) == ps + AvList(rest).value;
    }
  }

  function After(done: seq<AvPair>, rest: Option<seq<AvPair>>): Option<seq<AvPair>> {
    match rest case None => None case Some(ps) => Some(done + ps)
  }

  /** One round of the parsing loop. */
  lemma {:induction false} AvListStep(done: seq<AvPair>, rest: Bytes)
    ensures rest == [] ==> After(done, AvList(rest)) == Some(done)
    ensures 0 < |rest| && (|rest| < 4 || |rest| < 4 + U16(rest, 2)) ==> After(done, AvList(rest)) == None
    ensures |rest| >= 4 && |rest| >= 4 + U16(rest, 2) ==>
      After(done, AvList(rest)) == After(done + [AvPair(U16(rest, 0), rest[4..4 + U16(rest, 2)])], AvList(rest[4 + U16(rest, 2)..]))
    ensures After([], AvList(rest)) == AvList(rest)
  {
    hide U16;
    assert done + [] == done;
    if |rest| >= 4 && |rest| >= 4 + U16(rest, 2) {
      var p, more := AvPair(U16(rest, 0), rest[4..4 + U16(rest, 2)]), AvList(rest[4 + U16(rest, 2)..]);
      if more.Some? { assert done + ([p] + more.value) == (done + [p]) + more.value; }
    }
    if AvList(rest).Some? { assert [] + AvList(rest).value == AvList(rest).value; }
  }

  lemma {:induction false} AvMapSnoc(done: seq<AvPair>, p: AvPair)
    ensures AvMap(done + [p]) == AvMap(done)[p.id := p.value]
  {
    assert (done + [p])[..|done|] == done;
  }

  /** Reads the pairs into a map; the last pair of an id wins. */
  method ParsePairs(bs: Bytes) returns (pairs: map<nat, Bytes>, ok: bool)
    ensures ok <==> ParseAvPairs(bs).Some?
    ensures ok ==> pairs == AvMap(ParseAvPairs(bs).value)
  {
    pairs, ok := map[], false;
    hide U16, AvList, AvMap, After;
    if |bs| < 4 || bs[|bs| - 4..] != Zeros(4) {
      return;
    }
    var rest := bs;
    ghost var done: seq<AvPair> := [];
    AvListStep([], bs);
    assert AvMap([]) == map[] by { AvMapEmpty(); }
    while |rest| > 0
      invariant pairs == AvMap(done) && AvList(bs) == After(done, AvList(rest))
    {
      AvListStep(done, rest);
      if |rest| < 4 {
        return;
      }
      var id, n := U16(rest, 0), U16(rest, 2);
      if |rest| < 4 + n {
        return;
      }
      AvMapSnoc(done, AvPair(id, rest[4..4 + n]));
      done := done + [AvPair(id, rest[4..4 + n])];
      pairs, rest := pairs[id := rest[4..4 + n]], rest[4 + n..];
    }
    AvListStep(done, rest);
    ok := true;
  }

  lemma {:induction false} AvMapEmpty()
    ensures AvMap([]) == map[]
  {
  }

  /** Writes a target information block at off. */
  method EncodePairs(dst: array<byte>, start: nat, ps: seq<AvPair>)
    requires start + |AvListBytes(ps)| <= dst.Length
    modifies dst
    ensures dst[..] == Splice(old(dst[..]), start, AvListBytes(ps))
  {
    hide LE, AvBytes;
    ghost var was, done := dst[..], [];
    var off := start;
    for i := 0 to |ps|
      invariant off == start + |done| && done + AvListBytes(ps[i..]) == AvListBytes(ps)
      invariant dst[..] == Splice(was, start, done)
    {
      assert ps[i..][1..] == ps[i + 1..];
      PutPair(dst, off, ps[i]);
      SpliceAppend(was, start, done, AvBytes(ps[i]));
      off, done := off + 4 + |ps[i].value|, done + AvBytes(ps[i]);
    }
    assert done == AvListBytes(ps);
  }

  method PutPair(dst: array<byte>, off: nat, p: AvPair)
    requires off + 4 + |p.value| <= dst.Length
    modifies dst
    ensures dst[..] == Splice(old(dst[..]), off, AvBytes(p))
  {
    hide LE;
    CopyInto(dst, off, LE(2, p.id));
    CopyInto(dst, off + 2, LE(2, |p.value|));
    CopyInto(dst, off + 4, p.value);
  }

  // ------------------------------------------------------- payload descriptors

  /** Length, maximum length and offset of a payload field. */
  function Desc(len: nat, off: nat): (r: Bytes)
    ensures |r| == 8
  {
    LE(2, len) + LE(2, len) + LE(4, off)
  }

  /** The payload field a descriptor points to, if it lies inside the message. */
  function ReadField(m: Bytes, slot: nat): Option<Bytes>
    requires slot + 8 <= |m|
  {
    var len, max, off := U16(m, slot), U16(m, slot + 2), U32(m, slot + 4);
    if max < len || |m| < off + len then None else Some(m[off..off + len])
  }

  lemma {:induction false} FieldReads(m: Bytes, slot: nat, pre: Bytes, b: Bytes, post: Bytes)
    requires m == pre + b + post && slot + 8 <= |m| < 0x1_0000_0000 && |b| < 0x1_0000
    requires m[slot..slot + 8] == Desc(|b|, |pre|)
    ensures ReadField(m, slot) == Some(b)
  {
    hide LE, U16, U32;
    var d := m[slot..slot + 8];
    assert m[slot..slot + 2] == d[..2] && m[slot + 2..slot + 4] == d[2..4] && m[slot + 4..slot + 8] == d[4..];
    U16At(m, slot, |b|); U16At(m, slot + 2, |b|); U32Exactly(m, slot + 4, |pre|);
  }

  // ------------------------------------------------------------ keys, response

  /** RC4 as a stream cipher: decryption is encryption. */
  function Rc4(c: Crypto, key: Bytes, x: Bytes): (r: Bytes)
    ensures |r| == |x|
  {
    XorSeq(x, Rc4Stream(c, key, |x|))
  }

  function Rc4Stream(c: Crypto, key: Bytes, n: nat): (r: Bytes)
    ensures |r| == n
  {
    seq(n, i requires 0 <= i => Rc4Byte(c, key, i))
  }

  function Rc4Byte(c: Crypto, key: Bytes, i: nat): byte {
    c.rc4(key, i)
  }

  lemma {:induction false} Rc4Twice(c: Crypto, key: Bytes, x: Bytes)
    ensures Rc4(c, key, Rc4(c, key, x)) == x
  {
    XorSeqTwice(x, Rc4Stream(c, key, |x|));
  }

  function Ntowfv2Hash(c: Crypto, upperUser: Bytes, hash: Bytes, domain: Bytes): Digest {
    c.hmac(hash, upperUser + domain)
  }

  function Ntowfv2(c: Crypto, upperUser: Bytes, password: Bytes, domain: Bytes): Digest {
    Ntowfv2Hash(c, upperUser, c.md4(password), domain)
  }

  function Blob(clientChallenge: Bytes, timeStamp: Bytes, targetInfo: Bytes): (r: Bytes)
    requires |clientChallenge| == 8 && |timeStamp| == 8
    ensures |r| == 28 + |targetInfo|
  {
    [1, 1] + Zeros(6) + timeStamp + clientChallenge + Zeros(4) + targetInfo
  }

  function NtResponse(c: Crypto, key: Bytes, serverChallenge: Bytes, clientChallenge: Bytes, timeStamp: Bytes,
                      targetInfo: Bytes): (r: Bytes)
    requires |clientChallenge| == 8 && |timeStamp| == 8
    ensures |r| == 44 + |targetInfo|
  {
    var blob := Blob(clientChallenge, timeStamp, targetInfo);
    c.hmac(key, serverChallenge + blob) + blob
  }

  /** Fills the zeroed bytes from off with the response and the client challenge structure. */
  method EncodeResponse(c: Crypto, dst: array<byte>, off: nat, key: Bytes, serverChallenge: Bytes,
                        clientChallenge: Bytes, timeStamp: Bytes, targetInfo: Bytes)
    requires |clientChallenge| == 8 && |timeStamp| == 8
    requires off + 44 + |targetInfo| <= dst.Length
    requires dst[off..off + 44 + |targetInfo|] == Zeros(44 + |targetInfo|)
    modifies dst
    ensures dst[..] == Splice(old(dst[..]), off, NtResponse(c, key, serverChallenge, clientChallenge, timeStamp, targetInfo))
  {
    ghost var was, n := dst[..], 28 + |targetInfo|;
    ghost var blob := Blob(clientChallenge, timeStamp, targetInfo);
    CopyInto(dst, off + 16, [1, 1]);
    CopyInto(dst, off + 24, timeStamp);
    CopyInto(dst, off + 32, clientChallenge);
    CopyInto(dst, off + 44, targetInfo);
    BlobWritten(was, off + 16, clientChallenge, timeStamp, targetInfo, dst[..]);
    var response := c.hmac(key, serverChallenge + dst[off + 16..off + 44 + |targetInfo|]);
    CopyInto(dst, off, response);
    SplicePair(was, off, response, blob);
  }

  lemma {:induction false} BlobWritten(was: Bytes, off: nat, cc: Bytes, ts: Bytes, ti: Bytes, now: Bytes)
    requires |cc| == 8 && |ts| == 8 && off + 28 + |ti| <= |was|
    requires forall i :: off <= i < off + 28 + |ti| ==> was[i] == 0
    requires now == Splice(Splice(Splice(Splice(was, off, [1, 1]), off + 8, ts), off + 16, cc), off + 28, ti)
    ensures now == Splice(was, off, Blob(cc, ts, ti))
    ensures now[off..off + 28 + |ti|] == Blob(cc, ts, ti)
  {
  }

  lemma {:induction false} SplicePair(s: Bytes, off: nat, a: Bytes, b: Bytes)
    requires off + |a| + |b| <= |s|
    ensures Splice(Splice(s, off + |a|, b), off, a) == Splice(s, off, a + b)
  {
  }

  function Magic(fromClient: bool, what: Bytes): Bytes {
    Ascii("session key to ") + Ascii(if fromClient then "client-to-server " else "server-to-client ")
    + what + Ascii(" key magic constant") + [0]
  }

  function Ascii(s: string): (r: Bytes)
    ensures |r| == |s|
  {
    seq(|s|, i requires 0 <= i < |s| => s[i] as int % 256)
  }

  function SignKey(c: Crypto, flags: nat, key: Bytes, fromClient: bool): Bytes {
    if HasBit(flags, EXTENDED_SESSIONSECURITY) then c.md5(key + Magic(fromClient, Ascii("signing"))) else []
  }

  function SealKey(c: Crypto, flags: nat, key: Bytes, fromClient: bool): Bytes
    requires |key| >= 7
  {
    if HasBit(flags, EXTENDED_SESSIONSECURITY) then
      var k := if HasBit(flags, NEGOTIATE_128) then key
               else if HasBit(flags, NEGOTIATE_56) then key[..7] else key[..5];
      c.md5(k + Magic(fromClient, Ascii("sealing")))
    else if HasBit(flags, NEGOTIATE_LM_KEY) then
      (if HasBit(flags, NEGOTIATE_56) then key[..7] + [0xa0] else key[..5] + [0xe5, 0x38, 0xb0])
    else key
  }

  /** The keys a finished handshake leaves on one side. */
  datatype Session = Session(user: Str, flags: nat, exported: Bytes,
    clientSign: Bytes, serverSign: Bytes, clientSeal: Bytes, serverSeal: Bytes)

  function NewSession(c: Crypto, user: Str, flags: nat, exported: Bytes): Session
    requires |exported| >= 7
  {
    Session(user, flags, exported, SignKey(c, flags, exported, true), SignKey(c, flags, exported, false),
      SealKey(c, flags, exported, true), SealKey(c, flags, exported, false))
  }
}
