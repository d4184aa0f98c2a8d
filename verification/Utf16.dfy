/** UTF-16LE strings (RFC 2781, sections 2.1 and 2.2). A string is the sequence of
    scalar values that ranging over it yields. */
module Utf16 {
  import opened Bytes
  import opened Slices

  type Rune = r: int | 0 <= r <= 0x10FFFF && !(0xD800 <= r < 0xE000)
  type Str = seq<Rune>
  type Unit = u: int | 0 <= u < 0x1_0000

  const REPLACEMENT: Rune := 0xFFFD

  /** Section 2.1: one unit below 0x10000, a surrogate pair above. */
  function UnitsOf(r: Rune): seq<Unit> {
    if r < 0x10000 then [r] else [0xD800 + (r - 0x10000) / 0x400, 0xDC00 + (r - 0x10000) % 0x400]
  }

  function Units(s: Str): seq<Unit> {
    if s == [] then [] else UnitsOf(s[0]) + Units(s[1..])
  }

  /** Section 2.2; a surrogate that is not part of a pair becomes U+FFFD. */
  function Runes(us: seq<Unit>): Str {
    if us == [] then []
    else if 0xD800 <= us[0] < 0xDC00 && |us| > 1 && 0xDC00 <= us[1] < 0xE000
    then [0x10000 + (us[0] - 0xD800) * 0x400 + (us[1] - 0xDC00)] + Runes(us[2..])
    else [if 0xD800 <= us[0] < 0xE000 then REPLACEMENT else us[0]] + Runes(us[1..])
  }

  function Serialized(us: seq<Unit>): (r: Bytes)
    ensures |r| == 2 * |us|
  {
    if us == [] then [] else LE(2, us[0]) + Serialized(us[1..])
  }

  function UnitsIn(bs: Bytes): (r: seq<Unit>)
    ensures |r| == |bs| / 2
  {
    if |bs| < 2 then [] else [U16(bs, 0)] + UnitsIn(bs[2..])
  }

  function Encoded(s: Str): (r: Bytes)
    ensures |r| % 2 == 0 && (|r| == 0 <==> s == [])
  {
    Serialized(Units(s))
  }

  /** Decoding drops one final zero unit, and an odd final byte. */
  function Decoded(bs: Bytes): Str {
    var us := UnitsIn(bs);
    Runes(if us != [] && us[|us| - 1] == 0 then us[..|us| - 1] else us)
  }

  lemma {:induction false} UnitsInSerialized(us: seq<Unit>)
    ensures UnitsIn(Serialized(us)) == us
  {
    if us != [] {
      var bs := Serialized(us);
      assert bs[0] == us[0] % 256 && bs[1] == us[0] / 256 by { assert LE(2, us[0])[1] == us[0] / 256 % 256; }
      assert bs[2..] == Serialized(us[1..]);
      UnitsInSerialized(us[1..]);
    }
  }

  lemma {:induction false} RunesOfUnits(s: Str)
    ensures Runes(Units(s)) == s
    ensures s != [] ==> Units(s) != [] && (Units(s)[|Units(s)| - 1] == 0 <==> s[|s| - 1] == 0)
  {
    if s != [] {
      var us := Units(s);
      RunesOfUnits(s[1..]);
      assert us[|UnitsOf(s[0])|..] == Units(s[1..]);
      assert |s| > 1 ==> s[|s| - 1] == s[1..][|s| - 2];
    }
  }

  lemma {:induction false} UnitsSnoc(s: Str, r: Rune)
    ensures Units(s + [r]) == Units(s) + UnitsOf(r)
  {
    if s == [] {
      assert Units([r]) == UnitsOf(r);
    } else {
      assert (s + [r])[1..] == s[1..] + [r];
      UnitsSnoc(s[1..], r);
    }
  }

  /** Decoding inverts encoding, except that one final NUL is lost. */
  lemma {:induction false} DecodeEncode(s: Str)
    ensures Decoded(Encoded(s)) == if s != [] && s[|s| - 1] == 0 then s[..|s| - 1] else s
  {
    hide Units, Runes, UnitsIn, Serialized;
    UnitsInSerialized(Units(s));
    RunesOfUnits(s);
    if s != [] && s[|s| - 1] == 0 {
      DropFinalNul(s);
      RunesOfUnits(s[..|s| - 1]);
    }
  }

  /** The shortest string that does not survive. */
  lemma {:induction false} LoneNulIsLost()
    ensures Decoded(Encoded([0])) == []
  {
    DecodeEncode([0]);
    assert [0][..0] == [];
  }

  lemma {:induction false} DropFinalNul(s: Str)
    requires s != [] && s[|s| - 1] == 0
    ensures var us := Units(s); us != [] && us[|us| - 1] == 0 && us[..|us| - 1] == Units(s[..|s| - 1])
  {
    assert s == s[..|s| - 1] + [0];
    UnitsSnoc(s[..|s| - 1], 0);
  }

  lemma {:induction false} EncodedCancels(s: Str, t: Str)
    ensures Encoded(s) == Encoded(t) <==> s == t
  {
    UnitsInSerialized(Units(s)); UnitsInSerialized(Units(t));
    RunesOfUnits(s); RunesOfUnits(t);
  }

  method EncodedStringLen(s: Str) returns (l: nat)
    ensures l == |Encoded(s)|
  {
    l := 0;
    for i := 0 to |s|
      invariant l + |Encoded(s[i..])| == |Encoded(s)|
    {
      assert s[i..][1..] == s[i + 1..];
      if 0x10000 <= s[i] <= 0x10FFFF {
        l := l + 4;
      } else {
        l := l + 2;
      }
    }
  }

  /** Writes the units one after the other at the start of dst. */
  method EncodeString(dst: array<byte>, src: Str) returns (n: nat)
    requires |Encoded(src)| <= dst.Length
    modifies dst
    ensures n == |Encoded(src)|
    ensures dst[..] == Encoded(src) + old(dst[n..])
  {
    var ws := Units(src);
    PutUnits(dst, ws);
    n := |ws| * 2;
  }

  method PutUnits(dst: array<byte>, ws: seq<Unit>)
    requires 2 * |ws| <= dst.Length
    modifies dst
    ensures dst[..] == Serialized(ws) + old(dst[2 * |ws|..])
  {
    ghost var was := dst[..];
    SerializedTake(ws, 0);
    hide Serialized, LE, Splice;
    for i := 0 to |ws|
      invariant dst[..] == Serialized(ws[..i]) + was[2 * i..]
    {
      SerializedTake(ws, i + 1);
      Put(dst, 2 * i, LE(2, ws[i]), Serialized(ws[..i]), was);
    }
    assert ws[..|ws|] == ws;
  }

  lemma {:induction false} SerializedTake(ws: seq<Unit>, n: nat)
    requires n <= |ws|
    ensures n == 0 ==> Serialized(ws[..n]) == []
    ensures n > 0 ==> Serialized(ws[..n]) == Serialized(ws[..n - 1]) + LE(2, ws[n - 1])
  {
    if n > 1 {
      SerializedTake(ws[1..], n - 1);
      assert ws[1..][..n - 1] == ws[..n][1..] && ws[1..][..n - 2] == ws[..n - 1][1..];
    }
  }

  lemma {:induction false} UnitsInStep(bs: Bytes, i: nat)
    requires 2 * (i + 1) <= |bs|
    ensures UnitsIn(bs[2 * i..]) == [U16(bs, 2 * i)] + UnitsIn(bs[2 * (i + 1)..])
  {
    assert bs[2 * i..][2..] == bs[2 * (i + 1)..];
  }

  lemma {:induction false} UnitsInShort(bs: Bytes)
    requires |bs| < 2
    ensures UnitsIn(bs) == []
  {
  }

  method DecodeToString(bs: Bytes) returns (s: Str)
    ensures s == Decoded(bs)
  {
    if |bs| == 0 {
      UnitsInShort(bs);
      return [];
    }
    var ws := TakeUnits(bs);
    if |ws| > 0 && ws[|ws| - 1] == 0 {
      ws := ws[..|ws| - 1];
    }
    s := Runes(ws);
  }

  method TakeUnits(bs: Bytes) returns (ws: seq<Unit>)
    ensures ws == UnitsIn(bs)
  {
    hide U16, UnitsIn;
    ws := [];
    var n := |bs| / 2;
    for i := 0 to n
      invariant |ws| == i && ws + UnitsIn(bs[2 * i..]) == UnitsIn(bs)
    {
      UnitsInStep(bs, i);
      ws := ws + [U16(bs, 2 * i)];
    }
    UnitsInShort(bs[2 * n..]);
  }
}
