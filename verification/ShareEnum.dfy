/** Share enumeration over DCE/RPC: the server's NDR encoder of the response, the
    client's reader of it, and what becomes of the share names on the way. */
module ShareEnum {
  import opened Bytes
  import opened Slices
  import opened Utf16

  // ---------------------------------------------------------------- the response

  function Utf8Size(r: Rune): nat {
    if r < 0x80 then 1 else if r < 0x800 then 2 else if r < 0x1_0000 then 3 else 4
  }

  /** The length of a name in the server's own string representation. */
  function Utf8Len(s: Str): nat {
    if s == [] then 0 else Utf8Size(s[0]) + Utf8Len(s[1..])
  }

  /** The character count sent with a name, its terminator included. */
  function Count(s: Str): nat {
    Utf8Len(s) + 1
  }

  lemma {:induction false} UnitsWithinUtf8(s: Str)
    ensures |Units(s)| <= Utf8Len(s)
    ensures |Units(s)| == Utf8Len(s) <==> forall i :: 0 <= i < |s| ==> s[i] < 0x80
  {
    if s != [] {
      UnitsWithinUtf8(s[1..]);
      assert forall i :: 0 < i < |s| ==> s[i] == s[1..][i - 1];
    }
  }

  lemma {:induction false} TerminatedFits(s: Str)
    ensures |Encoded(s + [0])| <= 2 * Count(s)
  {
    UnitsWithinUtf8(s);
    UnitsSnoc(s, 0);
  }

  /** The terminated name in the room its count announces, to four bytes. */
  function Area(s: Str): (r: Bytes)
    ensures |r| == Align4(2 * Count(s))
  {
    TerminatedFits(s);
    var e := Encoded(s + [0]);
    e + Zeros(Align4(2 * Count(s)) - |e|)
  }

  function StrBytes(s: Str): (r: Bytes)
    ensures |r| == 12 + Align4(2 * Count(s))
  {
    LE(4, Count(s)) + LE(4, 0) + LE(4, Count(s)) + Area(s)
  }

  /** Name reference, share type and comment reference of every share. */
  function Table(n: nat, ref: nat): (r: Bytes)
    ensures |r| == 12 * n
  {
    if n == 0 then [] else Table(n - 1, ref) + (LE(4, ref + 2 * (n - 1)) + LE(4, 0) + LE(4, ref + 2 * n - 1))
  }

  /** Every name, each with an empty comment. */
  function Strings(names: seq<Str>): Bytes {
    if names == [] then [] else ShareBytes(names[0]) + Strings(names[1..])
  }

  /** A name and its empty comment. */
  function ShareBytes(s: Str): (r: Bytes)
    ensures |r| == 24 + Align4(2 * Count(s)) + Align4(2 * Count([]))
  {
    StrBytes(s) + StrBytes([])
  }

  function Data(names: seq<Str>, ref: nat): Bytes {
    Counts(|names|, ref) + Table(|names|, ref + 2) + Strings(names) + Trailer(|names|, ref + 2 + 2 * |names|)
  }

  function Counts(n: nat, ref: nat): (r: Bytes)
    ensures |r| == 24
  {
    LE(4, 1) + LE(4, 1) + LE(4, ref) + LE(4, n) + LE(4, ref + 1) + LE(4, n)
  }

  function Trailer(n: nat, ref: nat): (r: Bytes)
    ensures |r| == 16
  {
    LE(4, n) + LE(4, ref) + LE(4, 0) + LE(4, 0)
  }

  function Header(size: nat, callId: nat): (r: Bytes)
    ensures |r| == 24
  {
    [5, 0, 2, 3, 0x10, 0, 0, 0] + LE(2, size) + LE(2, 0) + LE(4, callId) + LE(4, 0) + LE(2, 0) + [0, 0]
  }

  function Response(names: seq<Str>, ref: nat, callId: nat): Bytes {
    Header(24 + |Data(names, ref)|, callId) + Data(names, ref)
  }

  // -------------------------------------------------------------------- the reader

  predicate IsInvalid(c: Bytes) {
    |c| < 24 || c[0] != 5 || c[1] != 0 || c[2] != 2
  }

  /** Where the string that starts at off ends. */
  function After(c: Bytes, off: nat): nat
    requires off + 12 <= |c|
  {
    Align4(off + 12 + U32(c, off + 4) + 2 * U32(c, off + 8))
  }

  predicate HasString(c: Bytes, off: nat) {
    off + 12 <= |c| && After(c, off) <= |c|
  }

  /** Whether count entries of one name, and a comment unless named alone, are there. */
  predicate Complete(c: Bytes, off: nat, count: nat, alone: bool)
    decreases count
  {
    count == 0 ||
    (HasString(c, off) &&
     if alone then Complete(c, After(c, off), count - 1, alone)
     else HasString(c, After(c, off)) && Complete(c, After(c, After(c, off)), count - 1, alone))
  }

  function StringAt(c: Bytes, off: nat): Str
    requires HasString(c, off)
  {
    var start := off + 12 + U32(c, off + 4);
    Decoded(c[start..start + 2 * U32(c, off + 8)])
  }

  function NamesFrom(c: Bytes, off: nat, count: nat, alone: bool): seq<Str>
    requires Complete(c, off, count, alone)
    decreases count
  {
    if count == 0 then []
    else
      var next := After(c, off);
      [StringAt(c, off)] + NamesFrom(c, if alone then next else After(c, next), count - 1, alone)
  }

  /** The entries start behind the table of references, by level. */
  function Start(level: nat, count: nat): nat {
    48 + count * (if level == 0 then 4 else 12)
  }

  predicate Incomplete(c: Bytes) {
    |c| < 48 || U32(c, 24) > 1 || |c| < Start(U32(c, 24), U32(c, 36))
    || !Complete(c, Start(U32(c, 24), U32(c, 36)), U32(c, 36), U32(c, 24) == 0)
  }

  function ShareNames(c: Bytes): seq<Str>
    requires !Incomplete(c)
  {
    NamesFrom(c, Start(U32(c, 24), U32(c, 36)), U32(c, 36), U32(c, 24) == 0)
  }

  method IsIncomplete(c: Bytes) returns (r: bool)
    ensures r <==> Incomplete(c)
  {
    hide U32;
    if |c| < 48 {
      return true;
    }
    var level, count := U32(c, 24), U32(c, 36);
    if level > 1 {
      return true;
    }
    var offset := Start(level, count);
    if |c| < offset {
      return true;
    }
    for i := 0 to count
      invariant Complete(c, Start(level, count), count, level == 0) <==> Complete(c, offset, count - i, level == 0)
    {
      if |c| < offset + 12 {
        return true;
      }
      offset := After(c, offset);
      if |c| < offset {
        return true;
      }
      if level == 1 {
        if |c| < offset + 12 {
          return true;
        }
        offset := After(c, offset);
        if |c| < offset {
          return true;
        }
      }
    }
    r := false;
  }

  method ShareNameList(c: Bytes) returns (ss: seq<Str>)
    requires !Incomplete(c)
    ensures ss == ShareNames(c)
  {
    hide U32, StringAt;
    var level, count := U32(c, 24), U32(c, 36);
    ss := [];
    var offset := Start(level, count);
    for i := 0 to count
      invariant Complete(c, offset, count - i, level == 0)
      invariant ss + NamesFrom(c, offset, count - i, level == 0) == NamesFrom(c, Start(level, count), count, level == 0)
    {
      ss := ss + [StringAt(c, offset)];
      offset := After(c, offset);
      if level == 1 {
        offset := After(c, offset);
      }
    }
    assert ss + [] == ss;
  }

  // ------------------------------------------------------------------- round trip

  function Nuls(k: nat): (r: Str)
    ensures |r| == k
  {
    seq(k, _ => 0)
  }

  /** A name as it is read back: one NUL for every byte its count has too many. */
  function Surplus(s: Str): Str {
    UnitsWithinUtf8(s);
    s + Nuls(Utf8Len(s) - |Units(s)|)
  }

  predicate Ascii(s: Str) {
    forall i :: 0 <= i < |s| ==> s[i] < 0x80
  }

  lemma {:induction false} SurplusIffNotAscii(s: Str)
    ensures Surplus(s) == s <==> Ascii(s)
  {
    UnitsWithinUtf8(s);
    if Surplus(s) == s { assert |Surplus(s)| == |s|; }
  }

  /** A name of one letter outside ASCII comes back with a NUL. */
  lemma {:induction false} AccentedNameGrows()
    ensures Surplus([0xE9]) == [0xE9, 0]
  {
    var s: Str := [0xE9];
    assert s[1..] == [];
    assert Utf8Len([]) == 0 && Units([]) == [];
    assert Utf8Len(s) == 2 && Units(s) == [0xE9];
  }

  lemma {:induction false} NulBytes(s: Str, k: nat)
    ensures Encoded(s + Nuls(k)) == Encoded(s) + Zeros(2 * k)
  {
    if k == 0 {
      assert s + Nuls(0) == s;
    } else {
      NulBytes(s, k - 1);
      assert s + Nuls(k) == (s + Nuls(k - 1)) + [0];
      UnitsSnoc(s + Nuls(k - 1), 0);
      SerializedSnoc(Units(s + Nuls(k - 1)), 0);
      assert LE(2, 0) == [0, 0] by { assert LE(1, 0) == [0]; }
    }
  }

  lemma {:induction false} SerializedSnoc(us: seq<Unit>, u: Unit)
    ensures Serialized(us + [u]) == Serialized(us) + LE(2, u)
  {
    hide LE;
    if us == [] {
      assert [u][1..] == [];
    } else {
      assert (us + [u])[1..] == us[1..] + [u];
      SerializedSnoc(us[1..], u);
    }
  }

  /** The counted part of a name's room decodes to the name with its surplus. */
  lemma {:induction false} AreaDecodes(s: Str)
    ensures 2 * Count(s) <= |Area(s)| && Decoded(Area(s)[..2 * Count(s)]) == Surplus(s)
  {
    UnitsWithinUtf8(s);
    TerminatedFits(s);
    var k := Utf8Len(s) - |Units(s)|;
    UnitsSnoc(s, 0);
    NulBytes(s + [0], k);
    assert (s + [0]) + Nuls(k) == Surplus(s) + [0];
    DecodeEncode(Surplus(s) + [0]);
    hide Encoded, Decoded;
    EncodedLength(s + [0]);
    assert Area(s)[..2 * Count(s)] == Encoded(s + [0]) + Zeros(2 * k);
  }

  lemma {:induction false} EncodedLength(s: Str)
    ensures |Encoded(s)| == 2 * |Units(s)|
  {
  }

  lemma {:induction false} CountsRead(c: Bytes, off: nat, s: Str, rest: Bytes)
    requires off <= |c| && c[off..] == StrBytes(s) + rest && Count(s) < 0x8000_0000
    ensures off + |StrBytes(s)| <= |c| && U32(c, off + 4) == 0 && U32(c, off + 8) == Count(s)
    ensures c[off + 12..off + 12 + |Area(s)|] == Area(s) && c[off + |StrBytes(s)|..] == rest
  {
    hide LE, U32, Area, Count;
    var t, n := c[off..], Count(s);
    assert |t| == |c| - off;
    WithinTail(c, off, 4, 8); WithinTail(c, off, 8, 12); WithinTail(c, off, 12, 12 + |Area(s)|);
    WithinTail(c, off, |StrBytes(s)|, |t|);
    assert t[4..8] == LE(4, 0) && t[8..12] == LE(4, n) && t[12..12 + |Area(s)|] == Area(s);
    assert t[|StrBytes(s)|..] == rest;
    U32Exactly(c, off + 4, 0); U32Exactly(c, off + 8, n);
  }

  /** A printed string is found and read at its place. */
  lemma {:induction false} StringReads(c: Bytes, off: nat, s: Str, rest: Bytes)
    requires off <= |c| && off % 4 == 0 && c[off..] == StrBytes(s) + rest && Count(s) < 0x8000_0000
    ensures HasString(c, off) && After(c, off) == off + |StrBytes(s)| && StringAt(c, off) == Surplus(s)
    ensures c[After(c, off)..] == rest && After(c, off) % 4 == 0
  {
    hide StrBytes, U32, Area, Surplus, Count, Decoded, Align4, Utf8Len, LE;
    var n := Count(s);
    CountsRead(c, off, s, rest);
    AlignedSum(off + 12, 2 * n);
    AreaDecodes(s);
    TakeWithin(c, off + 12, Area(s), 2 * n);
    AfterIs(c, off, n);
  }

  lemma {:induction false} AfterIs(c: Bytes, off: nat, n: nat)
    requires off + 12 <= |c| && U32(c, off + 4) == 0 && U32(c, off + 8) == n
    ensures After(c, off) == Align4((off + 12) + 2 * n)
  {
    hide U32, Align4;
  }

  lemma {:induction false} TakeWithin(c: Bytes, at: nat, a: Bytes, k: nat)
    requires at + |a| <= |c| && c[at..at + |a|] == a && k <= |a|
    ensures c[at..at + k] == a[..k]
  {
    assert c[at..at + k] == c[at..at + |a|][..k];
  }

  lemma {:induction false} WithinTail(c: Bytes, off: nat, i: nat, j: nat)
    requires off <= |c| && i <= j <= |c| - off
    ensures c[off + i..off + j] == c[off..][i..j] && c[off..][i..] == c[off + i..]
  {
  }

  lemma {:induction false} AlignedSum(a: nat, b: nat)
    requires a % 4 == 0
    ensures Align4(a + b) == a + Align4(b) && (a + Align4(b)) % 4 == 0
  {
  }

  predicate NamesFit(names: seq<Str>) {
    |names| < 0x1_0000_0000 && forall i :: 0 <= i < |names| ==> Count(names[i]) < 0x8000_0000
  }

  function Read(names: seq<Str>): seq<Str> {
    seq(|names|, i requires 0 <= i < |names| => Surplus(names[i]))
  }

  lemma {:induction false} ShareReads(c: Bytes, off: nat, s: Str, rest: Bytes)
    requires off <= |c| && off % 4 == 0 && c[off..] == ShareBytes(s) + rest && Count(s) < 0x8000_0000
    ensures HasString(c, off) && HasString(c, After(c, off)) && StringAt(c, off) == Surplus(s)
    ensures var next := After(c, After(c, off)); next <= |c| && next % 4 == 0 && c[next..] == rest
  {
    hide StrBytes, HasString, After, StringAt, Surplus;
    assert c[off..] == StrBytes(s) + (StrBytes([]) + rest);
    StringReads(c, off, s, StrBytes([]) + rest);
    EmptyCount();
    StringReads(c, After(c, off), [], rest);
    HasStringEnds(c, After(c, off));
  }

  lemma {:induction false} HasStringEnds(c: Bytes, off: nat)
    requires HasString(c, off)
    ensures After(c, off) <= |c|
  {
  }

  lemma {:induction false} EmptyCount()
    ensures Count([]) == 1
  {
  }

  lemma {:induction false} StringsRead(c: Bytes, off: nat, names: seq<Str>, rest: Bytes)
    requires off <= |c| && off % 4 == 0 && c[off..] == Strings(names) + rest
    requires forall i :: 0 <= i < |names| ==> Count(names[i]) < 0x8000_0000
    ensures Complete(c, off, |names|, false) && NamesFrom(c, off, |names|, false) == Read(names)
    decreases |names|
  {
    hide ShareBytes, After, StringAt, Surplus, Count;
    if names != [] {
      var s, more := names[0], Strings(names[1..]) + rest;
      assert c[off..] == ShareBytes(s) + more;
      ShareReads(c, off, s, more);
      StringsRead(c, After(c, After(c, off)), names[1..], rest);
      assert Read(names) == [Surplus(s)] + Read(names[1..]);
    }
  }

  /** The client accepts every response of the server as valid and complete. The list
      it reads has every name in order, followed by its surplus; so it is the list of
      names exactly when all of them are ASCII. */
  lemma {:induction false} ShareListRoundTripIff(names: seq<Str>, ref: nat, callId: nat)
    requires NamesFit(names)
    ensures var c := Response(names, ref, callId);
      && !IsInvalid(c) && !Incomplete(c)
      && ShareNames(c) == Read(names)
      && (ShareNames(c) == names <==> forall i :: 0 <= i < |names| ==> Ascii(names[i]))
  {
    hide LE, U32, Strings, Complete, NamesFrom, Surplus, Ascii, Trailer, Table;
    var c, n := Response(names, ref, callId), |names|;
    ResponseFields(names, ref, callId);
    assert Start(1, n) % 4 == 0;
    StringsRead(c, 48 + 12 * n, names, Trailer(n, ref + 2 + 2 * n));
    forall i | 0 <= i < n ensures Read(names)[i] == names[i] <==> Ascii(names[i]) {
      SurplusIffNotAscii(names[i]);
    }
    if Read(names) == names {
      forall i | 0 <= i < n ensures Ascii(names[i]) { assert Read(names)[i] == names[i]; }
    }
  }

  lemma {:induction false} ResponseFields(names: seq<Str>, ref: nat, callId: nat)
    requires |names| < 0x1_0000_0000
    ensures var c, n := Response(names, ref, callId), |names|;
      && |c| >= 48 + 12 * n && c[0] == 5 && c[1] == 0 && c[2] == 2 && U32(c, 24) == 1 && U32(c, 36) == n
      && c[48 + 12 * n..] == Strings(names) + Trailer(n, ref + 2 + 2 * n)
  {
    hide LE, U32, Strings, Trailer, Table;
    var c, n := Response(names, ref, callId), |names|;
    var h, k, t := Header(24 + |Data(names, ref)|, callId), Counts(n, ref), Table(n, ref + 2);
    var rest := Strings(names) + Trailer(n, ref + 2 + 2 * n);
    assert k[..4] == LE(4, 1) && k[12..16] == LE(4, n);
    assert h[0] == 5 && h[1] == 0 && h[2] == 2;
    hide Header, Counts;
    assert c == h + k + t + rest;
    FrameSplit(h, k, t, rest);
    assert c[24..28] == c[24..48][..4] && c[36..40] == c[24..48][12..16];
    U32Exactly(c, 24, 1); U32Exactly(c, 36, n);
  }

  lemma {:induction false} FrameSplit(h: Bytes, k: Bytes, t: Bytes, rest: Bytes)
    requires |h| == |k| == 24
    ensures var c := h + k + t + rest; c[..24] == h && c[24..48] == k && c[48 + |t|..] == rest && c[0] == h[0] && c[1] == h[1] && c[2] == h[2]
  {
  }

  // ------------------------------------------------------------------ the encoder

  /** The encoder numbers the references it writes. */
  class Encoder {
    var nextRef: nat

    constructor (first: nat)
      ensures nextRef == first
    {
      nextRef := first;
    }

    method RefId() returns (r: nat)
      modifies this
      ensures r == old(nextRef) && nextRef == r + 1
    {
      r := nextRef;
      nextRef := nextRef + 1;
    }

    /** The whole response to an enumeration; every part stays within its size. */
    method EncodeResponse(names: seq<Str>, callId: nat) returns (r: Bytes)
      modifies this
      ensures r == Response(names, old(nextRef), callId) && nextRef == old(nextRef) + 3 + 2 * |names|
    {
      hide LE, Table, Strings, Header, Trailer, Zeros;
      ghost var ref := nextRef;
      var n := |names|;
      var strings := SizeOfStrings(names);
      var size := 24 + 24 + 12 * n + strings + 16;
      var b := new byte[size](_ => 0);
      assert b[..] == [] + Zeros(size) by { AllZero(b[..]); }
      var h := Header(size, callId);
      Append(b, 0, h, []);
      assert [] + h == h;
      EncodeCounts(b, n, h);
      EncodeTable(b, n, h + Counts(n, ref));
      EncodeStrings(b, 48 + 12 * n, names, h + Counts(n, ref) + Table(n, ref + 2));
      var resume := RefId();
      Append(b, 48 + 12 * n + strings, Trailer(n, resume), h + Counts(n, ref) + Table(n, ref + 2) + Strings(names));
      NothingLeft(h, Counts(n, ref), Table(n, ref + 2), Strings(names), Trailer(n, resume));
      r := b[..];
    }

    method EncodeCounts(b: array<byte>, n: nat, ghost done: Bytes)
      requires |done| == 24 && b.Length >= 48 && b[..] == done + Zeros(b.Length - 24)
      modifies b, this
      ensures nextRef == old(nextRef) + 2
      ensures b[..] == (done + Counts(n, old(nextRef))) + Zeros(b.Length - 48)
    {
      hide LE, Zeros;
      Append(b, 24, LE(4, 1) + LE(4, 1), done);
      var ctr := RefId();
      Append(b, 32, LE(4, ctr) + LE(4, n), done + (LE(4, 1) + LE(4, 1)));
      var info := RefId();
      Append(b, 40, LE(4, info) + LE(4, n), done + (LE(4, 1) + LE(4, 1)) + (LE(4, ctr) + LE(4, n)));
      assert done + (LE(4, 1) + LE(4, 1)) + (LE(4, ctr) + LE(4, n)) + (LE(4, info) + LE(4, n)) == done + Counts(n, ctr);
    }

    /** A string into bytes that are still zero. */
    method EncodeString(b: array<byte>, off: nat, s: Str, ghost done: Bytes)
      requires off == |done| && off + |StrBytes(s)| <= b.Length && b[..] == done + Zeros(b.Length - off)
      modifies b
      ensures b[..] == (done + StrBytes(s)) + Zeros(b.Length - off - |StrBytes(s)|)
    {
      hide LE, Encoded, Zeros, Splice;
      ghost var was := b[..];
      TerminatedFits(s);
      var e := Encoded(s + [0]);
      StringWritten(done, b.Length - off, s);
      CopyInto(b, off, LE(4, Count(s)) + LE(4, 0) + LE(4, Count(s)));
      CopyInto(b, off + 12, e);
    }

    /** The table of references: for each share its name, type and comment. */
    method EncodeTable(b: array<byte>, n: nat, ghost done: Bytes)
      requires |done| + 12 * n <= b.Length && b[..] == done + Zeros(b.Length - |done|)
      requires |done| == 48
      modifies b, this
      ensures nextRef == old(nextRef) + 2 * n
      ensures b[..] == (done + Table(n, old(nextRef))) + Zeros(b.Length - |done| - 12 * n)
    {
      hide LE, Zeros, Splice;
      ghost var ref := nextRef;
      var off := 48;
      assert Table(0, ref) == [] && done + [] == done;
      for i := 0 to n
        invariant off == 48 + 12 * i && nextRef == ref + 2 * i
        invariant b[..] == (done + Table(i, ref)) + Zeros(b.Length - off)
      {
        ghost var now := done + Table(i, ref);
        var name := RefId();
        RowWritten(now, b.Length - off, LE(4, name), LE(4, 0), LE(4, name + 1));
        CopyInto(b, off, LE(4, name));
        CopyInto(b, off + 4, LE(4, 0));
        var comment := RefId();
        CopyInto(b, off + 8, LE(4, comment));
        TableStep(i, ref);
        assert now + (LE(4, name) + LE(4, 0) + LE(4, comment)) == done + Table(i + 1, ref);
        off := off + 12;
      }
    }

    /** A name and its empty comment. */
    method EncodeShare(b: array<byte>, off: nat, s: Str, ghost done: Bytes)
      requires off == |done| && off + |ShareBytes(s)| <= b.Length && b[..] == done + Zeros(b.Length - off)
      modifies b
      ensures b[..] == (done + ShareBytes(s)) + Zeros(b.Length - off - |ShareBytes(s)|)
    {
      hide StrBytes, Zeros;
      EncodeString(b, off, s, done);
      EncodeString(b, off + 12 + Align4(2 * Count(s)), [], done + StrBytes(s));
      assert done + StrBytes(s) + StrBytes([]) == done + ShareBytes(s);
    }

    /** Every name and its empty comment. */
    method EncodeStrings(b: array<byte>, start: nat, names: seq<Str>, ghost done: Bytes)
      requires start == |done| && start + |Strings(names)| <= b.Length && b[..] == done + Zeros(b.Length - start)
      modifies b
      ensures b[..] == (done + Strings(names)) + Zeros(b.Length - start - |Strings(names)|)
    {
      hide ShareBytes, Zeros, Strings, Count;
      var off := start;
      FirstStrings(names, 0);
      assert done + [] == done;
      for i := 0 to |names|
        invariant off == |done| + |Strings(names[..i])| && off <= b.Length
        invariant b[..] == (done + Strings(names[..i])) + Zeros(b.Length - off)
      {
        FirstStrings(names, i + 1);
        ghost var now, both := done + Strings(names[..i]), ShareBytes(names[i]);
        EncodeShare(b, off, names[i], now);
        off := off + 24 + Align4(2 * Count(names[i])) + Align4(2 * Count([]));
        assert now + both == done + Strings(names[..i + 1]);
      }
      assert names[..|names|] == names;
    }
  }

  /** Writes x behind what is written already; the rest is still zero. */
  method Append(b: array<byte>, off: nat, x: Bytes, ghost done: Bytes)
    requires off == |done| && off + |x| <= b.Length && b[..] == done + Zeros(b.Length - off)
    modifies b
    ensures b[..] == (done + x) + Zeros(b.Length - off - |x|)
  {
    CopyInto(b, off, x);
  }

  /** The size of the names and comments. */
  method SizeOfStrings(names: seq<Str>) returns (s: nat)
    ensures s == |Strings(names)|
  {
    hide ShareBytes, Strings;
    s := 0;
    FirstStrings(names, 0);
    for i := 0 to |names|
      invariant s == |Strings(names[..i])|
    {
      FirstStrings(names, i + 1);
      s := s + 24 + Align4(2 * Count(names[i])) + Align4(2 * Count([]));
    }
    assert names[..|names|] == names;
  }

  lemma {:induction false} AllZero(b: Bytes)
    requires forall i :: 0 <= i < |b| ==> b[i] == 0
    ensures b == [] + Zeros(|b|)
  {
  }

  lemma {:induction false} NothingLeft(h: Bytes, k: Bytes, t: Bytes, s: Bytes, u: Bytes)
    ensures (h + k + t + s + u) + Zeros(0) == h + (k + t + s + u)
  {
  }

  lemma {:induction false} StringWritten(done: Bytes, z: nat, s: Str)
    requires |StrBytes(s)| <= z
    ensures var b, off := done + Zeros(z), |done|; var counts := LE(4, Count(s)) + LE(4, 0) + LE(4, Count(s));
      && off + 12 + |Encoded(s + [0])| <= |b|
      && Splice(Splice(b, off, counts), off + 12, Encoded(s + [0])) == (done + StrBytes(s)) + Zeros(z - |StrBytes(s)|)
  {
    hide LE, Encoded;
    TerminatedFits(s);
  }

  lemma {:induction false} RowWritten(done: Bytes, z: nat, x: Bytes, y: Bytes, w: Bytes)
    requires |x| == |y| == |w| == 4 && z >= 12
    ensures var b, off := done + Zeros(z), |done|;
      Splice(Splice(Splice(b, off, x), off + 4, y), off + 8, w) == (done + (x + y + w)) + Zeros(z - 12)
  {
  }

  lemma {:induction false} TableStep(i: nat, ref: nat)
    ensures Table(i + 1, ref) == Table(i, ref) + (LE(4, ref + 2 * i) + LE(4, 0) + LE(4, ref + 2 * i + 1))
  {
    hide LE;
    assert ref + 2 * (i + 1) - 1 == ref + 2 * i + 1;
  }

  lemma {:induction false} FirstStrings(names: seq<Str>, i: nat)
    requires i <= |names|
    ensures i == 0 ==> Strings(names[..i]) == []
    ensures i > 0 ==> Strings(names[..i]) == Strings(names[..i - 1]) + ShareBytes(names[i - 1])
    ensures |Strings(names[..i])| <= |Strings(names)|
    decreases |names|
  {
    hide ShareBytes;
    if i > 0 {
      var rest := names[1..];
      FirstStrings(rest, i - 1);
      assert names[..i][1..] == rest[..i - 1];
      if i > 1 { assert names[..i - 1][1..] == rest[..i - 2]; }
    }
  }
}
