/** Lists of variable-size entries linked by byte offsets: directory entries and
    change notifications as the server prints them, and a reader that follows the
    links. */
module Listings {
  import opened Bytes
  import opened Slices
  import opened Utf16
  import opened Wrappers

  // -------------------------------------------------------------- linked blocks

  /** An entry with its link to the next one in its first four bytes. */
  function WithNext(p: Bytes, next: nat): (r: Bytes)
    requires |p| >= 4
    ensures |r| == |p|
  {
    LE(4, next) + p[4..]
  }

  function Padded(p: Bytes): (r: Bytes)
    ensures |r| == Align4(|p|)
  {
    p + Zeros(Align4(|p|) - |p|)
  }

  predicate Entries(parts: seq<Bytes>) {
    forall i :: 0 <= i < |parts| ==> 4 <= |parts[i]| && |parts[i]| + 4 < 0x1_0000_0000
  }

  /** Every entry but the last is padded to four bytes and links to the next. */
  function Piece(parts: seq<Bytes>, i: nat): (r: Bytes)
    requires Entries(parts) && i < |parts|
    ensures |r| >= 4
  {
    if i < |parts| - 1 then Padded(WithNext(parts[i], Align4(|parts[i]|))) else WithNext(parts[i], 0)
  }

  function Linked(parts: seq<Bytes>): Bytes
    requires Entries(parts)
  {
    if parts == [] then [] else Piece(parts, 0) + Linked(parts[1..])
  }

  /** The entries a reader finds by following the links. */
  function Walk(b: Bytes): Option<seq<Bytes>>
    decreases |b|
  {
    if |b| < 4 then None
    else
      var n := U32(b, 0);
      if n == 0 then Some([b])
      else if n > |b| then None
      else
        match Walk(b[n..]) case None => None case Some(rest) => Some([b[..n]] + rest)
  }

  /** The entries as they lie in the list. */
  function Pieces(parts: seq<Bytes>): seq<Bytes>
    requires Entries(parts)
  {
    seq(|parts|, i requires 0 <= i < |parts| => Piece(parts, i))
  }

  /** The reader finds the entries in order, with a zero link at the end. */
  lemma {:induction false} WalkFollows(parts: seq<Bytes>)
    requires Entries(parts) && parts != []
    ensures Walk(Linked(parts)) == Some(Pieces(parts))
  {
    hide U32, LE;
    var p := parts[0];
    var b := Linked(parts);
    if |parts| == 1 {
      assert parts[1..] == [] && Linked(parts[1..]) == [];
      assert b == WithNext(p, 0) && b[0..4] == LE(4, 0);
      U32Exactly(b, 0, 0);
      assert Pieces(parts) == [b];
    } else {
      var n := Align4(|p|);
      assert b[0..4] == LE(4, n) && b[..n] == Piece(parts, 0) && b[n..] == Linked(parts[1..]);
      U32Exactly(b, 0, n);
      WalkFollows(parts[1..]);
      PiecesCons(parts);
    }
  }

  lemma {:induction false} PiecesCons(parts: seq<Bytes>)
    requires Entries(parts) && parts != []
    ensures Pieces(parts) == [Piece(parts, 0)] + Pieces(parts[1..])
  {
    hide Padded, WithNext;
  }

  /** The first n entries of a list. */
  function Printed(parts: seq<Bytes>, n: nat): Bytes
    requires Entries(parts) && n <= |parts|
  {
    if n == 0 then [] else Printed(parts, n - 1) + Piece(parts, n - 1)
  }

  lemma {:induction false} PrintedThenRest(parts: seq<Bytes>, n: nat)
    requires Entries(parts) && n <= |parts|
    ensures Printed(parts, n) + Linked(parts[n..]) == Linked(parts)
  {
    hide Piece;
    if n == 0 {
      assert parts[0..] == parts;
    } else {
      PrintedThenRest(parts, n - 1);
      PieceShift(parts, n - 1);
      var done, p, rest := Printed(parts, n - 1), Piece(parts, n - 1), Linked(parts[n..]);
      assert done + (p + rest) == (done + p) + rest;
    }
  }

  lemma {:induction false} PieceShift(parts: seq<Bytes>, n: nat)
    requires Entries(parts) && n < |parts|
    ensures Entries(parts[n..]) && Linked(parts[n..]) == Piece(parts, n) + Linked(parts[n + 1..])
  {
    hide Padded, WithNext;
    assert parts[n..][1..] == parts[n + 1..];
    assert Piece(parts[n..], 0) == Piece(parts, n);
  }

  /** One more entry fits, and after the last one the list is complete. */
  lemma {:induction false} PrintedGrows(parts: seq<Bytes>, n: nat)
    requires Entries(parts) && n <= |parts|
    ensures n < |parts| ==> |Printed(parts, n) + Piece(parts, n)| <= |Linked(parts)|
    ensures n < |parts| ==> Printed(parts, n + 1) == Printed(parts, n) + Piece(parts, n)
    ensures n == |parts| ==> Printed(parts, n) == Linked(parts)
    ensures Printed(parts, 0) == []
  {
    hide Piece;
    PrintedThenRest(parts, if n < |parts| then n + 1 else n);
    if n == |parts| { assert parts[n..] == []; }
  }

  // ------------------------------------------------------------ kinds of entries

  /** A directory entry: its 56 bytes of times, sizes and attributes, and its name. */
  datatype DirEntry = DirEntry(meta: Bytes, name: Str) {
    predicate Fits() {
      |meta| == 56 && |Encoded(name)| + 80 < 0x1_0000_0000
    }
  }

  /** The entry with a zero link, filled up to eight bytes. */
  function DirBytes(e: DirEntry): (r: Bytes)
    ensures |r| == Align8(8 + |e.meta| + |Encoded(e.name)|)
  {
    var b := Zeros(4) + e.meta + LE(4, |Encoded(e.name)|) + Encoded(e.name);
    b + Zeros(Align8(|b|) - |b|)
  }

  /** A change notification. */
  datatype Notice = Notice(action: nat, name: Str) {
    predicate Fits() {
      action < 0x1_0000_0000 && |Encoded(name)| + 16 < 0x1_0000_0000
    }
  }

  function NoticeBytes(n: Notice): (r: Bytes)
    ensures |r| == 12 + |Encoded(n.name)|
  {
    Zeros(4) + LE(4, n.action) + LE(4, |Encoded(n.name)|) + Encoded(n.name)
  }

  /** A name of the length given in the four bytes before it. */
  function NameAt(b: Bytes, slot: nat): Option<Str> {
    if |b| < slot + 4 || |b| < slot + 4 + U32(b, slot) then None
    else Some(Utf16.Decoded(b[slot + 4..slot + 4 + U32(b, slot)]))
  }

  function ReadDir(b: Bytes): Option<DirEntry> {
    if |b| < 60 || NameAt(b, 60).None? then None else Some(DirEntry(b[4..60], NameAt(b, 60).value))
  }

  function ReadNotice(b: Bytes): Option<Notice> {
    if |b| < 8 || NameAt(b, 8).None? then None else Some(Notice(U32(b, 4), NameAt(b, 8).value))
  }

  /** A name that decoding does not shorten. */
  predicate Plain(s: Str) {
    s == [] || s[|s| - 1] != 0
  }

  lemma {:induction false} NameReads(b: Bytes, slot: nat, s: Str, rest: Bytes)
    requires slot + 4 <= |b| && b[slot..] == LE(4, |Encoded(s)|) + Encoded(s) + rest
    requires |Encoded(s)| < 0x1_0000_0000 && Plain(s)
    ensures NameAt(b, slot) == Some(s)
  {
    hide LE, U32, Encoded;
    var t, n := b[slot..], |Encoded(s)|;
    assert b[slot..slot + 4] == t[..4] == LE(4, n);
    U32Exactly(b, slot, n);
    assert b[slot + 4..slot + 4 + n] == t[4..4 + n] == Encoded(s);
    DecodeEncode(s);
  }

  /** A printed directory entry, with any link and anything behind it, reads back. */
  lemma {:induction false} DirReadsBack(e: DirEntry, next: nat, rest: Bytes)
    requires e.Fits() && Plain(e.name)
    ensures ReadDir(WithNext(DirBytes(e), next) + rest) == Some(e)
  {
    hide LE, Encoded, NameAt;
    var b := WithNext(DirBytes(e), next) + rest;
    var n := |Encoded(e.name)|;
    var pad := Zeros(Align8(64 + n) - (64 + n));
    assert DirBytes(e) == Zeros(4) + (e.meta + LE(4, n) + Encoded(e.name) + pad);
    assert b == LE(4, next) + e.meta + (LE(4, n) + Encoded(e.name) + (pad + rest));
    assert b[4..60] == e.meta && b[60..] == LE(4, n) + Encoded(e.name) + (pad + rest);
    NameReads(b, 60, e.name, pad + rest);
  }

  lemma {:induction false} NoticeReadsBack(n: Notice, next: nat, rest: Bytes)
    requires n.Fits() && Plain(n.name)
    ensures ReadNotice(WithNext(NoticeBytes(n), next) + rest) == Some(n)
  {
    hide LE, Encoded, NameAt, U32;
    var b, k := WithNext(NoticeBytes(n), next) + rest, |Encoded(n.name)|;
    assert NoticeBytes(n) == Zeros(4) + (LE(4, n.action) + LE(4, k) + Encoded(n.name));
    assert b == LE(4, next) + LE(4, n.action) + (LE(4, k) + Encoded(n.name) + rest);
    assert b[4..8] == LE(4, n.action) && b[8..] == LE(4, k) + Encoded(n.name) + rest;
    U32Exactly(b, 4, n.action);
    NameReads(b, 8, n.name, rest);
  }

  function DirParts(es: seq<DirEntry>): seq<Bytes> {
    seq(|es|, i requires 0 <= i < |es| => DirBytes(es[i]))
  }

  function NoticeParts(ns: seq<Notice>): seq<Bytes> {
    seq(|ns|, i requires 0 <= i < |ns| => NoticeBytes(ns[i]))
  }

  predicate DirsFit(es: seq<DirEntry>) {
    forall i :: 0 <= i < |es| ==> es[i].Fits() && Plain(es[i].name)
  }

  predicate NoticesFit(ns: seq<Notice>) {
    forall i :: 0 <= i < |ns| ==> ns[i].Fits() && Plain(ns[i].name)
  }

  /** Following the links of a printed listing reads back every entry in order. Every
      entry starts at a multiple of eight bytes, since each takes one. */
  lemma {:induction false} ListingRoundTrip(es: seq<DirEntry>)
    requires es != [] && DirsFit(es)
    ensures Entries(DirParts(es)) && forall i :: 0 <= i < |es| ==> |DirParts(es)[i]| % 8 == 0
    ensures var found := Walk(Linked(DirParts(es)));
      && found.Some? && |found.value| == |es|
      && forall i :: 0 <= i < |es| ==> ReadDir(found.value[i]) == Some(es[i]) && |found.value[i]| == |DirParts(es)[i]|
  {
    hide ReadDir, DirBytes, Linked, Walk, WithNext;
    var parts := DirParts(es);
    WalkFollows(parts);
    forall i | 0 <= i < |es|
      ensures |Pieces(parts)| == |es| && ReadDir(Pieces(parts)[i]) == Some(es[i]) && |Pieces(parts)[i]| == |parts[i]|
    {
      var next := if i < |es| - 1 then Align4(|parts[i]|) else 0;
      AlignedTwice(|parts[i]|);
      DirReadsBack(es[i], next, []);
      assert WithNext(parts[i], next) + [] == WithNext(parts[i], next);
      assert Padded(WithNext(parts[i], next)) == WithNext(parts[i], next);
    }
  }

  lemma {:induction false} AlignedTwice(n: nat)
    requires n % 8 == 0
    ensures Align4(n) == n
  {
  }

  /** The same for notifications: all but the last take a multiple of four bytes. */
  lemma {:induction false} NoticesRoundTrip(ns: seq<Notice>)
    requires ns != [] && NoticesFit(ns)
    ensures Entries(NoticeParts(ns))
    ensures var found := Walk(Linked(NoticeParts(ns)));
      && found.Some? && |found.value| == |ns|
      && (forall i :: 0 <= i < |ns| ==> ReadNotice(found.value[i]) == Some(ns[i]))
      && (forall i :: 0 <= i < |ns| - 1 ==> |found.value[i]| % 4 == 0)
  {
    hide ReadNotice, NoticeBytes, Linked, Walk, WithNext;
    var parts := NoticeParts(ns);
    WalkFollows(parts);
    forall i | 0 <= i < |ns|
      ensures |Pieces(parts)| == |ns| && ReadNotice(Pieces(parts)[i]) == Some(ns[i]) && (i < |ns| - 1 ==> |Pieces(parts)[i]| % 4 == 0)
    {
      var next := if i < |ns| - 1 then Align4(|parts[i]|) else 0;
      var pad := if i < |ns| - 1 then Zeros(Align4(|parts[i]|) - |parts[i]|) else [];
      NoticeReadsBack(ns[i], next, pad);
      assert WithNext(parts[i], next) + [] == WithNext(parts[i], next);
    }
  }

  // ----------------------------------------------------------------- the printers

  method EncodeDir(b: array<byte>, off: nat, e: DirEntry)
    requires e.Fits() && off + |DirBytes(e)| <= b.Length && b[off..off + |DirBytes(e)|] == Zeros(|DirBytes(e)|)
    modifies b
    ensures b[..] == Splice(old(b[..]), off, DirBytes(e))
  {
    hide LE, Encoded;
    ghost var was := b[..];
    CopyInto(b, off + 4, e.meta);
    CopyInto(b, off + 60, LE(4, |Encoded(e.name)|));
    CopyInto(b, off + 64, Encoded(e.name));
    assert forall j :: off <= j < off + |DirBytes(e)| ==> was[j] == was[off..off + |DirBytes(e)|][j - off];
    assert b[..] == Splice(was, off, DirBytes(e));
  }

  /** One entry of a listing, whose bytes are still zero: the entry, then its link. */
  method PutDirEntry(b: array<byte>, off: nat, e: DirEntry, next: nat, ghost done: Bytes)
    requires e.Fits() && off == |done| && off + |DirBytes(e)| <= b.Length && b[..] == done + Zeros(b.Length - off)
    modifies b
    ensures |DirBytes(e)| >= 64
    ensures b[..] == (done + WithNext(DirBytes(e), next)) + Zeros(b.Length - off - |DirBytes(e)|)
  {
    DirSize(e);
    hide DirBytes, WithNext, LE, Splice;
    EntryWritten(done, DirBytes(e), next, b.Length - off);
    EncodeDir(b, off, e);
    CopyInto(b, off, LE(4, next));
  }

  /** The directory response: each entry, then its link in its first bytes. */
  method EncodeListing(b: array<byte>, es: seq<DirEntry>)
    requires DirsFit(es) && Entries(DirParts(es)) && b.Length == |Linked(DirParts(es))| && b[..] == Zeros(b.Length)
    modifies b
    ensures b[..] == Linked(DirParts(es))
  {
    hide Linked, DirBytes, WithNext, Zeros, Printed, Piece;
    var off := 0;
    ghost var parts := DirParts(es);
    PrintedGrows(parts, 0);
    for i := 0 to |es|
      invariant off == |Printed(parts, i)| && off <= b.Length && b[..] == Printed(parts, i) + Zeros(b.Length - off)
    {
      var size := |DirBytes(es[i])|;
      var next := if i != |es| - 1 then size else 0;
      PrintedGrows(parts, i);
      DirSize(es[i]);
      DirPiece(es, i);
      PutDirEntry(b, off, es[i], next, Printed(parts, i));
      off := off + size;
    }
    PrintedGrows(parts, |es|);
    assert Zeros(0) == [] by { NoZeros(); }
  }

  lemma {:induction false} NoZeros()
    ensures Zeros(0) == []
  {
  }

  lemma {:induction false} DirPiece(es: seq<DirEntry>, i: nat)
    requires DirsFit(es) && Entries(DirParts(es)) && i < |es|
    ensures Piece(DirParts(es), i) == WithNext(DirBytes(es[i]), if i != |es| - 1 then |DirBytes(es[i])| else 0)
  {
    hide DirBytes, WithNext;
    DirSize(es[i]);
    AlignedTwice(|DirBytes(es[i])|);
  }

  lemma {:induction false} DirSize(e: DirEntry)
    requires e.Fits()
    ensures |DirBytes(e)| % 8 == 0 && |DirBytes(e)| >= 64
  {
  }

  lemma {:induction false} EntryWritten(done: Bytes, p: Bytes, next: nat, z: nat)
    requires 4 <= |p| <= z
    ensures var b := done + Zeros(z);
      && b[|done|..|done| + |p|] == Zeros(|p|)
      && Splice(Splice(b, |done|, p), |done|, LE(4, next)) == (done + WithNext(p, next)) + Zeros(z - |p|)
  {
    hide LE;
  }

  method EncodeNotice(b: array<byte>, off: nat, n: Notice, next: nat)
    requires n.Fits() && off + |NoticeBytes(n)| <= b.Length
    modifies b
    ensures b[..] == Splice(old(b[..]), off, WithNext(NoticeBytes(n), next))
  {
    hide LE, Encoded;
    ghost var was := b[..];
    CopyInto(b, off, LE(4, next));
    CopyInto(b, off + 4, LE(4, n.action));
    CopyInto(b, off + 8, LE(4, |Encoded(n.name)|));
    CopyInto(b, off + 12, Encoded(n.name));
    assert b[..] == Splice(was, off, WithNext(NoticeBytes(n), next));
  }

  /** The bytes of a notification in a list. */
  function InList(n: Notice, next: nat, padded: nat): (r: Bytes)
    requires |NoticeBytes(n)| <= padded
    ensures |r| == padded
  {
    WithNext(NoticeBytes(n), next) + Zeros(padded - |NoticeBytes(n)|)
  }

  /** Prints one notification, and its padding as zeros. */
  method PutNotice(b: array<byte>, off: nat, n: Notice, next: nat, padded: nat)
    requires n.Fits() && |NoticeBytes(n)| <= padded && off + padded <= b.Length
    modifies b
    ensures b[..off] == old(b[..off]) && b[..off + padded] == old(b[..off]) + InList(n, next, padded)
  {
    hide WithNext, Encoded, Splice, Zeros;
    ghost var was := b[..];
    var size := 12 + |Encoded(n.name)|;
    EncodeNotice(b, off, n, next);
    CopyInto(b, off + size, Zeros(padded - size));
    NoticeWritten(was, off, WithNext(NoticeBytes(n), next), padded, b[..]);
  }

  /** The notification list: links, entries, and the padding written out as zeros. */
  method EncodeNotices(b: array<byte>, ns: seq<Notice>)
    requires NoticesFit(ns) && Entries(NoticeParts(ns)) && b.Length == |Linked(NoticeParts(ns))|
    modifies b
    ensures b[..] == Linked(NoticeParts(ns))
  {
    hide Linked, WithNext, Encoded, NoticeBytes, InList, Printed, Piece;
    var off := 0;
    ghost var parts := NoticeParts(ns);
    PrintedGrows(parts, 0);
    for i := 0 to |ns|
      invariant off == |Printed(parts, i)| && off <= b.Length && b[..off] == Printed(parts, i)
    {
      var size := 12 + |Encoded(ns[i].name)|;
      var padded := if i < |ns| - 1 then Align4(size) else size;
      PrintedGrows(parts, i);
      NoticePiece(ns, i);
      PutNotice(b, off, ns[i], if i < |ns| - 1 then padded else 0, padded);
      off := off + padded;
    }
    PrintedGrows(parts, |ns|);
  }

  lemma {:induction false} NoticePiece(ns: seq<Notice>, i: nat)
    requires NoticesFit(ns) && Entries(NoticeParts(ns)) && i < |ns|
    ensures var size := |NoticeBytes(ns[i])|;
      var padded := if i < |ns| - 1 then Align4(size) else size;
      Piece(NoticeParts(ns), i) == InList(ns[i], if i < |ns| - 1 then padded else 0, padded)
  {
    hide NoticeBytes, WithNext;
    assert Zeros(0) == [] by { NoZeros(); }
  }

  lemma {:induction false} NoticeWritten(was: Bytes, off: nat, p: Bytes, padded: nat, now: Bytes)
    requires |p| <= padded && off + padded <= |was|
    requires now == Splice(Splice(was, off, p), off + |p|, Zeros(padded - |p|))
    ensures |now| == |was| && now[..off] == was[..off] && now[off..off + padded] == p + Zeros(padded - |p|)
    ensures now[..off + padded] == now[..off] + now[off..off + padded]
    ensures padded == |p| ==> p + Zeros(0) == p
  {
  }
}
