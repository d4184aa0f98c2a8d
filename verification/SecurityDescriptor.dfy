/** Self-relative security descriptors (sections 2.4.2 to 2.4.6 of MS-DTYP): the
    encoders, their decoders, and the Unix attributes a set-security request means. */
module SecurityDescriptor {
  import opened Bytes
  import opened Slices
  import opened Wrappers

  // ----------------------------------------------------------------- encodings

  /** A security identifier: a 6-byte authority and 32-bit sub-authorities. */
  datatype Sid = Sid(authority: Bytes, subs: seq<nat>) {
    predicate Fits() {
      |authority| == 6 && |subs| < 256 && forall i :: 0 <= i < |subs| ==> subs[i] < 0x1_0000_0000
    }
  }

  const ALLOWED: byte := 0

  datatype Ace = Ace(kind: byte, mask: nat, sid: Sid) {
    predicate Fits() {
      mask < 0x1_0000_0000 && sid.Fits()
    }
  }

  function SubBytes(subs: seq<nat>): (r: Bytes)
    ensures |r| == 4 * |subs|
  {
    if subs == [] then [] else LE(4, subs[0]) + SubBytes(subs[1..])
  }

  function SidBytes(s: Sid): (r: Bytes)
    ensures |r| == 2 + |s.authority| + 4 * |s.subs|
  {
    [1, |s.subs| % 256] + s.authority + SubBytes(s.subs)
  }

  function AceSize(a: Ace): nat {
    8 + 8 + 4 * |a.sid.subs|
  }

  function AceBytes(a: Ace): (r: Bytes)
    ensures |r| == 8 + |SidBytes(a.sid)|
  {
    [a.kind, 0] + LE(2, AceSize(a)) + LE(4, a.mask) + SidBytes(a.sid)
  }

  function AcesBytes(acl: seq<Ace>): Bytes {
    if acl == [] then [] else AceBytes(acl[0]) + AcesBytes(acl[1..])
  }

  function AclBytes(acl: seq<Ace>): Bytes {
    [2, 0] + LE(2, 8 + |AcesBytes(acl)|) + LE(2, |acl|) + Zeros(2) + AcesBytes(acl)
  }

  datatype Descriptor = Descriptor(owner: Option<Sid>, group: Option<Sid>, sacl: Option<seq<Ace>>, dacl: Option<seq<Ace>>) {
    predicate Fits() {
      && (owner.Some? ==> owner.value.Fits()) && (group.Some? ==> group.value.Fits())
      && (sacl.Some? ==> AclFits(sacl.value)) && (dacl.Some? ==> AclFits(dacl.value))
      && |Parts()| + 20 < 0x1_0000_0000
    }

    function OwnerPart(): Bytes { if owner.Some? then SidBytes(owner.value) else [] }

    function GroupPart(): Bytes { if group.Some? then SidBytes(group.value) else [] }

    function SaclPart(): Bytes { if sacl.Some? then AclBytes(sacl.value) else [] }

    function DaclPart(): Bytes { if dacl.Some? then AclBytes(dacl.value) else [] }

    function Parts(): Bytes {
      OwnerPart() + GroupPart() + SaclPart() + DaclPart()
    }

    function Control(): nat {
      0x8000 + (if sacl.Some? then 0x10 else 0) + (if dacl.Some? then 4 else 0)
    }
  }

  predicate AclFits(acl: seq<Ace>) {
    |acl| < 0x1_0000 && forall a :: a in acl ==> a.Fits()
  }

  function OffsetOf(present: bool, off: nat): (r: Bytes)
    ensures |r| == 4
  {
    if present then LE(4, off) else Zeros(4)
  }

  function Head(d: Descriptor): (r: Bytes)
    ensures |r| == 20
  {
    var g := 20 + |d.OwnerPart()|;
    var s := g + |d.GroupPart()|;
    var a := s + |d.SaclPart()|;
    [1, 0] + LE(2, d.Control()) + OffsetOf(d.owner.Some?, 20) + OffsetOf(d.group.Some?, g)
    + OffsetOf(d.sacl.Some?, s) + OffsetOf(d.dacl.Some?, a)
  }

  /** The encoded descriptor, filled up to a multiple of eight bytes. */
  function Encoded(d: Descriptor): Bytes {
    var b := Head(d) + d.Parts();
    b + Zeros(Align8(|b|) - |b|)
  }

  // ------------------------------------------------------------------ decoding

  function Subs(b: Bytes, n: nat): seq<nat>
    requires 4 * n <= |b|
  {
    if n == 0 then [] else [U32(b, 0)] + Subs(b[4..], n - 1)
  }

  /** The identifier at the start of b, when all of it is there. */
  function DecodeSid(b: Bytes): Option<Sid> {
    if |b| < 8 || |b| < 8 + 4 * b[1] as int then None
    else Some(Sid(b[2..8], Subs(b[8..], b[1])))
  }

  /** The first n entries of a list of entries, each of which must be complete. */
  function DecodeAces(b: Bytes, n: nat): Option<seq<Ace>> {
    if n == 0 then Some([])
    else if |b| < 8 || DecodeSid(b[8..]).None? || |b| < U16(b, 2) then None
    else
      match DecodeAces(b[U16(b, 2)..], n - 1)
      case None => None
      case Some(rest) => Some([Ace(b[0], U32(b, 4), DecodeSid(b[8..]).value)] + rest)
  }

  function DecodeAcl(b: Bytes): Option<seq<Ace>> {
    if |b| < 8 then None else DecodeAces(b[8..], U16(b, 4))
  }

  /** The part an offset field points to. */
  function Part(b: Bytes, slot: nat): Option<Bytes>
    requires slot + 4 <= |b|
  {
    var off := U32(b, slot);
    if off == 0 || off > |b| then None else Some(b[off..])
  }

  function DecodePart<T>(p: Option<Bytes>, decode: Bytes -> Option<T>): Option<T> {
    if p.None? then None else decode(p.value)
  }

  function Decoded(b: Bytes): Descriptor
    requires |b| >= 20
  {
    Descriptor(DecodePart(Part(b, 4), DecodeSid), DecodePart(Part(b, 8), DecodeSid),
      DecodePart(Part(b, 12), DecodeAcl), DecodePart(Part(b, 16), DecodeAcl))
  }

  // ---------------------------------------------------------------- round trips

  lemma {:induction false} SubsRoundTrip(subs: seq<nat>, rest: Bytes)
    requires forall i :: 0 <= i < |subs| ==> subs[i] < 0x1_0000_0000
    ensures Subs(SubBytes(subs) + rest, |subs|) == subs
  {
    hide LE, U32;
    if subs != [] {
      var b := SubBytes(subs) + rest;
      assert b[0..4] == LE(4, subs[0]) && b[4..] == SubBytes(subs[1..]) + rest;
      U32Exactly(b, 0, subs[0]);
      SubsRoundTrip(subs[1..], rest);
    }
  }

  lemma {:induction false} SidRoundTrip(s: Sid, rest: Bytes)
    requires s.Fits()
    ensures DecodeSid(SidBytes(s) + rest) == Some(s)
  {
    hide SubBytes, Subs;
    var b := SidBytes(s) + rest;
    assert b[2..8] == s.authority && b[8..] == SubBytes(s.subs) + rest;
    SubsRoundTrip(s.subs, rest);
  }

  lemma {:induction false} AceReads(a: Ace, rest: Bytes)
    requires a.Fits()
    ensures var b := AceBytes(a) + rest;
      && |b| >= 8 && b[0] == a.kind && U16(b, 2) == |AceBytes(a)| && U32(b, 4) == a.mask
      && b[8..] == SidBytes(a.sid) + rest && b[|AceBytes(a)|..] == rest
  {
    hide LE, U16, U32, SidBytes;
    var b := AceBytes(a) + rest;
    assert b[2..4] == LE(2, AceSize(a)) && b[4..8] == LE(4, a.mask);
    U16At(b, 2, AceSize(a)); U32Exactly(b, 4, a.mask);
  }

  lemma {:induction false} AcesRoundTrip(acl: seq<Ace>, rest: Bytes)
    requires forall a :: a in acl ==> a.Fits()
    ensures DecodeAces(AcesBytes(acl) + rest, |acl|) == Some(acl)
  {
    hide U16, U32, AceBytes, DecodeSid, SidBytes;
    if acl != [] {
      var tail := AcesBytes(acl[1..]) + rest;
      assert AcesBytes(acl) + rest == AceBytes(acl[0]) + tail;
      AceReads(acl[0], tail);
      SidRoundTrip(acl[0].sid, tail);
      AcesRoundTrip(acl[1..], rest);
      assert acl[0] in acl && acl == [acl[0]] + acl[1..];
    }
  }

  lemma {:induction false} AclRoundTrip(acl: seq<Ace>, rest: Bytes)
    requires AclFits(acl)
    ensures DecodeAcl(AclBytes(acl) + rest) == Some(acl)
  {
    hide LE, U16, AcesBytes, DecodeAces;
    var b := AclBytes(acl) + rest;
    assert b[4..6] == LE(2, |acl|) && b[8..] == AcesBytes(acl) + rest;
    U16At(b, 4, |acl|);
    AcesRoundTrip(acl, rest);
  }

  lemma {:induction false} PartReads(b: Bytes, slot: nat, present: bool, off: nat, part: Bytes, rest: Bytes)
    requires slot + 4 <= |b| && 20 <= off < 0x1_0000_0000
    requires b[slot..slot + 4] == OffsetOf(present, off)
    requires off <= |b| && b[off..] == part + rest
    ensures Part(b, slot) == if present then Some(part + rest) else None
  {
    hide LE, U32;
    if present {
      U32Exactly(b, slot, off);
    } else {
      assert LE(4, 0) == Zeros(4) by { ZeroWord(); }
      U32Exactly(b, slot, 0);
    }
  }

  lemma {:induction false} ZeroWord()
    ensures LE(4, 0) == Zeros(4)
  {
    assert LE(1, 0) == [0] && LE(2, 0) == [0] + LE(1, 0) && LE(3, 0) == [0] + LE(2, 0);
  }

  lemma {:induction false} HeadReads(d: Descriptor)
    ensures var g := 20 + |d.OwnerPart()|;
      var s := g + |d.GroupPart()|;
      && Head(d)[4..8] == OffsetOf(d.owner.Some?, 20) && Head(d)[8..12] == OffsetOf(d.group.Some?, g)
      && Head(d)[12..16] == OffsetOf(d.sacl.Some?, s) && Head(d)[16..20] == OffsetOf(d.dacl.Some?, s + |d.SaclPart()|)
  {
    hide LE, OffsetOf, SidBytes, AclBytes;
    var g := 20 + |d.OwnerPart()|;
    var s := g + |d.GroupPart()|;
    FourFields([1, 0] + LE(2, d.Control()), OffsetOf(d.owner.Some?, 20), OffsetOf(d.group.Some?, g),
      OffsetOf(d.sacl.Some?, s), OffsetOf(d.dacl.Some?, s + |d.SaclPart()|));
  }

  lemma {:induction false} FourFields(h: Bytes, a: Bytes, b: Bytes, c: Bytes, d: Bytes)
    requires |h| == |a| == |b| == |c| == |d| == 4
    ensures var s := h + a + b + c + d; s[4..8] == a && s[8..12] == b && s[12..16] == c && s[16..20] == d
  {
  }

  /** Where the parts of an encoded descriptor lie. */
  lemma {:induction false} PartsLie(h: Bytes, o: Bytes, g: Bytes, s: Bytes, a: Bytes, pad: Bytes)
    requires |h| == 20
    ensures var b := h + (o + g + s + a) + pad; var i := 20 + |o|; var j := i + |g|; var k := j + |s|;
      && |b| == k + |a| + |pad| && b[..20] == h
      && b[20..] == o + (g + s + a + pad) && b[i..] == g + (s + a + pad) && b[j..] == s + (a + pad) && b[k..] == a + pad
  {
  }

  /** Decoding an encoded descriptor gives back its owner, group and lists. */
  lemma {:induction false} DescriptorRoundTrip(d: Descriptor)
    requires d.Fits()
    ensures |Encoded(d)| >= 20 && |Encoded(d)| % 8 == 0 && Decoded(Encoded(d)) == d
  {
    hide Head, SidBytes, AclBytes, DecodeSid, DecodeAcl, Part, AclFits, OffsetOf;
    var o, g, s, a := d.OwnerPart(), d.GroupPart(), d.SaclPart(), d.DaclPart();
    var n := |Head(d) + d.Parts()|;
    var pad := Zeros(Align8(n) - n);
    var b := Encoded(d);
    HeadReads(d);
    OffsetsRead(Head(d), o, g, s, a, pad, d);
    if d.owner.Some? { SidRoundTrip(d.owner.value, g + s + a + pad); }
    if d.group.Some? { SidRoundTrip(d.group.value, s + a + pad); }
    if d.sacl.Some? { AclRoundTrip(d.sacl.value, a + pad); }
    if d.dacl.Some? { AclRoundTrip(d.dacl.value, pad); }
  }

  lemma {:induction false} OffsetsRead(h: Bytes, o: Bytes, g: Bytes, s: Bytes, a: Bytes, pad: Bytes, d: Descriptor)
    requires |h| == 20 && |o| + |g| + |s| + |a| + 20 < 0x1_0000_0000
    requires h[4..8] == OffsetOf(d.owner.Some?, 20) && h[8..12] == OffsetOf(d.group.Some?, 20 + |o|)
    requires h[12..16] == OffsetOf(d.sacl.Some?, 20 + |o| + |g|)
    requires h[16..20] == OffsetOf(d.dacl.Some?, 20 + |o| + |g| + |s|)
    ensures var b := h + (o + g + s + a) + pad;
      && Part(b, 4) == (if d.owner.Some? then Some(o + (g + s + a + pad)) else None)
      && Part(b, 8) == (if d.group.Some? then Some(g + (s + a + pad)) else None)
      && Part(b, 12) == (if d.sacl.Some? then Some(s + (a + pad)) else None)
      && Part(b, 16) == (if d.dacl.Some? then Some(a + pad) else None)
  {
    hide OffsetOf, Part;
    var b := h + (o + g + s + a) + pad;
    PartsLie(h, o, g, s, a, pad);
    HeadSlots(b, h);
    PartReads(b, 4, d.owner.Some?, 20, o, g + s + a + pad);
    PartReads(b, 8, d.group.Some?, 20 + |o|, g, s + a + pad);
    PartReads(b, 12, d.sacl.Some?, 20 + |o| + |g|, s, a + pad);
    PartReads(b, 16, d.dacl.Some?, 20 + |o| + |g| + |s|, a, pad);
  }

  lemma {:induction false} HeadSlots(b: Bytes, h: Bytes)
    requires |h| == 20 <= |b| && b[..20] == h
    ensures b[4..8] == h[4..8] && b[8..12] == h[8..12] && b[12..16] == h[12..16] && b[16..20] == h[16..20]
  {
    assert forall i :: 0 <= i < 20 ==> b[i] == b[..20][i] == h[i];
  }

  // -------------------------------------------------- what a descriptor sets

  const NT_AUTHORITY: Bytes := [0, 0, 0, 0, 0, 5]
  const POSIX_AUTHORITY: Bytes := [0, 0, 0, 0, 0, 22]
  const WORLD_AUTHORITY: Bytes := [0, 0, 0, 0, 0, 1]

  function NfsSid(kind: nat, id: nat): Sid { Sid(NT_AUTHORITY, [88, kind, id]) }

  function PosixSid(kind: nat, id: nat): Sid { Sid(POSIX_AUTHORITY, [kind, id]) }

  const Everyone := Sid(WORLD_AUTHORITY, [0])

  /** The id in an NFS or POSIX identifier of a kind: 1 for users, 2 for groups. */
  function IdOf(kind: nat, s: Sid): Option<nat> {
    if BEVal(s.authority) == 22 && |s.subs| == 2 && s.subs[0] == kind then Some(s.subs[1])
    else if BEVal(s.authority) == 5 && |s.subs| == 3 && s.subs[0] == 88 && s.subs[1] == kind then Some(s.subs[2])
    else None
  }

  /** The mode in an NFS mode identifier, of any authority. */
  function ModeIn(s: Sid): Option<nat> {
    if |s.subs| == 3 && s.subs[0] == 88 && s.subs[1] == 3 then Some(s.subs[2]) else None
  }

  datatype Role = Owner | Group | Other | Nobody

  function RoleOf(s: Sid): Role {
    if IdOf(1, s).Some? then Owner
    else if IdOf(2, s).Some? then Group
    else if BEVal(s.authority) == 1 && |s.subs| == 1 && s.subs[0] == 0 then Other
    else Nobody
  }

  /** Read, write and execute of an access mask. */
  function BitsOf(mask: nat): (r: nat)
    ensures r < 8
  {
    (if Bit(mask, 0) then 4 else 0) + (if Bit(mask, 1) then 2 else 0) + (if Bit(mask, 5) then 1 else 0)
  }

  /** The mode of the first entry with an NFS mode identifier. */
  function FirstMode(acl: seq<Ace>): Option<nat> {
    if acl == [] then None
    else if ModeIn(acl[0].sid).Some? then ModeIn(acl[0].sid)
    else FirstMode(acl[1..])
  }

  /** The bits the last allow entry grants a role. */
  function LastBits(acl: seq<Ace>, role: Role): Option<nat> {
    if acl == [] then None
    else
      var a := acl[|acl| - 1];
      if a.kind == ALLOWED && RoleOf(a.sid) == role then Some(BitsOf(a.mask)) else LastBits(acl[..|acl| - 1], role)
  }

  function OrZero(o: Option<nat>): nat { if o.Some? then o.value else 0 }

  function ModeOf(acl: seq<Ace>): Option<nat> {
    var o, g, e := LastBits(acl, Owner), LastBits(acl, Group), LastBits(acl, Other);
    if FirstMode(acl).Some? then FirstMode(acl)
    else if o.None? && g.None? && e.None? then None
    else Some(64 * OrZero(o) + 8 * OrZero(g) + OrZero(e))
  }

  /** The access mask of three Unix permission bits. */
  function UnixModeToAceMask(mode: nat): nat {
    var x := if Bit(mode, 0) then 0x12_00A0 else 0;
    var w := if Bit(mode, 1) then 0x07_0112 else 0;
    var r := if Bit(mode, 2) then 0x02_0089 else 0;
    OrNat(OrNat(x, w), r)
  }

  lemma {:induction false} GrantBits()
    ensures !Bit(0x12_00A0, 0) && !Bit(0x12_00A0, 1) && Bit(0x12_00A0, 5)
    ensures !Bit(0x07_0112, 0) && Bit(0x07_0112, 1) && !Bit(0x07_0112, 5)
    ensures Bit(0x02_0089, 0) && !Bit(0x02_0089, 1) && !Bit(0x02_0089, 5)
    ensures !Bit(0, 0) && !Bit(0, 1) && !Bit(0, 5)
  {
    assert Pow2(0) == 1 && Pow2(1) == 2;
    assert Pow2(3) == 8;
    assert Pow2(5) == 32;
  }

  /** A mask made from permission bits gives back exactly those bits. */
  lemma {:induction false} MaskRoundTrip(mode: nat)
    requires mode < 8
    ensures BitsOf(UnixModeToAceMask(mode)) == mode
  {
    GrantBits();
    ModeBits(mode);
    hide Bit, OrNat;
    var x := if Bit(mode, 0) then 0x12_00A0 else 0;
    var w := if Bit(mode, 1) then 0x07_0112 else 0;
    var r := if Bit(mode, 2) then 0x02_0089 else 0;
    OrBit(x, w, 0); OrBit(x, w, 1); OrBit(x, w, 5);
    OrBit(OrNat(x, w), r, 0); OrBit(OrNat(x, w), r, 1); OrBit(OrNat(x, w), r, 5);
  }

  lemma {:induction false} ModeBits(mode: nat)
    requires mode < 8
    ensures mode == (if Bit(mode, 2) then 4 else 0) + (if Bit(mode, 1) then 2 else 0) + (if Bit(mode, 0) then 1 else 0)
  {
    assert Pow2(0) == 1 && Pow2(1) == 2 && Pow2(2) == 4;
  }

  lemma {:induction false} LastBitsOf(acl: seq<Ace>, role: Role, bits: nat)
    requires forall a :: a in acl && a.kind == ALLOWED && RoleOf(a.sid) == role ==> BitsOf(a.mask) == bits
    ensures LastBits(acl, role) == (if exists a :: a in acl && a.kind == ALLOWED && RoleOf(a.sid) == role then Some(bits) else None)
  {
    hide RoleOf, BitsOf;
    if acl != [] {
      var a, prev := acl[|acl| - 1], acl[..|acl| - 1];
      assert acl == prev + [a];
      assert a in acl && forall b :: b in prev ==> b in acl;
      LastBitsOf(prev, role, bits);
    }
  }

  /** Changing the mode through a list of entries: when every allow entry for the
      owner, the group and everyone carries the mask of its three permission bits, in
      whatever order and among whatever other entries, exactly that mode is set. */
  lemma {:induction false} ChmodMeaning(acl: seq<Ace>, o: nat, g: nat, e: nat)
    requires o < 8 && g < 8 && e < 8 && FirstMode(acl).None?
    requires forall a :: a in acl && a.kind == ALLOWED ==>
      match RoleOf(a.sid)
      case Owner => a.mask == UnixModeToAceMask(o)
      case Group => a.mask == UnixModeToAceMask(g)
      case Other => a.mask == UnixModeToAceMask(e)
      case Nobody => true
    requires exists a :: a in acl && a.kind == ALLOWED && RoleOf(a.sid) == Owner
    requires exists a :: a in acl && a.kind == ALLOWED && RoleOf(a.sid) == Group
    requires exists a :: a in acl && a.kind == ALLOWED && RoleOf(a.sid) == Other
    ensures ModeOf(acl) == Some(64 * o + 8 * g + e)
  {
    hide BitsOf, UnixModeToAceMask, RoleOf;
    MaskRoundTrip(o); MaskRoundTrip(g); MaskRoundTrip(e);
    LastBitsOf(acl, Owner, o); LastBitsOf(acl, Group, g); LastBitsOf(acl, Other, e);
  }

  /** The mode of the first NFS mode identifier wins wherever it sits. */
  lemma {:induction false} FirstModeWins(pre: seq<Ace>, a: Ace, post: seq<Ace>, mode: nat)
    requires FirstMode(pre).None? && ModeIn(a.sid) == Some(mode)
    ensures ModeOf(pre + [a] + post) == Some(mode)
  {
    FirstModeSkips(pre, [a] + post);
    assert pre + [a] + post == pre + ([a] + post);
  }

  lemma {:induction false} FirstModeSkips(pre: seq<Ace>, rest: seq<Ace>)
    requires FirstMode(pre).None?
    ensures FirstMode(pre + rest) == FirstMode(rest)
  {
    if pre == [] {
      assert pre + rest == rest;
    } else {
      assert (pre + rest)[1..] == pre[1..] + rest;
      FirstModeSkips(pre[1..], rest);
    }
  }

  lemma {:induction false} AuthorityValues()
    ensures BEVal(NT_AUTHORITY) == 5 && BEVal(POSIX_AUTHORITY) == 22 && BEVal(WORLD_AUTHORITY) == 1
  {
    BEValLow(5); BEValLow(22); BEValLow(1);
  }

  lemma {:induction false} BEValLow(b: byte)
    ensures BEVal([0, 0, 0, 0, 0, b]) == b
  {
    assert [0, 0, 0, 0, 0, b] == [0, 0, 0, 0, 0] + [b];
    BEValConcat([0, 0, 0, 0, 0], [b]);
    assert BEVal([0, 0, 0, 0, 0]) == 0 by {
      assert [0, 0, 0, 0, 0][..4] == [0, 0, 0, 0] && [0, 0, 0, 0][..3] == [0, 0, 0] && [0, 0, 0][..2] == [0, 0];
      assert [0, 0][..1] == [0] && [0][..0] == [];
      assert BEVal([0]) == 0; assert BEVal([0, 0]) == 0; assert BEVal([0, 0, 0]) == 0; assert BEVal([0, 0, 0, 0]) == 0;
    }
    assert [b][..0] == [];
  }

  /** The identifiers the server makes for users, groups, modes and everyone are the
      ones it recognises. */
  lemma {:induction false} MadeSidsRecognised(kind: nat, id: nat)
    requires kind == 1 || kind == 2
    ensures IdOf(kind, NfsSid(kind, id)) == Some(id) == IdOf(kind, PosixSid(kind, id))
    ensures RoleOf(NfsSid(1, id)) == Owner == RoleOf(PosixSid(1, id))
    ensures RoleOf(NfsSid(2, id)) == Group == RoleOf(PosixSid(2, id))
    ensures RoleOf(Everyone) == Other
    ensures ModeIn(NfsSid(3, id)) == Some(id)
    ensures ModeIn(NfsSid(kind, id)) == None == ModeIn(PosixSid(kind, id)) == ModeIn(Everyone)
  {
    AuthorityValues();
    hide BEVal;
  }

  /** What a set-security request changes. */
  datatype Attributes = Attributes(uid: Option<nat>, gid: Option<nat>, mode: Option<nat>)

  function Meaning(d: Descriptor): Attributes {
    Attributes(if d.owner.Some? then IdOf(1, d.owner.value) else None,
      if d.group.Some? then IdOf(2, d.group.value) else None,
      if d.dacl.Some? then ModeOf(d.dacl.value) else None)
  }

  // -------------------------------------------------------- encoders, in place

  method EncodeSid(b: array<byte>, off: nat, s: Sid)
    requires |s.authority| == 6 && off + |SidBytes(s)| <= b.Length
    modifies b
    ensures b[..] == Splice(old(b[..]), off, SidBytes(s))
  {
    hide LE, Splice;
    ghost var was := b[..];
    ghost var head: Bytes := [1, |s.subs| % 256] + s.authority;
    CopyInto(b, off, [1, |s.subs| % 256]);
    CopyInto(b, off + 2, s.authority);
    SpliceAppend(was, off, [1, |s.subs| % 256], s.authority);
    assert SubBytes(s.subs[..0]) == [] && head + [] == head;
    for i := 0 to |s.subs|
      invariant b[..] == Splice(was, off, head + SubBytes(s.subs[..i]))
    {
      SubsSnoc(s.subs, i);
      SpliceAppend(was, off, head + SubBytes(s.subs[..i]), LE(4, s.subs[i]));
      CopyInto(b, off + 8 + i * 4, LE(4, s.subs[i]));
      assert head + SubBytes(s.subs[..i]) + LE(4, s.subs[i]) == head + SubBytes(s.subs[..i + 1]);
    }
    assert s.subs[..|s.subs|] == s.subs;
  }

  lemma {:induction false} SubsSnoc(subs: seq<nat>, i: nat)
    requires i < |subs|
    ensures SubBytes(subs[..i + 1]) == SubBytes(subs[..i]) + LE(4, subs[i])
  {
    hide LE;
    if i > 0 {
      SubsSnoc(subs[1..], i - 1);
      assert subs[..i + 1][1..] == subs[1..][..i] && subs[..i][1..] == subs[1..][..i - 1];
    } else {
      assert subs[..1][1..] == [];
    }
  }

  method EncodeAce(b: array<byte>, off: nat, a: Ace)
    requires |a.sid.authority| == 6 && off + |AceBytes(a)| <= b.Length
    modifies b
    ensures b[..] == Splice(old(b[..]), off, AceBytes(a))
  {
    hide LE, Splice, SidBytes;
    ghost var was := b[..];
    CopyInto(b, off, [a.kind, 0]);
    SpliceAppend(was, off, [a.kind, 0], LE(2, AceSize(a)));
    CopyInto(b, off + 2, LE(2, AceSize(a)));
    SpliceAppend(was, off, [a.kind, 0] + LE(2, AceSize(a)), LE(4, a.mask));
    CopyInto(b, off + 4, LE(4, a.mask));
    SpliceAppend(was, off, [a.kind, 0] + LE(2, AceSize(a)) + LE(4, a.mask), SidBytes(a.sid));
    EncodeSid(b, off + 8, a.sid);
  }

  lemma {:induction false} AcesSnoc(acl: seq<Ace>, i: nat)
    requires i < |acl|
    ensures AcesBytes(acl[..i + 1]) == AcesBytes(acl[..i]) + AceBytes(acl[i])
    ensures |AcesBytes(acl[..i + 1])| <= |AcesBytes(acl)|
  {
    hide AceBytes;
    if i > 0 {
      AcesSnoc(acl[1..], i - 1);
      assert acl[..i + 1][1..] == acl[1..][..i] && acl[..i][1..] == acl[1..][..i - 1];
    } else {
      assert acl[..1][1..] == [];
    }
  }

  /** Encodes a list into bytes that are still zero. */
  method EncodeAcl(b: array<byte>, start: nat, acl: seq<Ace>)
    requires AclFits(acl) && start + |AclBytes(acl)| <= b.Length
    requires b[start..start + |AclBytes(acl)|] == Zeros(|AclBytes(acl)|)
    modifies b
    ensures b[..] == Splice(old(b[..]), start, AclBytes(acl))
  {
    hide LE, AceBytes, AcesBytes;
    ghost var was := b[..];
    ghost var head := [2, 0] + LE(2, 8 + |AcesBytes(acl)|) + LE(2, |acl|) + Zeros(2);
    CopyInto(b, start, [2]);
    CopyInto(b, start + 2, LE(2, 8 + |AcesBytes(acl)|));
    CopyInto(b, start + 4, LE(2, |acl|));
    ZeroBytes(was, start, |AclBytes(acl)|);
    assert b[..] == Splice(was, start, head);
    var off := start + 8;
    assert AcesBytes(acl[..0]) == [] by { NoAces(acl); }
    assert head + [] == head;
    for i := 0 to |acl|
      invariant off == start + |head + AcesBytes(acl[..i])| && |AcesBytes(acl[..i])| <= |AcesBytes(acl)|
      invariant b[..] == Splice(was, start, head + AcesBytes(acl[..i]))
    {
      AcesSnoc(acl, i);
      assert acl[i] in acl;
      EncodeAce(b, off, acl[i]);
      SpliceAppend(was, start, head + AcesBytes(acl[..i]), AceBytes(acl[i]));
      assert head + AcesBytes(acl[..i]) + AceBytes(acl[i]) == head + AcesBytes(acl[..i + 1]);
      off := off + |AceBytes(acl[i])|;
    }
    assert acl[..|acl|] == acl;
  }

  lemma {:induction false} NoAces(acl: seq<Ace>)
    ensures AcesBytes(acl[..0]) == []
  {
  }

  lemma {:induction false} ZeroBytes(s: Bytes, off: nat, n: nat)
    requires off + n <= |s| && s[off..off + n] == Zeros(n)
    ensures forall i :: off <= i < off + n ==> s[i] == 0
  {
    assert forall i :: off <= i < off + n ==> s[i] == s[off..off + n][i - off];
  }

  /** One part of a descriptor under construction: its offset, then its bytes. */
  lemma {:induction false} PartWritten(h: Bytes, p: Bytes, z: nat, slot: nat, off: Bytes, part: Bytes)
    requires |h| == 20 && slot + |off| <= 20 && |part| <= z
    ensures var b := h + p + Zeros(z);
      Splice(Splice(b, slot, off), 20 + |p|, part) == Splice(h, slot, off) + (p + part) + Zeros(z - |part|)
    ensures Splice(h + p + Zeros(z), slot, off)[20 + |p|..20 + |p| + |part|] == Zeros(|part|)
  {
  }

  /** A head with one more offset filled in, when the part is present. */
  function SetSlot(h: Bytes, slot: nat, present: bool, off: nat): (r: Bytes)
    requires slot + 4 <= |h|
    ensures |r| == |h|
  {
    if present then Splice(h, slot, LE(4, off)) else h
  }

  function EmptyHead(control: nat): (r: Bytes)
    ensures |r| == 20
  {
    [1, 0] + LE(2, control) + Zeros(4) + Zeros(4) + Zeros(4) + Zeros(4)
  }

  method PutSid(b: array<byte>, slot: nat, off: nat, s: Option<Sid>, ghost h: Bytes, ghost p: Bytes) returns (next: nat)
    requires slot + 4 <= 20 == |h| && off == 20 + |p|
    requires var part := if s.Some? then SidBytes(s.value) else [];
      (s.Some? ==> |s.value.authority| == 6) && |h + p + part| <= b.Length && b[..] == h + p + Zeros(b.Length - |h + p|)
    modifies b
    ensures var part := if s.Some? then SidBytes(s.value) else [];
      && next == off + |part|
      && b[..] == SetSlot(h, slot, s.Some?, off) + (p + part) + Zeros(b.Length - |h + p + part|)
  {
    hide LE, SidBytes, Splice, Zeros;
    next := off;
    if s.Some? {
      PartWritten(h, p, b.Length - |h + p|, slot, LE(4, off), SidBytes(s.value));
      CopyInto(b, slot, LE(4, off));
      EncodeSid(b, off, s.value);
      next := off + 8 + 4 * |s.value.subs|;
    } else {
      assert p + [] == p;
    }
  }

  method PutAcl(b: array<byte>, slot: nat, off: nat, s: Option<seq<Ace>>, ghost h: Bytes, ghost p: Bytes) returns (next: nat)
    requires slot + 4 <= 20 == |h| && off == 20 + |p|
    requires var part := if s.Some? then AclBytes(s.value) else [];
      (s.Some? ==> AclFits(s.value)) && |h + p + part| <= b.Length && b[..] == h + p + Zeros(b.Length - |h + p|)
    modifies b
    ensures var part := if s.Some? then AclBytes(s.value) else [];
      && next == off + |part|
      && b[..] == SetSlot(h, slot, s.Some?, off) + (p + part) + Zeros(b.Length - |h + p + part|)
  {
    hide LE, AclBytes, Splice, Zeros, AclFits;
    next := off;
    if s.Some? {
      PartWritten(h, p, b.Length - |h + p|, slot, LE(4, off), AclBytes(s.value));
      CopyInto(b, slot, LE(4, off));
      EncodeAcl(b, off, s.value);
      next := off + |AclBytes(s.value)|;
    } else {
      assert p + [] == p;
    }
  }

  function SidsHead(d: Descriptor): (r: Bytes)
    ensures |r| == 20
  {
    SetSlot(SetSlot(EmptyHead(d.Control()), 4, d.owner.Some?, 20), 8, d.group.Some?, 20 + |d.OwnerPart()|)
  }

  /** The fixed fields and the two identifiers. */
  method EncodeSids(b: array<byte>, d: Descriptor) returns (off: nat)
    requires d.Fits() && 20 + |d.OwnerPart() + d.GroupPart()| <= b.Length && b[..] == Zeros(b.Length)
    modifies b
    ensures off == 20 + |d.OwnerPart() + d.GroupPart()|
    ensures b[..] == SidsHead(d) + (d.OwnerPart() + d.GroupPart()) + Zeros(b.Length - off)
  {
    hide LE, SidBytes, AclBytes, Splice, AclFits, SetSlot, EmptyHead, Zeros;
    var control := 0x8000;
    if d.sacl.Some? {
      control := control + 0x10;
    }
    if d.dacl.Some? {
      control := control + 4;
    }
    ghost var o := d.OwnerPart();
    StartWritten(b[..], control);
    CopyInto(b, 0, [1]);
    CopyInto(b, 2, LE(2, control));
    off := PutSid(b, 4, 20, d.owner, EmptyHead(control), []);
    assert [] + o == o;
    off := PutSid(b, 8, off, d.group, SetSlot(EmptyHead(control), 4, d.owner.Some?, 20), o);
  }

  /** Encodes a descriptor into a zeroed buffer of its size. */
  method EncodeDescriptor(b: array<byte>, d: Descriptor)
    requires d.Fits() && b.Length == |Encoded(d)| && b[..] == Zeros(b.Length)
    modifies b
    ensures b[..] == Encoded(d)
  {
    hide LE, SidBytes, AclBytes, Splice, AclFits, SetSlot, SidsHead, Zeros, Encoded, Head;
    ghost var o, g, s, a := d.OwnerPart(), d.GroupPart(), d.SaclPart(), d.DaclPart();
    EncodedIs(d);
    var off := EncodeSids(b, d);
    assert off == 20 + |o| + |g|;
    off := PutAcl(b, 12, off, d.sacl, SidsHead(d), o + g);
    off := PutAcl(b, 16, off, d.dacl, SetSlot(SidsHead(d), 12, d.sacl.Some?, 20 + |o| + |g|), o + g + s);
  }

  lemma {:induction false} EncodedIs(d: Descriptor)
    ensures var o, g, s, a := d.OwnerPart(), d.GroupPart(), d.SaclPart(), d.DaclPart();
      var h := SetSlot(SetSlot(SidsHead(d), 12, d.sacl.Some?, 20 + |o| + |g|), 16, d.dacl.Some?, 20 + |o| + |g| + |s|);
      var n := |h + (o + g + s + a)|;
      n <= |Encoded(d)| && Encoded(d) == h + (o + g + s + a) + Zeros(|Encoded(d)| - n)
  {
    hide Head, SidBytes, AclBytes, SetSlot, EmptyHead;
    HeadWritten(d);
  }

  lemma {:induction false} StartWritten(b: Bytes, control: nat)
    requires |b| >= 20 && b == Zeros(|b|)
    ensures Splice(Splice(b, 0, [1]), 2, LE(2, control)) == EmptyHead(control) + [] + Zeros(|b| - 20)
  {
    hide LE;
  }

  lemma {:induction false} HeadWritten(d: Descriptor)
    ensures var h := EmptyHead(d.Control());
      var i := 20 + |d.OwnerPart()|;
      var j := i + |d.GroupPart()|;
      var k := j + |d.SaclPart()|;
      Head(d) == SetSlot(SetSlot(SetSlot(SetSlot(h, 4, d.owner.Some?, 20), 8, d.group.Some?, i), 12, d.sacl.Some?, j),
                         16, d.dacl.Some?, k)
  {
    hide LE, SidBytes, AclBytes, Zeros, SetSlot, OffsetOf;
    var st, z := [1, 0] + LE(2, d.Control()), Zeros(4);
    var i := 20 + |d.OwnerPart()|;
    var j := i + |d.GroupPart()|;
    var k := j + |d.SaclPart()|;
    var a, b, c := OffsetOf(d.owner.Some?, 20), OffsetOf(d.group.Some?, i), OffsetOf(d.sacl.Some?, j);
    SlotSet(st, z, z, z, z, d.owner.Some?, 20, 4);
    SlotSet(st, a, z, z, z, d.group.Some?, i, 8);
    SlotSet(st, a, b, z, z, d.sacl.Some?, j, 12);
    SlotSet(st, a, b, c, z, d.dacl.Some?, k, 16);
  }

  lemma {:induction false} SlotSet(s: Bytes, a: Bytes, b: Bytes, c: Bytes, d: Bytes, present: bool, off: nat, slot: nat)
    requires |s| == |a| == |b| == |c| == |d| == 4
    ensures slot == 4 && a == Zeros(4) ==> SetSlot(s + a + b + c + d, slot, present, off) == s + OffsetOf(present, off) + b + c + d
    ensures slot == 8 && b == Zeros(4) ==> SetSlot(s + a + b + c + d, slot, present, off) == s + a + OffsetOf(present, off) + c + d
    ensures slot == 12 && c == Zeros(4) ==> SetSlot(s + a + b + c + d, slot, present, off) == s + a + b + OffsetOf(present, off) + d
    ensures slot == 16 && d == Zeros(4) ==> SetSlot(s + a + b + c + d, slot, present, off) == s + a + b + c + OffsetOf(present, off)
  {
    hide LE;
    FourSlots(s, a, b, c, d, LE(4, off), slot);
    hide Splice;
  }

  lemma {:induction false} FourSlots(s: Bytes, a: Bytes, b: Bytes, c: Bytes, d: Bytes, x: Bytes, slot: nat)
    requires |s| == |a| == |b| == |c| == |d| == |x| == 4
    ensures slot == 4 ==> Splice(s + a + b + c + d, slot, x) == s + x + b + c + d
    ensures slot == 8 ==> Splice(s + a + b + c + d, slot, x) == s + a + x + c + d
    ensures slot == 12 ==> Splice(s + a + b + c + d, slot, x) == s + a + b + x + d
    ensures slot == 16 ==> Splice(s + a + b + c + d, slot, x) == s + a + b + c + x
  {
  }

  // ------------------------------------------------------ set-security, on bytes

  /** One entry of a complete list. */
  lemma {:induction false} NextAce(b: Bytes, n: nat)
    requires n > 0 && DecodeAces(b, n).Some?
    ensures |b| >= 8 && U16(b, 2) <= |b| && DecodeSid(b[8..]).Some? && DecodeAces(b[U16(b, 2)..], n - 1).Some?
    ensures DecodeAces(b, n).value
         == [Ace(b[0], U32(b, 4), DecodeSid(b[8..]).value)] + DecodeAces(b[U16(b, 2)..], n - 1).value
    ensures |DecodeAces(b, n).value| > 0
  {
    hide U16, U32, DecodeSid;
  }

  lemma {:induction false} AceCount(b: Bytes, n: nat)
    requires DecodeAces(b, n).Some?
    ensures |DecodeAces(b, n).value| == n
  {
    hide U16, U32, DecodeSid;
    if n > 0 { AceCount(b[U16(b, 2)..], n - 1); }
  }

  datatype Scan = Found(mode: nat) | Absent | OutOfRange

  /** Looks through n entries for an NFS mode identifier, as far as that takes. */
  function ScanMode(b: Bytes, n: nat): Scan {
    if n == 0 then Absent
    else if |b| < 8 || DecodeSid(b[8..]).None? then OutOfRange
    else if ModeIn(DecodeSid(b[8..]).value).Some? then Found(ModeIn(DecodeSid(b[8..]).value).value)
    else if |b| < U16(b, 2) then OutOfRange
    else ScanMode(b[U16(b, 2)..], n - 1)
  }

  /** In a complete list the scan finds the first mode; the list need only be complete
      up to that entry, and the scan leaves its range only in an incomplete list. */
  lemma {:induction false} ScanFindsFirst(b: Bytes, n: nat, k: nat)
    requires k <= n && DecodeAces(b, k).Some?
    ensures FirstMode(DecodeAces(b, k).value).Some? ==> ScanMode(b, n) == Found(FirstMode(DecodeAces(b, k).value).value)
    ensures k == n && FirstMode(DecodeAces(b, n).value).None? ==> ScanMode(b, n) == Absent
  {
    hide DecodeSid, U16, U32, ModeIn;
    if k > 0 {
      NextAce(b, k);
      ScanFindsFirst(b[U16(b, 2)..], n - 1, k - 1);
      var first, rest := Ace(b[0], U32(b, 4), DecodeSid(b[8..]).value), DecodeAces(b[U16(b, 2)..], k - 1).value;
      assert ([first] + rest)[1..] == rest;
    }
  }

  lemma {:induction false} ScanLeavesRange(b: Bytes, n: nat)
    ensures ScanMode(b, n).OutOfRange? ==> DecodeAces(b, n).None?
    ensures ScanMode(b, n).Absent? ==> DecodeAces(b, n).Some?
  {
    hide DecodeSid, U16, U32, ModeIn;
    if n > 0 && |b| >= 8 && U16(b, 2) <= |b| {
      ScanLeavesRange(b[U16(b, 2)..], n - 1);
    }
  }

  /** The loop that looks for an NFS mode identifier, and stops at the first one. */
  method FindMode(aces: Bytes, n: nat) returns (r: Scan)
    ensures r == ScanMode(aces, n)
    ensures DecodeAces(aces, n).Some? ==>
      var first := FirstMode(DecodeAces(aces, n).value);
      r == if first.Some? then Found(first.value) else Absent
    ensures r.Absent? ==> DecodeAces(aces, n).Some?
  {
    hide DecodeAces, DecodeSid, U16, U32, ModeIn, FirstMode;
    if DecodeAces(aces, n).Some? {
      ScanFindsFirst(aces, n, n);
    }
    ScanLeavesRange(aces, n);
    var aceBuf := aces;
    for i := 0 to n
      invariant ScanMode(aceBuf, n - i) == ScanMode(aces, n)
    {
      if |aceBuf| < 8 || DecodeSid(aceBuf[8..]).None? {
        return OutOfRange;
      }
      var sid := DecodeSid(aceBuf[8..]).value;
      if ModeIn(sid).Some? {
        return Found(ModeIn(sid).value);
      }
      if |aceBuf| < U16(aceBuf, 2) {
        return OutOfRange;
      }
      aceBuf := aceBuf[U16(aceBuf, 2)..];
    }
    r := Absent;
  }

  /** Reads the bits granted to owner, group and everyone; later entries override. */
  method DeriveMode(aces: Bytes, n: nat) returns (owner: Option<nat>, group: Option<nat>, other: Option<nat>)
    requires DecodeAces(aces, n).Some?
    ensures var acl := DecodeAces(aces, n).value;
      owner == LastBits(acl, Owner) && group == LastBits(acl, Group) && other == LastBits(acl, Other)
  {
    hide DecodeAces, DecodeSid, U16, U32, RoleOf, BitsOf, LastBits;
    ghost var acl := DecodeAces(aces, n).value;
    AceCount(aces, n);
    var aceBuf := aces;
    owner, group, other := None, None, None;
    NoBits(Owner); NoBits(Group); NoBits(Other);
    assert acl[..0] == [] && acl[0..] == acl;
    for i := 0 to n
      invariant DecodeAces(aceBuf, n - i).Some? && DecodeAces(aceBuf, n - i).value == acl[i..]
      invariant owner == LastBits(acl[..i], Owner) && group == LastBits(acl[..i], Group) && other == LastBits(acl[..i], Other)
    {
      NextAce(aceBuf, n - i);
      var a := Ace(aceBuf[0], U32(aceBuf, 4), DecodeSid(aceBuf[8..]).value);
      assert a == acl[i] && acl[i..][1..] == acl[i + 1..];
      BitsSnoc(acl, i, Owner); BitsSnoc(acl, i, Group); BitsSnoc(acl, i, Other);
      if a.kind == ALLOWED {
        var bits := BitsOf(a.mask);
        match RoleOf(a.sid) {
          case Owner => owner := Some(bits);
          case Group => group := Some(bits);
          case Other => other := Some(bits);
          case Nobody =>
        }
      }
      aceBuf := aceBuf[U16(aceBuf, 2)..];
    }
    assert acl[..n] == acl;
  }

  lemma {:induction false} NoBits(r: Role)
    ensures LastBits([], r) == None
  {
  }

  lemma {:induction false} BitsSnoc(acl: seq<Ace>, i: nat, r: Role)
    requires i < |acl|
    ensures LastBits(acl[..i + 1], r)
         == (if acl[i].kind == ALLOWED && RoleOf(acl[i].sid) == r then Some(BitsOf(acl[i].mask)) else LastBits(acl[..i], r))
  {
    hide RoleOf, BitsOf;
    assert acl[..i + 1][..i] == acl[..i];
  }

  /** Everything the handler reads lies inside the buffer: the three parts, and the
      access list as far as it is looked through. */
  predicate InRange(sd: Bytes) {
    && |sd| >= 20 && U32(sd, 4) <= |sd| && U32(sd, 8) <= |sd| && U32(sd, 16) <= |sd|
    && (Part(sd, 16).Some? ==>
          var dacl := Part(sd, 16).value; |dacl| >= 8 && !ScanMode(dacl[8..], U16(dacl, 4)).OutOfRange?)
  }

  /** What a set-security request does with the descriptor it carries: nothing when it
      would read out of range. An access list that holds fewer entries than it
      announces still sets a mode, if an NFS mode identifier comes first. */
  method SetSecInfo(sd: Bytes) returns (r: Option<Attributes>)
    ensures r.Some? <==> InRange(sd)
    ensures r.Some? && (Part(sd, 16).Some? ==> DecodeAcl(Part(sd, 16).value).Some?) ==> r.value == Meaning(Decoded(sd))
    ensures r.Some? && Part(sd, 16).Some? && DecodeAcl(Part(sd, 16).value).None? ==>
      var dacl := Part(sd, 16).value; var scan := ScanMode(dacl[8..], U16(dacl, 4));
      scan.Found? && r.value == Meaning(Decoded(sd)).(mode := Some(scan.mode))
  {
    hide DecodeSid, DecodeAces, FirstMode, LastBits, IdOf, ScanMode;
    if |sd| < 20 || U32(sd, 4) > |sd| || U32(sd, 8) > |sd| || U32(sd, 16) > |sd| {
      return None;
    }
    var a := Attributes(None, None, None);
    var owner, group, dacl := Part(sd, 4), Part(sd, 8), Part(sd, 16);
    hide Part;
    if owner.Some? && DecodeSid(owner.value).Some? {
      a := a.(uid := IdOf(1, DecodeSid(owner.value).value));
    }
    if group.Some? && DecodeSid(group.value).Some? {
      a := a.(gid := IdOf(2, DecodeSid(group.value).value));
    }
    if dacl.Some? {
      if |dacl.value| < 8 {
        return None;
      }
      var aces, n := dacl.value[8..], U16(dacl.value, 4);
      var scan := FindMode(aces, n);
      match scan {
        case OutOfRange => return None;
        case Found(mode) => a := a.(mode := Some(mode));
        case Absent =>
          var o, g, e := DeriveMode(aces, n);
          if o.Some? || g.Some? || e.Some? {
            a := a.(mode := Some(64 * OrZero(o) + 8 * OrZero(g) + OrZero(e)));
          }
      }
    }
    r := Some(a);
  }
}
