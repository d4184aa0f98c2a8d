/** Byte slices: a window of an array with spare capacity behind it, so that
    appending may write in place. */
module Slices {
  import opened Bytes

  datatype Slice = Slice(arr: array<byte>, off: nat, len: nat, cap: nat)
  {
    predicate Valid() {
      len <= cap && off + cap <= arr.Length
    }

    function Get(): (r: Bytes)
      requires Valid()
      reads arr
      ensures |r| == len
    {
      arr[off..off + len]
    }

    /** Storage that begins exactly at a place of an array. */
    predicate SitsAt(a: array<byte>, at: nat) {
      arr == a && off == at
    }

    /** Storage that does not overlap bytes lo to hi of an array. */
    predicate Apart(a: array<byte>, lo: nat, hi: nat) {
      arr != a || off + len <= lo || hi <= off
    }

    /** Two slices that start at the same byte of the same array. */
    predicate SameStart(other: Slice) {
      arr == other.arr && off == other.off
    }
  }

  /** Extends a slice by n bytes: in place when the capacity allows it, otherwise
      by copying into a new array. Existing bytes are never changed. */
  method SliceForAppend(s: Slice, n: nat) returns (head: Slice, tail: Slice)
    requires s.Valid()
    ensures head.Valid() && tail.Valid()
    ensures head.len == s.len + n && tail.len == n
    ensures tail.arr == head.arr && tail.off == head.off + s.len
    ensures s.cap >= s.len + n ==> head.SameStart(s)
    ensures s.cap < s.len + n ==> fresh(head.arr)
    ensures head.arr[..][head.off..tail.off] == s.Get()
  {
    if s.cap >= s.len + n {
      head := Slice(s.arr, s.off, s.len + n, s.cap);
    } else {
      var a := new byte[s.len + n];
      CopyInto(a, 0, s.Get());
      head := Slice(a, 0, s.len + n, s.len + n);
    }
    tail := Slice(head.arr, head.off + s.len, n, head.cap - s.len);
  }

  method CopyInto(a: array<byte>, off: nat, b: Bytes)
    requires off + |b| <= a.Length
    modifies a
    ensures a[..] == Splice(old(a[..]), off, b)
  {
    forall i | 0 <= i < |b| {
      a[off + i] := b[i];
    }
  }

  /** Writes the field at off of a buffer whose bytes before off are final. */
  method Put(a: array<byte>, off: nat, b: Bytes, ghost done: Bytes, ghost was: Bytes)
    requires off == |done| && off + |b| <= |was| && a[..] == done + was[off..]
    modifies a
    ensures a[..] == (done + b) + was[off + |b|..]
  {
    CopyInto(a, off, b);
  }

  /** A field left as it was. */
  lemma {:induction false} Skip(done: Bytes, was: Bytes, n: nat)
    requires |done| + n <= |was|
    ensures done + was[|done|..] == (done + was[|done|..|done| + n]) + was[|done| + n..]
  {
  }

  /** Overwrites the front of dst with a xor b, over the shorter of the two. The first
      operand may be dst itself: each byte is read before it is overwritten. */
  method XorBytes(dst: Slice, a: Slice, b: Bytes) returns (n: nat)
    requires dst.Valid() && a.Valid() && (a.len <= dst.len || |b| <= dst.len)
    requires a.arr == dst.arr ==> a.off == dst.off
    modifies dst.arr
    ensures n == |XorSeq(old(a.Get()), b)|
    ensures dst.arr[..] == Splice(old(dst.arr[..]), dst.off, XorSeq(old(a.Get()), b))
  {
    hide Xor, XorSeq, Splice;
    n := a.len;
    if |b| < n {
      n := |b|;
    }
    ghost var was, x := dst.arr[..], a.Get();
    for i := 0 to n
      invariant forall k :: 0 <= k < i ==> dst.arr[dst.off + k] == Xor(x[k], b[k])
      invariant forall k :: 0 <= k < dst.arr.Length && !(dst.off <= k < dst.off + i) ==> dst.arr[k] == was[k]
      invariant forall k :: i <= k < n ==> a.arr[a.off + k] == x[k]
    {
      dst.arr[dst.off + i] := Xor(a.arr[a.off + i], b[i]);
    }
    Overwritten(was, dst.off, XorSeq(x, b), dst.arr[..]);
  }

  lemma {:induction false} Overwritten(was: Bytes, off: nat, w: Bytes, now: Bytes)
    requires off + |w| <= |was| == |now|
    requires forall k :: 0 <= k < |w| ==> now[off + k] == w[k]
    requires forall k :: 0 <= k < |was| && !(off <= k < off + |w|) ==> now[k] == was[k]
    ensures now == Splice(was, off, w)
  {
    forall k | off <= k < off + |w| ensures now[k] == w[k - off] {
      assert now[off + (k - off)] == w[k - off];
    }
  }
}
