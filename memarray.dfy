/** Strided arrays over heap buffers (src/lib.rs).

    A `HeapMem` owns one buffer of `len` elements. A `MemArray` owns a
    `HeapMem` and carries a size, an offset and a stride of the same rank;
    `MemArrayView` and `MemArrayViewMut` carry their own metadata and borrow
    the owner's `HeapMem`, so a view shares the buffer object and never
    copies it. The element type is generic; `elemSize` stands for
    `size_of::<T>()` and `zero` for the all-zero bit pattern that the
    `ZeroBits` marker promises is a valid `T`. */
module MemArrays {
  import opened ArrayIdx
  import opened Outcomes

  /** A raw element pointer: the allocation (null once freed) and an element
      offset into it. */
  datatype Ptr<T> = Ptr(base: array?<T>, off: nat)

  /** Owner of one heap allocation of `len` elements. */
  class HeapMem<T(0)> {
    /** The allocation; null once the buffer has been dropped. */
    var buf: array?<T>
    const len: nat
    /** Physical size in bytes, cached at allocation. */
    const phsz: nat

    ghost predicate Valid()
      reads this
    {
      buf != null ==> buf.Length == len
    }

    /** The buffer has not been freed yet. */
    predicate Live()
      reads this
    {
      buf != null
    }

    /** `HeapMem::alloc`: room for `len` elements, contents unspecified. */
    constructor Alloc(len: nat, elemSize: nat)
      ensures Valid() && Live() && fresh(buf)
      ensures this.len == len && phsz == len * elemSize
    {
      this.len := len;
      phsz := len * elemSize;
      buf := new T[len];
    }

    /** `as_ptr`: the start of the allocation. */
    method AsPtr() returns (p: Ptr<T>)
      ensures p.base == buf && p.off == 0
    {
      p := Ptr(buf, 0);
    }

    /** `as_mut_ptr`: the start of the allocation, for writing. */
    method AsMutPtr() returns (p: Ptr<T>)
      ensures p.base == buf && p.off == 0
    {
      p := Ptr(buf, 0);
    }

    /** `as_slice`: exactly the `len` elements of the buffer. */
    method AsSlice() returns (s: seq<T>)
      requires Valid() && Live()
      ensures |s| == len
      ensures forall i :: 0 <= i < len ==> s[i] == buf[i]
    {
      s := buf[..];
    }

    /** `as_mut_slice`: the buffer itself, `len` elements long. */
    method AsMutSlice() returns (a: array<T>)
      requires Valid() && Live()
      ensures a == buf && a.Length == len
    {
      a := buf;
    }

    /** `drop`: asserts the buffer is still there, then nulls it. A second
        drop therefore fails the assertion (`aborted`) instead of freeing
        the allocation twice. */
    method Drop() returns (aborted: bool)
      requires Valid()
      modifies this
      ensures Valid()
      ensures aborted <==> old(buf) == null
      ensures buf == null
    {
      if buf == null {
        aborted := true;
        return;
      }
      aborted := false;
      buf := null;
    }
  }

  /** `write_bytes(p, 0, count)`: zeroes the first `count` elements of `p`
      and leaves the rest alone. */
  method WriteBytesZero<T>(p: array<T>, zero: T, count: nat)
    requires count <= p.Length
    modifies p
    ensures forall i :: 0 <= i < count ==> p[i] == zero
    ensures forall i :: count <= i < p.Length ==> p[i] == old(p[i])
  {
    var i := 0;
    while i < count
      invariant 0 <= i <= count
      invariant forall j :: 0 <= j < i ==> p[j] == zero
      invariant forall j :: count <= j < p.Length ==> p[j] == old(p[j])
    {
      p[i] := zero;
      i := i + 1;
    }
  }

  /** `DenseArray::flat_offset`: the flat position of the offset coordinate. */
  function FlatOffset(offset: Index, stride: Index): (n: nat)
    requires |offset| == |stride|
    ensures offset == Zero(|offset|) ==> n == 0
  {
    FlatIndexZero(stride);
    FlatIndex(offset, stride)
  }

  /** Metadata of one rank: the size, offset and stride agree in rank. */
  predicate Ranked(size: Index, offset: Index, stride: Index)
  {
    |offset| == |size| && |stride| == |size|
  }

  /** Every coordinate of the array lands inside a buffer of `len` elements. */
  ghost predicate InBounds(size: Index, offset: Index, stride: Index, len: nat)
  {
    Ranked(size, offset, stride) &&
    forall idx :: Below(idx, size) ==> FlatIndex(IndexAdd(offset, idx), stride) < len
  }

  /** A packed layout that stays inside the buffer holds its whole window
      `[flat_offset, flat_offset + flat_len)` inside the buffer. */
  lemma WindowFits(size: Index, offset: Index, stride: Index, len: nat)
    requires InBounds(size, offset, stride, len) && ArrayIdx.IsPacked(size, stride)
    requires FlatLen(size) > 0
    ensures FlatOffset(offset, stride) + FlatLen(size) <= len
  {
    FlatLenPositive(size);
    var last := seq(|size|, k requires 0 <= k < |size| => size[k] - 1);
    assert Below(last, size);
    PackedLastIndex(size);
    FlatIndexAdd(offset, last, stride);
  }

  /** Under a packed stride the coordinate `idx` sits `FlatIndex(idx, stride)`
      places into the window. */
  lemma WindowAt(size: Index, offset: Index, stride: Index, idx: Index)
    requires Ranked(size, offset, stride) && ArrayIdx.IsPacked(size, stride)
    requires Below(idx, size)
    ensures FlatIndex(idx, stride) < FlatLen(size)
    ensures FlatIndex(IndexAdd(offset, idx), stride) == FlatOffset(offset, stride) + FlatIndex(idx, stride)
  {
    PackedInBounds(idx, size);
    FlatIndexAdd(offset, idx, stride);
  }

  /** An owning array. */
  datatype MemArray<T(0)> = MemArray(size: Index, offset: Index, stride: Index, mem: HeapMem<T>)
  {
    /** `DenseArray::is_packed`: the stride is the packed one, so the
        coordinates address the `flat_len` positions from `flat_offset` on. */
    predicate IsPacked(): (b: bool)
      ensures b ==> |stride| == |size|
      ensures b ==> forall idx :: Below(idx, size) ==> FlatIndex(idx, stride) < FlatLen(size)
    {
      if ArrayIdx.IsPacked(size, stride) then PackedAddresses(size, stride); true else false
    }

    /** `as_view`: a read-only view with the same metadata over the same buffer. */
    function AsView(): (v: MemArrayView<T>)
      ensures v.size == size && v.offset == offset && v.stride == stride
      ensures v.mem == mem
    {
      MemArrayView(size, offset, stride, mem)
    }

    /** `as_view_mut`: a writable view with the same metadata over the same buffer. */
    function AsViewMut(): (v: MemArrayViewMut<T>)
      ensures v.size == size && v.offset == offset && v.stride == stride
      ensures v.mem == mem
    {
      MemArrayViewMut(size, offset, stride, mem)
    }
  }

  /** `MemArray::zeros`: a fresh packed array of the given size, offset zero,
      whose buffer holds `FlatLen(size)` zeroed elements. */
  method Zeros<T(0)>(size: Index, elemSize: nat, zero: T) returns (a: MemArray<T>)
    ensures a.size == size && a.offset == Zero(|size|) && a.stride == PackedStride(size)
    ensures fresh(a.mem) && a.mem.Valid() && a.mem.Live() && fresh(a.mem.buf)
    ensures a.mem.len == FlatLen(size) && a.mem.phsz == FlatLen(size) * elemSize
    ensures forall i :: 0 <= i < a.mem.len ==> a.mem.buf[i] == zero
    ensures a.IsPacked()
    ensures InBounds(a.size, a.offset, a.stride, a.mem.len)
  {
    var stride := PackedStride(size);
    var mem := new HeapMem<T>.Alloc(FlatLen(size), elemSize);
    WriteBytesZero(mem.buf, zero, mem.len);
    a := MemArray(size, Zero(|size|), stride, mem);
    ZerosInBounds(size);
  }

  /** The layout `zeros` builds addresses only elements of its buffer. */
  lemma ZerosInBounds(size: Index)
    ensures InBounds(size, Zero(|size|), PackedStride(size), FlatLen(size))
  {
    forall idx | Below(idx, size)
      ensures FlatIndex(IndexAdd(Zero(|size|), idx), PackedStride(size)) < FlatLen(size)
    {
      ZeroAt(size, idx);
    }
  }

  lemma ZeroAt(size: Index, idx: Index)
    requires Below(idx, size)
    ensures FlatIndex(IndexAdd(Zero(|size|), idx), PackedStride(size)) < FlatLen(size)
  {
    IndexAddZero(idx);
    PackedInBounds(idx, size);
  }

  lemma IndexAddZero(idx: Index)
    ensures IndexAdd(Zero(|idx|), idx) == idx
  {
  }

  /** A read-only view. */
  datatype MemArrayView<T(0)> = MemArrayView(size: Index, offset: Index, stride: Index, mem: HeapMem<T>)
  {
    /** `DenseArray::is_packed`: the stride is the packed one, so the
        coordinates address the `flat_len` positions from `flat_offset` on. */
    predicate IsPacked(): (b: bool)
      ensures b ==> |stride| == |size|
      ensures b ==> forall idx :: Below(idx, size) ==> FlatIndex(idx, stride) < FlatLen(size)
    {
      if ArrayIdx.IsPacked(size, stride) then PackedAddresses(size, stride); true else false
    }

    /** The range `view` of ranks 1 to 4: the view over `start .. end` on
        every axis. Its size is `end - start`, its offset moves by `start`,
        its stride and buffer are this view's. */
    function View(start: Index, end: Index): (v: MemArrayView<T>)
      requires 1 <= |size| <= 4 && Ranked(size, offset, stride)
      requires Within(start, end, size)
      ensures Ranked(v.size, v.offset, v.stride) && |v.size| == |size|
      ensures forall k :: 0 <= k < |size| ==> v.size[k] == end[k] - start[k]
      ensures forall k :: 0 <= k < |size| ==> v.offset[k] == offset[k] + start[k]
      ensures v.stride == stride && v.mem == mem
    {
      MemArrayView(IndexSub(end, start), IndexAdd(offset, start), stride, mem)
    }

    /** `as_ptr`: the pointer handed to numeric kernels, at the view's flat offset. */
    method AsPtr() returns (p: Ptr<T>)
      requires Ranked(size, offset, stride)
      ensures p.base == mem.buf && p.off == FlatOffset(offset, stride)
    {
      var base := mem.AsPtr();
      p := Ptr(base.base, base.off + FlatOffset(offset, stride));
    }

    /** `flat_slice`: nothing when the view is not packed, and otherwise the
        whole underlying buffer (not the view's window of it). */
    method FlatSlice() returns (r: Option<seq<T>>)
      requires mem.Valid() && mem.Live()
      ensures r.None? <==> !IsPacked()
      ensures r.Some? ==> |r.value| == mem.len && forall i :: 0 <= i < mem.len ==> r.value[i] == mem.buf[i]
    {
      if !IsPacked() {
        return None;
      }
      var s := mem.AsSlice();
      r := Some(s);
    }

    /** `flat_slice` as evidently intended: nothing when the view is not
        packed, and otherwise exactly the view's window
        `[flat_offset, flat_offset + flat_len)` of the buffer, in which the
        element at packed position `FlatIndex(idx, stride)` is the view's
        element at coordinate `idx`. */
    method FlatWindow() returns (r: Option<seq<T>>)
      requires mem.Valid() && mem.Live()
      requires InBounds(size, offset, stride, mem.len)
      ensures r.None? <==> !IsPacked()
      ensures r.Some? ==> |r.value| == FlatLen(size)
      ensures r.Some? && FlatLen(size) > 0 ==>
        FlatOffset(offset, stride) + FlatLen(size) <= mem.len &&
        r.value == mem.buf[FlatOffset(offset, stride) .. FlatOffset(offset, stride) + FlatLen(size)]
      ensures r.Some? ==> forall idx :: Below(idx, size) ==>
        FlatIndex(idx, stride) < |r.value| &&
        r.value[FlatIndex(idx, stride)] == mem.buf[FlatIndex(IndexAdd(offset, idx), stride)]
    {
      if !IsPacked() {
        return None;
      }
      var n := FlatLen(size);
      if n == 0 {
        forall idx | Below(idx, size) ensures false {
          PackedInBounds(idx, size);
        }
        return Some([]);
      }
      var off := FlatOffset(offset, stride);
      WindowFits(size, offset, stride, mem.len);
      var s := mem.AsSlice();
      assert s == mem.buf[..];
      var w := s[off .. off + n];
      forall idx | Below(idx, size)
        ensures FlatIndex(idx, stride) < |w|
        ensures w[FlatIndex(idx, stride)] == mem.buf[FlatIndex(IndexAdd(offset, idx), stride)]
      {
        WindowAt(size, offset, stride, idx);
      }
      r := Some(w);
    }
  }

  /** A writable view. */
  datatype MemArrayViewMut<T(0)> = MemArrayViewMut(size: Index, offset: Index, stride: Index, mem: HeapMem<T>)
  {
    /** `DenseArray::is_packed`: the stride is the packed one, so the
        coordinates address the `flat_len` positions from `flat_offset` on. */
    predicate IsPacked(): (b: bool)
      ensures b ==> |stride| == |size|
      ensures b ==> forall idx :: Below(idx, size) ==> FlatIndex(idx, stride) < FlatLen(size)
    {
      if ArrayIdx.IsPacked(size, stride) then PackedAddresses(size, stride); true else false
    }

    /** `as_ptr`: the view's first element. */
    method AsPtr() returns (p: Ptr<T>)
      requires Ranked(size, offset, stride)
      ensures p.base == mem.buf && p.off == FlatOffset(offset, stride)
    {
      var base := mem.AsPtr();
      p := Ptr(base.base, base.off + FlatOffset(offset, stride));
    }

    /** `as_mut_ptr`: the view's first element, for writing. */
    method AsMutPtr() returns (p: Ptr<T>)
      requires Ranked(size, offset, stride)
      ensures p.base == mem.buf && p.off == FlatOffset(offset, stride)
    {
      var base := mem.AsMutPtr();
      p := Ptr(base.base, base.off + FlatOffset(offset, stride));
    }

    /** `flat_slice_mut`: nothing when the view is not packed, and otherwise
        the whole underlying buffer. */
    method FlatSliceMut() returns (r: Option<array<T>>)
      requires mem.Valid() && mem.Live()
      ensures r.None? <==> !IsPacked()
      ensures r.Some? ==> r.value == mem.buf && r.value.Length == mem.len
    {
      if !IsPacked() {
        return None;
      }
      var a := mem.AsMutSlice();
      r := Some(a);
    }

    /** `flat_slice_mut` as evidently intended: nothing when the view is not
        packed, and otherwise the writable window of the buffer that starts
        at the view's flat offset and is `flat_len` elements long, in which
        packed position `FlatIndex(idx, stride)` is the buffer slot of the
        view's coordinate `idx`. */
    method FlatWindowMut() returns (r: Option<MutSlice<T>>)
      requires mem.Valid() && mem.Live()
      requires InBounds(size, offset, stride, mem.len)
      ensures r.None? <==> !IsPacked()
      ensures r.Some? ==> r.value.arr == mem.buf && r.value.len == FlatLen(size)
      ensures r.Some? ==> r.value.lo + r.value.len <= mem.len
      ensures r.Some? && FlatLen(size) > 0 ==> r.value.lo == FlatOffset(offset, stride)
      ensures r.Some? ==> forall idx :: Below(idx, size) ==>
        FlatIndex(idx, stride) < r.value.len &&
        r.value.lo + FlatIndex(idx, stride) == FlatIndex(IndexAdd(offset, idx), stride)
    {
      if !IsPacked() {
        return None;
      }
      var a := mem.AsMutSlice();
      var n := FlatLen(size);
      if n == 0 {
        forall idx | Below(idx, size) ensures false {
          PackedInBounds(idx, size);
        }
        return Some(MutSlice(a, 0, 0));
      }
      var off := FlatOffset(offset, stride);
      WindowFits(size, offset, stride, mem.len);
      forall idx | Below(idx, size)
        ensures FlatIndex(idx, stride) < n
        ensures off + FlatIndex(idx, stride) == FlatIndex(IndexAdd(offset, idx), stride)
      {
        WindowAt(size, offset, stride, idx);
      }
      r := Some(MutSlice(a, off, n));
    }
  }

  /** A writable sub-slice `arr[lo .. lo + len]` of a buffer. */
  datatype MutSlice<T> = MutSlice(arr: array<T>, lo: nat, len: nat)

  /** The only mutable views the crate builds come from `as_view_mut` on an
      array made by `zeros`. Their window starts at 0 and covers the whole
      buffer, so on them `flat_slice_mut` and its corrected form agree. */
  lemma ZerosWindowIsBuffer<T(0)>(a: MemArray<T>)
    requires a.offset == Zero(|a.size|) && a.stride == PackedStride(a.size)
    requires a.mem.len == FlatLen(a.size)
    ensures FlatOffset(a.AsViewMut().offset, a.AsViewMut().stride) == 0
    ensures FlatOffset(a.AsViewMut().offset, a.AsViewMut().stride) + FlatLen(a.AsViewMut().size) == a.mem.len
  {
  }

  /** Views compose: a view of a view is the view over the composed range. */
  lemma ViewOfView<T(0)>(v: MemArrayView<T>, s1: Index, e1: Index, s2: Index, e2: Index)
    requires 1 <= |v.size| <= 4 && Ranked(v.size, v.offset, v.stride)
    requires Within(s1, e1, v.size)
    requires Within(s2, e2, IndexSub(e1, s1))
    ensures Within(IndexAdd(s1, s2), IndexAdd(s1, e2), v.size)
    ensures v.View(s1, e1).View(s2, e2) == v.View(IndexAdd(s1, s2), IndexAdd(s1, e2))
  {
    var w := v.View(s1, e1).View(s2, e2);
    var u := v.View(IndexAdd(s1, s2), IndexAdd(s1, e2));
    assert w.size == u.size;
    assert w.offset == u.offset;
  }

  /** The view over the full range is the view itself. */
  lemma ViewFull<T(0)>(v: MemArrayView<T>)
    requires 1 <= |v.size| <= 4 && Ranked(v.size, v.offset, v.stride)
    ensures Within(Zero(|v.size|), v.size, v.size)
    ensures v.View(Zero(|v.size|), v.size) == v
  {
    var w := v.View(Zero(|v.size|), v.size);
    assert w.size == v.size;
    assert w.offset == v.offset;
  }

  /** A sub-view's first element is `start` steps into its parent. */
  lemma ViewFlatOffset<T(0)>(v: MemArrayView<T>, start: Index, end: Index)
    requires 1 <= |v.size| <= 4 && Ranked(v.size, v.offset, v.stride)
    requires Within(start, end, v.size)
    ensures FlatOffset(v.View(start, end).offset, v.stride) ==
            FlatOffset(v.offset, v.stride) + FlatIndex(start, v.stride)
  {
    FlatIndexAdd(v.offset, start, v.stride);
  }

  /** Slicing keeps every coordinate inside the buffer. */
  lemma ViewInBounds<T(0)>(v: MemArrayView<T>, start: Index, end: Index, len: nat)
    requires 1 <= |v.size| <= 4
    requires InBounds(v.size, v.offset, v.stride, len)
    requires Within(start, end, v.size)
    ensures InBounds(v.View(start, end).size, v.View(start, end).offset, v.stride, len)
  {
    var w := v.View(start, end);
    forall idx | Below(idx, w.size)
      ensures FlatIndex(IndexAdd(w.offset, idx), v.stride) < len
    {
      var inner := IndexAdd(start, idx);
      assert Below(inner, v.size);
      assert IndexAdd(w.offset, idx) == IndexAdd(v.offset, inner);
    }
  }

  /** Every coordinate of every sub-view of a freshly zeroed array reads zero. */
  lemma ZerosViewReadsZero<T(0)>(a: MemArray<T>, zero: T, start: Index, end: Index, idx: Index)
    requires 1 <= |a.size| <= 4
    requires a.offset == Zero(|a.size|) && a.stride == PackedStride(a.size)
    requires a.mem.Valid() && a.mem.Live() && a.mem.len == FlatLen(a.size)
    requires forall i :: 0 <= i < a.mem.len ==> a.mem.buf[i] == zero
    requires Within(start, end, a.size)
    requires Below(idx, a.AsView().View(start, end).size)
    ensures FlatIndex(IndexAdd(a.AsView().View(start, end).offset, idx), a.stride) < a.mem.len
    ensures a.mem.buf[FlatIndex(IndexAdd(a.AsView().View(start, end).offset, idx), a.stride)] == zero
  {
    ZerosInBounds(a.size);
    ViewInBounds(a.AsView(), start, end, a.mem.len);
  }

  /** A sub-view of a packed array whose sizes are all positive stays packed
      exactly when it keeps the full extent of every axis but the last. */
  lemma ViewPackedIff<T(0)>(v: MemArrayView<T>, start: Index, end: Index)
    requires 1 <= |v.size| <= 4 && Ranked(v.size, v.offset, v.stride)
    requires v.IsPacked()
    requires forall k :: 0 <= k < |v.size| ==> v.size[k] > 0
    requires Within(start, end, v.size)
    ensures v.View(start, end).IsPacked() <==>
            forall k :: 0 <= k < |v.size| - 1 ==> end[k] - start[k] == v.size[k]
  {
    var w := v.View(start, end);
    var n := |v.size|;
    if forall k :: 0 <= k < n - 1 ==> end[k] - start[k] == v.size[k] {
      assert w.size[..n - 1] == v.size[..n - 1];
      SamePrefixSamePacked(w.size, v.size);
    }
    if w.IsPacked() {
      forall k | 0 <= k < n - 1 ensures end[k] - start[k] == v.size[k] {
        SamePackedSameAxis(v.size, w.size, k);
      }
    }
  }

  /** The crate's `flat_slice` lets a packed strict sub-view through and
      hands out the whole buffer: the rank-1 view `1 .. 3` of `zeros([4])`
      is packed and has 2 elements, yet its flat slice has 4. The corrected
      `FlatWindow` gives exactly the 2. */
  method FlatSliceOverrun() returns (sliceLen: nat, windowLen: nat, viewLen: nat)
    ensures sliceLen == 4 && windowLen == 2 && viewLen == 2
  {
    var a := Zeros<int>([4], 8, 0);
    var v := a.AsView().View([1], [3]);
    RankOne(4, 1);
    RankOne(2, 1);
    assert v.size == [2] && v.stride == [1];
    ViewInBounds(a.AsView(), [1], [3], a.mem.len);
    var s := v.FlatSlice();
    var w := v.FlatWindow();
    sliceLen, windowLen, viewLen := |s.value|, |w.value|, FlatLen(v.size);
  }

  /** `flat_slice_mut` has the same defect once a mutable view over a strict
      window exists: the writable counterpart of the view `1 .. 3` of
      `zeros([4])` is packed and has 2 elements, yet `flat_slice_mut` hands
      out all 4, while `FlatWindowMut` gives the 2 starting at offset 1. */
  method FlatSliceMutOverrun() returns (sliceLen: nat, windowLo: nat, windowLen: nat)
    ensures sliceLen == 4 && windowLo == 1 && windowLen == 2
  {
    var a := Zeros<int>([4], 8, 0);
    var w := a.AsView().View([1], [3]);
    RankOne(4, 1);
    RankOne(2, 1);
    assert w.size == [2] && w.offset == [1] && w.stride == [1];
    ViewInBounds(a.AsView(), [1], [3], a.mem.len);
    var v := MemArrayViewMut(w.size, w.offset, w.stride, w.mem);
    var s := v.FlatSliceMut();
    var m := v.FlatWindowMut();
    sliceLen, windowLo, windowLen := s.value.Length, m.value.lo, m.value.len;
  }

  /** The rank-1 facts the counterexamples use. */
  lemma RankOne(n: nat, i: nat)
    ensures FlatLen([n]) == n && PackedStride([n]) == [1] && FlatIndex([i], [1]) == i
  {
    assert [n][..0] == [] && [i][..0] == [];
  }
}
