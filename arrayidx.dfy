/** The multi-dimensional index capability consumed by the array core.

    The array core does not define these operations itself: they come from an
    external index library. The definitions below are ASSUMED semantics for
    that library, fixed here so that the core can be reasoned about:
    an index (a coordinate, a shape or a stride) is a sequence of naturals,
    its rank is its length, the flat length of a shape is the product of its
    sizes, the flat index of a coordinate is the sum of coordinate times
    stride, and the packed stride is column-major with stride[0] == 1.
    The lemmas about them are proved. */
module ArrayIdx {

  /** A coordinate, shape or stride; its rank is its length. */
  type Index = seq<nat>

  /** The all-zero index of the given rank. */
  function Zero(rank: nat): Index
  {
    seq(rank, _ => 0)
  }

  /** Number of elements of a shape: the product of its sizes (1 for rank 0). */
  function FlatLen(size: Index): nat
  {
    if |size| == 0 then 1 else FlatLen(size[..|size| - 1]) * size[|size| - 1]
  }

  /** The packed (column-major) stride of a shape: axis k steps over all the
      elements of the axes before it. */
  function PackedStride(size: Index): Index
  {
    seq(|size|, k requires 0 <= k < |size| => FlatLen(size[..k]))
  }

  /** A stride is packed for a shape when it is the shape's packed stride. */
  predicate IsPacked(size: Index, stride: Index)
  {
    stride == PackedStride(size)
  }

  /** Flat buffer position of a coordinate under a stride: the sum over the
      axes of coordinate times stride. */
  function FlatIndex(idx: Index, stride: Index): nat
    requires |idx| == |stride|
  {
    if |idx| == 0 then 0
    else FlatIndex(idx[..|idx| - 1], stride[..|idx| - 1]) + idx[|idx| - 1] * stride[|idx| - 1]
  }

  /** Axis-wise sum of two indices of the same rank. */
  function IndexAdd(a: Index, b: Index): Index
    requires |a| == |b|
  {
    seq(|a|, k requires 0 <= k < |a| => a[k] + b[k])
  }

  /** Axis-wise difference of two indices of the same rank, `b` below `a`. */
  function IndexSub(a: Index, b: Index): Index
    requires |a| == |b|
    requires forall k :: 0 <= k < |a| ==> b[k] <= a[k]
  {
    seq(|a|, k requires 0 <= k < |a| => a[k] - b[k])
  }

  /** `idx` is a coordinate inside a shape: same rank, every axis below the size. */
  predicate Below(idx: Index, size: Index)
  {
    |idx| == |size| && forall k :: 0 <= k < |size| ==> idx[k] < size[k]
  }

  /** `start .. end` is a valid range on every axis of `size`: the contract
      of the range-to-index conversion, which gives start <= end <= size. */
  predicate Within(start: Index, end: Index, size: Index)
  {
    |start| == |size| && |end| == |size| &&
    forall k :: 0 <= k < |size| ==> start[k] <= end[k] <= size[k]
  }

  /** The packed stride, read axis by axis: stride[0] is 1 and each next
      stride is the previous one times the previous size. Both directions. */
  lemma {:induction false} PackedAxiswise(size: Index, stride: Index)
    ensures IsPacked(size, stride) <==>
      (|stride| == |size| &&
       (|size| > 0 ==> stride[0] == 1) &&
       (forall k :: 0 <= k < |size| - 1 ==> stride[k + 1] == stride[k] * size[k]))
  {
    if IsPacked(size, stride) {
      PackedStrideSteps(size);
    }
    if |stride| == |size| && (|size| > 0 ==> stride[0] == 1) &&
       (forall k :: 0 <= k < |size| - 1 ==> stride[k + 1] == stride[k] * size[k])
    {
      StepsArePacked(size, stride);
    }
  }

  /** The packed stride starts at 1 and steps by the sizes. */
  lemma PackedStrideSteps(size: Index)
    ensures |size| > 0 ==> PackedStride(size)[0] == 1
    ensures forall k :: 0 <= k < |size| - 1 ==>
      PackedStride(size)[k + 1] == PackedStride(size)[k] * size[k]
  {
    assert |size| > 0 ==> size[..0] == [];
    forall k | 0 <= k < |size| - 1
      ensures FlatLen(size[..k + 1]) == FlatLen(size[..k]) * size[k]
    {
      assert size[..k + 1][..k] == size[..k];
    }
  }

  /** A stride that starts at 1 and steps by the sizes is the packed one. */
  lemma StepsArePacked(size: Index, stride: Index)
    requires |stride| == |size| && (|size| > 0 ==> stride[0] == 1)
    requires forall k :: 0 <= k < |size| - 1 ==> stride[k + 1] == stride[k] * size[k]
    ensures stride == PackedStride(size)
  {
    var p := PackedStride(size);
    forall k | 0 <= k < |size| ensures stride[k] == p[k] {
      StrideAt(size, stride, k);
    }
  }

  /** Entry `k` of such a stride is the number of elements of the first `k` axes. */
  lemma {:induction false} StrideAt(size: Index, stride: Index, k: nat)
    requires |stride| == |size| && (|size| > 0 ==> stride[0] == 1)
    requires forall k :: 0 <= k < |size| - 1 ==> stride[k + 1] == stride[k] * size[k]
    requires k < |size|
    ensures stride[k] == FlatLen(size[..k])
  {
    if k == 0 {
      assert size[..0] == [];
    } else {
      StrideAt(size, stride, k - 1);
      assert stride[k] == stride[k - 1] * size[k - 1];
      assert size[..k][..k - 1] == size[..k - 1];
    }
  }

  /** Every packed stride entry is positive when every size is. */
  lemma {:induction false} PackedStridePositive(size: Index, k: nat)
    requires k <= |size|
    requires forall j :: 0 <= j < |size| ==> size[j] > 0
    ensures FlatLen(size[..k]) > 0
  {
    if k > 0 {
      PackedStridePositive(size, k - 1);
      assert size[..k][..k - 1] == size[..k - 1];
    }
  }

  /** Taking the first axes of a shape takes the first axes of its packed stride. */
  lemma PackedStridePrefix(size: Index, n: nat)
    requires n <= |size|
    ensures PackedStride(size)[..n] == PackedStride(size[..n])
  {
    forall k | 0 <= k < n ensures size[..n][..k] == size[..k] {}
  }

  /** Flat indexing is linear in the coordinate. */
  lemma {:induction false} FlatIndexAdd(a: Index, b: Index, stride: Index)
    requires |a| == |b| == |stride|
    ensures FlatIndex(IndexAdd(a, b), stride) == FlatIndex(a, stride) + FlatIndex(b, stride)
  {
    var n := |a|;
    if n > 0 {
      var s := IndexAdd(a, b);
      assert s[..n - 1] == IndexAdd(a[..n - 1], b[..n - 1]);
      FlatIndexAdd(a[..n - 1], b[..n - 1], stride[..n - 1]);
      calc {
        s[n - 1] * stride[n - 1];
        (a[n - 1] + b[n - 1]) * stride[n - 1];
        a[n - 1] * stride[n - 1] + b[n - 1] * stride[n - 1];
      }
    }
  }

  /** The zero coordinate is at flat position 0 under any stride. */
  lemma {:induction false} FlatIndexZero(stride: Index)
    ensures FlatIndex(Zero(|stride|), stride) == 0
  {
    var n := |stride|;
    if n > 0 {
      assert Zero(n)[..n - 1] == Zero(n - 1);
      FlatIndexZero(stride[..n - 1]);
    }
  }

  /** A coordinate inside a shape lands inside the packed buffer of that shape. */
  lemma {:induction false} PackedInBounds(idx: Index, size: Index)
    requires Below(idx, size)
    ensures FlatIndex(idx, PackedStride(size)) < FlatLen(size)
  {
    var n := |size|;
    if n > 0 {
      var p := PackedStride(size);
      PackedStridePrefix(size, n - 1);
      assert Below(idx[..n - 1], size[..n - 1]);
      PackedInBounds(idx[..n - 1], size[..n - 1]);
      var f := FlatLen(size[..n - 1]);
      assert p[n - 1] == f;
      assert FlatIndex(idx, p) == FlatIndex(idx[..n - 1], p[..n - 1]) + idx[n - 1] * f;
      StepBelow(FlatIndex(idx[..n - 1], p[..n - 1]), idx[n - 1], f, size[n - 1]);
    }
  }

  /** Under a packed stride every coordinate below the shape lands below
      `FlatLen(size)`. */
  lemma PackedAddresses(size: Index, stride: Index)
    requires IsPacked(size, stride)
    ensures |stride| == |size|
    ensures forall idx :: Below(idx, size) ==> FlatIndex(idx, stride) < FlatLen(size)
  {
    forall idx | Below(idx, size) ensures FlatIndex(idx, stride) < FlatLen(size) {
      PackedInBounds(idx, size);
    }
  }

  /** x + i * f stays below s * f when x is below f and i below s. */
  lemma StepBelow(x: nat, i: nat, f: nat, s: nat)
    requires x < f && i < s
    ensures x + i * f < s * f
  {
    calc {
      x + i * f;
      < f + i * f;
      == (i + 1) * f;
      <= { assert i + 1 <= s; }
      s * f;
    }
  }

  /** The last coordinate of a non-empty shape sits at the last position of
      its packed buffer. */
  lemma {:induction false} PackedLastIndex(size: Index)
    requires forall k :: 0 <= k < |size| ==> size[k] > 0
    ensures FlatIndex(seq(|size|, k requires 0 <= k < |size| => size[k] - 1), PackedStride(size)) + 1 == FlatLen(size)
  {
    var n := |size|;
    var last := seq(n, k requires 0 <= k < n => size[k] - 1);
    if n > 0 {
      var p := PackedStride(size);
      PackedStridePrefix(size, n - 1);
      var size' := size[..n - 1];
      assert last[..n - 1] == seq(n - 1, k requires 0 <= k < n - 1 => size'[k] - 1);
      PackedLastIndex(size');
      var f := FlatLen(size');
      calc {
        FlatIndex(last, p) + 1;
        FlatIndex(last[..n - 1], p[..n - 1]) + (size[n - 1] - 1) * f + 1;
        f + (size[n - 1] - 1) * f;
        size[n - 1] * f;
      }
    }
  }

  /** Shapes that agree on every axis but the last have the same packed stride. */
  lemma SamePrefixSamePacked(a: Index, b: Index)
    requires |a| == |b| >= 1 && a[..|a| - 1] == b[..|b| - 1]
    ensures PackedStride(a) == PackedStride(b)
  {
    var n := |a|;
    forall k | 0 <= k < n ensures a[..k] == b[..k] {
      assert a[..k] == a[..n - 1][..k];
      assert b[..k] == b[..n - 1][..k];
    }
  }

  /** A shape with positive sizes shares its packed stride only with shapes
      that agree with it on every axis but the last. */
  lemma SamePackedSameAxis(a: Index, b: Index, k: nat)
    requires |a| == |b| && k + 1 < |a|
    requires forall j :: 0 <= j < |a| ==> a[j] > 0
    requires PackedStride(a) == PackedStride(b)
    ensures a[k] == b[k]
  {
    assert a[..k + 1][..k] == a[..k];
    assert b[..k + 1][..k] == b[..k];
    var c := FlatLen(a[..k]);
    assert c == PackedStride(a)[k] == PackedStride(b)[k] == FlatLen(b[..k]);
    assert FlatLen(a[..k + 1]) == c * a[k];
    assert FlatLen(b[..k + 1]) == c * b[k];
    assert PackedStride(a)[k + 1] == PackedStride(b)[k + 1];
    PackedStridePositive(a, k);
    CancelLeft(c, a[k], b[k]);
  }

  /** Multiplication by a positive factor is injective. */
  lemma CancelLeft(c: nat, x: nat, y: nat)
    requires c > 0 && c * x == c * y
    ensures x == y
  {
  }

  /** The number of elements, taking the first axis out first. */
  lemma {:induction false} FlatLenFront(size: Index)
    requires |size| > 0
    ensures FlatLen(size) == size[0] * FlatLen(size[1..])
  {
    var n := |size|;
    if n == 1 {
      assert size[..0] == [] && size[1..] == [];
    } else {
      var init := size[..n - 1];
      FlatLenFront(init);
      assert init[1..] == size[1..][..n - 2];
      assert init[0] == size[0];
      calc {
        FlatLen(size);
        FlatLen(init) * size[n - 1];
        size[0] * FlatLen(init[1..]) * size[n - 1];
        size[0] * (FlatLen(size[1..][..n - 2]) * size[1..][n - 2]);
        size[0] * FlatLen(size[1..]);
      }
    }
  }

  /** A shape holds elements exactly when every size is positive. */
  lemma {:induction false} FlatLenPositive(size: Index)
    ensures FlatLen(size) > 0 <==> forall k :: 0 <= k < |size| ==> size[k] > 0
  {
    var n := |size|;
    if n > 0 {
      FlatLenPositive(size[..n - 1]);
      if FlatLen(size) > 0 {
        assert FlatLen(size[..n - 1]) > 0 && size[n - 1] > 0;
      }
    }
  }
}
