/** Exporting a strided tensor as a NumPy array without copying, and importing an array: the bounds check in
    checked 64-bit arithmetic, and which byte every index then addresses. */
module NumpyView {
  import opened Wrappers

  // ----- 64-bit integers -----

  const TWO63 := 0x8000_0000_0000_0000
  const TWO64 := 0x1_0000_0000_0000_0000

  predicate FitsInt64(x: int) { -TWO63 <= x < TWO63 }

  /** An int64 product or sum, or none on overflow. */
  function CheckedMul(a: int, b: int): Option<int> { if FitsInt64(a * b) then Some(a * b) else None }

  function CheckedAdd(a: int, b: int): Option<int> { if FitsInt64(a + b) then Some(a + b) else None }

  /** Conversion to a signed 64-bit integer, modulo 2^64. */
  function AsInt64(x: int): (r: int)
    ensures FitsInt64(r) && (FitsInt64(x) ==> r == x)
  {
    (x + TWO63) % TWO64 - TWO63
  }

  // ----- strided indexing -----

  ghost predicate IsIndex(index: seq<int>, shape: seq<int>) {
    |index| == |shape| && forall i | 0 <= i < |index| :: 0 <= index[i] < shape[i]
  }

  predicate NonNegative(s: seq<int>) { forall i | 0 <= i < |s| :: s[i] >= 0 }

  /** The distance of an index from the first element. */
  function Dot(index: seq<int>, strides: seq<int>): int
    requires |index| == |strides|
  {
    if index == [] then 0
    else Dot(index[..|index| - 1], strides[..|index| - 1]) + index[|index| - 1] * strides[|index| - 1]
  }

  /** The largest distance reached, over the first d dimensions; dimensions of size 0 are skipped. */
  function Extent(shape: seq<int>, strides: seq<int>, d: nat): int
    requires d <= |shape| == |strides|
  {
    if d == 0 then 0
    else Extent(shape, strides, d - 1) + if shape[d - 1] > 0 then (shape[d - 1] - 1) * strides[d - 1] else 0
  }

  /** The farthest element in checked arithmetic, or none if a step overflows. */
  function Reach(offset: int, shape: seq<int>, strides: seq<int>, d: nat): Option<int>
    requires d <= |shape| == |strides|
  {
    if d == 0 then Some(offset)
    else
      var before := Reach(offset, shape, strides, d - 1);
      if before.None? || shape[d - 1] <= 0 then before
      else
        var step := CheckedMul(shape[d - 1] - 1, strides[d - 1]);
        if step.None? then None else CheckedAdd(before.value, step.value)
  }

  // ----- the export -----

  /** A tensor over a storage of `bytes` bytes; `elem` is the size of an element. */
  datatype Tensor = Tensor(shape: seq<int>, strides: seq<int>, offset: int, elem: nat, bytes: nat, cpu: bool, aligned: bool)

  /** What the types and the dtype table guarantee; no allocation is as large as 2^63 bytes. */
  ghost predicate WellTyped(t: Tensor) {
    && |t.shape| == |t.strides| && NonNegative(t.shape)
    && (forall i | 0 <= i < |t.shape| :: FitsInt64(t.shape[i]) && FitsInt64(t.strides[i]))
    && FitsInt64(t.offset) && 0 < t.elem <= 16 && t.bytes < TWO63
  }

  /** A view starts `start` bytes into the storage and steps by byte strides; a copy is laid out afresh. */
  datatype Outcome = View(start: int, strides: seq<int>) | Copy | NoCopyError | Overflow

  function ByteStride(s: int, elem: nat): int { AsInt64(s * elem) }

  function ByteStrides(strides: seq<int>, elem: nat): seq<int> {
    seq(|strides|, i requires 0 <= i < |strides| => ByteStride(strides[i], elem))
  }

  function StorageElements(t: Tensor): int
    requires t.elem > 0
  {
    AsInt64(t.bytes / t.elem)
  }

  function CanZeroCopy(t: Tensor): bool { t.cpu && t.aligned && NonNegative(t.strides) }

  function Export(t: Tensor, wantNoCopy: bool): Outcome
    requires |t.shape| == |t.strides| && t.elem > 0
  {
    var reach := Reach(t.offset, t.shape, t.strides, |t.shape|);
    if reach.None? then Overflow
    else if reach.value >= StorageElements(t) || !CanZeroCopy(t) then if wantNoCopy then NoCopyError else Copy
    else
      var start := CheckedMul(t.offset, t.elem);
      if start.None? then Overflow else View(start.value, ByteStrides(t.strides, t.elem))
  }

  method CanZeroCopyTensorToNumpy(t: Tensor) returns (ok: bool)
    ensures ok == CanZeroCopy(t)
  {
    if !t.cpu || !t.aligned {
      return false;
    }
    for i := 0 to |t.strides|
      invariant forall k | 0 <= k < i :: t.strides[k] >= 0
    {
      if t.strides[i] < 0 {
        return false;
      }
    }
    ok := true;
  }

  method CreateNumpyArray(t: Tensor, wantNoCopy: bool) returns (outcome: Outcome)
    requires WellTyped(t)
    ensures outcome == Export(t, wantNoCopy)
  {
    hide Reach, CheckedMul, CheckedAdd;
    var np_strides: seq<int> := [];
    for i := 0 to |t.strides|
      invariant |np_strides| == i && forall k | 0 <= k < i :: np_strides[k] == ByteStride(t.strides[k], t.elem)
    {
      np_strides := np_strides + [ByteStride(t.strides[i], t.elem)];
    }
    ReachStep(t.offset, t.shape, t.strides, 0);
    var max_offset := t.offset;
    for d := 0 to |t.shape|
      invariant Reach(t.offset, t.shape, t.strides, d) == Some(max_offset)
    {
      ReachStep(t.offset, t.shape, t.strides, d);
      if t.shape[d] > 0 {
        var step := CheckedMul(t.shape[d] - 1, t.strides[d]);
        if step.None? {
          OverflowStays(t.offset, t.shape, t.strides, d + 1, |t.shape|);
          return Overflow;
        }
        var sum := CheckedAdd(max_offset, step.value);
        if sum.None? {
          OverflowStays(t.offset, t.shape, t.strides, d + 1, |t.shape|);
          return Overflow;
        }
        max_offset := sum.value;
      }
    }
    var storage_elements := StorageElements(t);
    if max_offset >= storage_elements {
      return if wantNoCopy then NoCopyError else Copy;
    }
    var ok := CanZeroCopyTensorToNumpy(t);
    if !ok {
      return if wantNoCopy then NoCopyError else Copy;
    }
    var start := CheckedMul(t.offset, t.elem);
    if start.None? {
      return Overflow;
    }
    assert np_strides == ByteStrides(t.strides, t.elem);
    outcome := View(start.value, np_strides);
  }

  lemma ReachStep(offset: int, shape: seq<int>, strides: seq<int>, d: nat)
    requires d <= |shape| == |strides|
    ensures Reach(offset, shape, strides, 0) == Some(offset)
    ensures d < |shape| ==>
              Reach(offset, shape, strides, d + 1)
              == var before := Reach(offset, shape, strides, d);
                 if before.None? || shape[d] <= 0 then before
                 else
                   var step := CheckedMul(shape[d] - 1, strides[d]);
                   if step.None? then None else CheckedAdd(before.value, step.value)
  {
  }

  lemma {:induction false} OverflowStays(offset: int, shape: seq<int>, strides: seq<int>, d: nat, e: nat)
    requires d <= e <= |shape| == |strides| && Reach(offset, shape, strides, d).None?
    ensures Reach(offset, shape, strides, e).None?
    decreases e - d
  {
    if d < e {
      OverflowStays(offset, shape, strides, d, e - 1);
    }
  }

  // ----- the farthest element -----

  lemma {:induction false} ReachIsExtent(offset: int, shape: seq<int>, strides: seq<int>, d: nat)
    requires d <= |shape| == |strides|
    ensures var r := Reach(offset, shape, strides, d); r.Some? ==> r.value == offset + Extent(shape, strides, d)
  {
    if d > 0 {
      ReachIsExtent(offset, shape, strides, d - 1);
    }
  }

  lemma ProductBounds(x: int, y: int, s: int)
    requires 0 <= x <= y && s >= 0
    ensures 0 <= x * s <= y * s
  {
  }

  lemma {:induction false} ExtentGrows(shape: seq<int>, strides: seq<int>, d: nat, e: nat)
    requires d <= e <= |shape| == |strides| && NonNegative(strides)
    ensures 0 <= Extent(shape, strides, d) <= Extent(shape, strides, e)
    decreases e
  {
    if e > 0 {
      if shape[e - 1] > 0 {
        ProductBounds(0, shape[e - 1] - 1, strides[e - 1]);
      }
      ExtentGrows(shape, strides, if d < e then d else e - 1, e - 1);
    }
  }

  /** With strides that are not negative the checked sum overflows exactly if the farthest element does. */
  lemma {:induction false} OverflowIsFarthest(offset: int, shape: seq<int>, strides: seq<int>, d: nat)
    requires d <= |shape| == |strides| && NonNegative(strides) && offset >= 0 && FitsInt64(offset)
    ensures Reach(offset, shape, strides, d).Some? <==> offset + Extent(shape, strides, d) <= 0x7fff_ffff_ffff_ffff
  {
    if d > 0 {
      OverflowIsFarthest(offset, shape, strides, d - 1);
      ReachIsExtent(offset, shape, strides, d - 1);
      ExtentGrows(shape, strides, d - 1, d);
      if shape[d - 1] > 0 {
        ProductBounds(0, shape[d - 1] - 1, strides[d - 1]);
      }
    }
  }

  lemma {:induction false} DotWithinExtent(index: seq<int>, shape: seq<int>, strides: seq<int>)
    requires IsIndex(index, shape) && |shape| == |strides| && NonNegative(strides)
    ensures 0 <= Dot(index, strides) <= Extent(shape, strides, |shape|)
    decreases |index|
  {
    var n := |index|;
    if n > 0 {
      var lower, lowerStrides := shape[..n - 1], strides[..n - 1];
      DotWithinExtent(index[..n - 1], lower, lowerStrides);
      ExtentOfPrefix(shape, strides, n - 1, n - 1);
      ProductBounds(index[n - 1], shape[n - 1] - 1, strides[n - 1]);
    }
  }

  lemma {:induction false} ExtentOfPrefix(shape: seq<int>, strides: seq<int>, d: nat, e: nat)
    requires d <= e <= |shape| == |strides|
    ensures Extent(shape[..e], strides[..e], d) == Extent(shape, strides, d)
  {
    if d > 0 {
      ExtentOfPrefix(shape, strides, d - 1, e);
    }
  }

  function LastIndex(shape: seq<int>): seq<int> {
    seq(|shape|, i requires 0 <= i < |shape| => shape[i] - 1)
  }

  lemma {:induction false} LastIndexReaches(shape: seq<int>, strides: seq<int>)
    requires |shape| == |strides| && forall i | 0 <= i < |shape| :: shape[i] > 0
    ensures IsIndex(LastIndex(shape), shape) && Dot(LastIndex(shape), strides) == Extent(shape, strides, |shape|)
    decreases |shape|
  {
    var n := |shape|;
    if n > 0 {
      LastIndexReaches(shape[..n - 1], strides[..n - 1]);
      assert LastIndex(shape)[..n - 1] == LastIndex(shape[..n - 1]);
      ExtentOfPrefix(shape, strides, n - 1, n - 1);
    }
  }

  // ----- the bytes a view addresses -----

  /** The element at distance p from the start of the storage lies inside it. */
  predicate InStorage(t: Tensor, p: int) {
    0 <= p * t.elem && p * t.elem + t.elem <= t.bytes
  }

  lemma StorageLimit(bytes: nat, elem: nat, p: int)
    requires elem > 0
    ensures p * elem + elem <= bytes <==> p < bytes / elem
  {
    var q := bytes / elem;
    assert q * elem <= bytes < q * elem + elem;
    if p < q {
      ProductBounds(0, q - 1 - p, elem);
      assert (q - 1 - p) * elem == q * elem - elem - p * elem;
    } else {
      ProductBounds(0, p - q, elem);
      assert (p - q) * elem == p * elem - q * elem;
    }
  }

  /** For a position that is not negative, lying in the storage is being below the element count. */
  lemma InStorageIsBelow(t: Tensor, p: int)
    requires WellTyped(t) && p >= 0
    ensures InStorage(t, p) <==> p < StorageElements(t)
  {
    StorageLimit(t.bytes, t.elem, p);
    ProductBounds(0, p, t.elem);
    QuotientBounds(t.bytes, t.elem);
  }

  lemma QuotientBounds(bytes: nat, elem: nat)
    requires elem > 0
    ensures 0 <= bytes / elem <= bytes
  {
    var q := bytes / elem;
    assert q * elem <= bytes;
    ProductBounds(1, elem, q);
  }

  /** A stride that is ever used steps within the storage, so its byte stride did not wrap. */
  lemma UsedStrideIsExact(t: Tensor, i: nat)
    requires WellTyped(t) && NonNegative(t.strides) && t.offset >= 0
    requires i < |t.shape| && t.shape[i] > 1
    requires t.offset + Extent(t.shape, t.strides, |t.shape|) < StorageElements(t)
    ensures ByteStride(t.strides[i], t.elem) == t.strides[i] * t.elem
  {
    hide StorageElements, AsInt64;
    var s, m := t.strides[i], t.shape[i] - 1;
    ExtentGrows(t.shape, t.strides, 0, i);
    ExtentGrows(t.shape, t.strides, i + 1, |t.shape|);
    ProductBounds(1, m, s);
    assert s <= m * s <= Extent(t.shape, t.strides, i + 1);
    InStorageIsBelow(t, s);
  }

  lemma BytesOfOne(index: int, s: int, elem: int)
    ensures index * (s * elem) == (index * s) * elem
  {
  }

  lemma BytesOfSum(a: int, b: int, elem: int)
    ensures a * elem + b * elem == (a + b) * elem
  {
  }

  /** The byte distance of an index is its element distance times the element size, if every stride that the
      index uses is scaled by it. */
  lemma {:induction false} DotScaled(index: seq<int>, strides: seq<int>, scaled: seq<int>, elem: nat)
    requires |index| == |strides| == |scaled|
    requires forall i | 0 <= i < |index| && index[i] != 0 :: scaled[i] == strides[i] * elem
    ensures Dot(index, scaled) == Dot(index, strides) * elem
    decreases |index|
  {
    var n := |index|;
    if n > 0 {
      DotScaled(index[..n - 1], strides[..n - 1], scaled[..n - 1], elem);
      BytesOfOne(index[n - 1], strides[n - 1], elem);
      BytesOfSum(Dot(index[..n - 1], strides[..n - 1]), index[n - 1] * strides[n - 1], elem);
    }
  }

  /** A view of a tensor whose offset is not negative: every index of the shape addresses, in bytes, exactly
      the element it means, and that lies inside the storage. */
  lemma ViewIsInBounds(t: Tensor, wantNoCopy: bool, index: seq<int>)
    requires WellTyped(t) && t.offset >= 0 && IsIndex(index, t.shape)
    ensures var view := Export(t, wantNoCopy);
            view.View? ==>
              && |view.strides| == |index|
              && view.start + Dot(index, view.strides) == (t.offset + Dot(index, t.strides)) * t.elem
              && InStorage(t, t.offset + Dot(index, t.strides))
  {
    hide Dot, Extent, Reach, StorageElements, ByteStride, InStorage;
    if Export(t, wantNoCopy).View? {
      ReachIsExtent(t.offset, t.shape, t.strides, |t.shape|);
      DotWithinExtent(index, t.shape, t.strides);
      forall i | 0 <= i < |index| && index[i] != 0
        ensures ByteStride(t.strides[i], t.elem) == t.strides[i] * t.elem
      {
        UsedStrideIsExact(t, i);
      }
      DotScaled(index, t.strides, ByteStrides(t.strides, t.elem), t.elem);
      BytesOfSum(t.offset, Dot(index, t.strides), t.elem);
      InStorageIsBelow(t, t.offset + Dot(index, t.strides));
    }
  }

  /** Only an aligned CPU tensor without a negative stride is viewed. */
  lemma ViewNeeds(t: Tensor, wantNoCopy: bool)
    requires WellTyped(t) && Export(t, wantNoCopy).View?
    ensures t.cpu && t.aligned && forall i | 0 <= i < |t.strides| :: t.strides[i] >= 0
  {
    hide Reach;
  }

  ghost predicate SomeIndexOutside(t: Tensor)
    requires |t.shape| == |t.strides|
  {
    exists index :: IsIndex(index, t.shape) && !InStorage(t, t.offset + Dot(index, t.strides))
  }

  /** For a shape without empty dimensions and strides that are not negative, an aligned CPU tensor falls back
      to a copy exactly if some index addresses an element outside the storage. */
  lemma FallbackIsNeeded(t: Tensor)
    requires WellTyped(t) && t.offset >= 0 && t.cpu && t.aligned && forall i | 0 <= i < |t.strides| :: t.strides[i] >= 0
    requires forall i | 0 <= i < |t.shape| :: t.shape[i] > 0
    requires t.offset + Extent(t.shape, t.strides, |t.shape|) <= 0x7fff_ffff_ffff_ffff
    ensures Export(t, false) == Copy <==> SomeIndexOutside(t)
    ensures Export(t, false).View? <==> !SomeIndexOutside(t)
  {
    hide Dot, Extent, Reach, StorageElements, ByteStrides, InStorage;
    var n := |t.shape|;
    OverflowIsFarthest(t.offset, t.shape, t.strides, n);
    ReachIsExtent(t.offset, t.shape, t.strides, n);
    ExtentGrows(t.shape, t.strides, 0, n);
    var farthest := t.offset + Extent(t.shape, t.strides, n);
    InStorageIsBelow(t, farthest);
    if farthest < StorageElements(t) {
      StartFits(t);
      forall index | IsIndex(index, t.shape) ensures InStorage(t, t.offset + Dot(index, t.strides)) {
        DotWithinExtent(index, t.shape, t.strides);
        InStorageIsBelow(t, t.offset + Dot(index, t.strides));
      }
    } else {
      var last := LastIndex(t.shape);
      LastIndexReaches(t.shape, t.strides);
      assert IsIndex(last, t.shape) && !InStorage(t, t.offset + Dot(last, t.strides));
    }
  }

  lemma StartFits(t: Tensor)
    requires WellTyped(t) && t.offset >= 0 && NonNegative(t.strides)
    requires t.offset + Extent(t.shape, t.strides, |t.shape|) < StorageElements(t)
    ensures CheckedMul(t.offset, t.elem).Some?
  {
    hide StorageElements;
    ExtentGrows(t.shape, t.strides, 0, |t.shape|);
    InStorageIsBelow(t, t.offset);
  }

  /** The check of the farthest element relies on an offset that is not negative, which the operations that make
      views see to: the views that are safe are exactly those with such an offset, or with no element at all. */
  lemma ViewIsSafeExactly(t: Tensor)
    requires WellTyped(t) && Export(t, false).View?
    ensures (forall index | IsIndex(index, t.shape) :: InStorage(t, t.offset + Dot(index, t.strides)))
            <==> t.offset >= 0 || exists i :: 0 <= i < |t.shape| && t.shape[i] == 0
  {
    hide Extent, Reach, StorageElements, ByteStrides, InStorage, Dot;
    if t.offset >= 0 {
      forall index | IsIndex(index, t.shape) ensures InStorage(t, t.offset + Dot(index, t.strides)) {
        ViewIsInBounds(t, false, index);
      }
    } else if forall i | 0 <= i < |t.shape| :: t.shape[i] != 0 {
      var first := seq(|t.shape|, i => 0);
      assert IsIndex(first, t.shape);
      DotOfZeros(first, t.strides);
      NegativeIsOutside(t, t.offset);
    }
  }

  lemma {:induction false} DotOfZeros(index: seq<int>, strides: seq<int>)
    requires |index| == |strides| && forall i | 0 <= i < |index| :: index[i] == 0
    ensures Dot(index, strides) == 0
    decreases |index|
  {
    if index != [] {
      DotOfZeros(index[..|index| - 1], strides[..|index| - 1]);
    }
  }

  lemma NegativeIsOutside(t: Tensor, p: int)
    requires WellTyped(t) && p < 0
    ensures !InStorage(t, p)
  {
    ProductBounds(1, -p, t.elem);
    assert -p * t.elem == -(p * t.elem);
  }

  /** Handed another one, the export would make the view: one element at the offset -1. */
  lemma NegativeOffsetIsExported()
    ensures Export(Tensor([1], [1], -1, 4, 4, true, true), true) == View(-4, [4])
  {
    assert Reach(-1, [1], [1], 1) == Some(-1);
    assert ByteStrides([1], 4) == [4];
  }

  /** Asking for no copy turns exactly the copies into errors. */
  lemma NoCopyIsStrict(t: Tensor)
    requires WellTyped(t)
    ensures Export(t, true) != Copy && Export(t, false) != NoCopyError
    ensures Export(t, true) == NoCopyError <==> Export(t, false) == Copy
    ensures Export(t, false) != Copy ==> Export(t, true) == Export(t, false)
  {
  }

  // ----- the import -----

  /** The element count in checked arithmetic. */
  function Numel(shape: seq<int>, d: nat): Option<int>
    requires d <= |shape|
  {
    if d == 0 then Some(1)
    else
      var before := Numel(shape, d - 1);
      if before.None? then None else CheckedMul(before.value, shape[d - 1])
  }

  function Product(shape: seq<int>, d: nat): int
    requires d <= |shape|
  {
    if d == 0 then 1 else Product(shape, d - 1) * shape[d - 1]
  }

  /** Every product of leading dimensions is a 64-bit integer. */
  ghost predicate PrefixesFit(shape: seq<int>, d: nat)
    requires d <= |shape|
  {
    forall k | 0 <= k <= d :: -0x8000_0000_0000_0000 <= Product(shape, k) <= 0x7fff_ffff_ffff_ffff
  }

  lemma PrefixStep(shape: seq<int>, d: nat)
    requires 0 < d <= |shape|
    ensures PrefixesFit(shape, d) <==> PrefixesFit(shape, d - 1) && FitsInt64(Product(shape, d))
  {
    hide Product;
  }

  /** The count is refused exactly if the product of some leading dimensions overflows, even if a later
      dimension is 0. */
  lemma {:induction false} NumelOverflow(shape: seq<int>, d: nat)
    requires d <= |shape|
    ensures Numel(shape, d).Some? <==> PrefixesFit(shape, d)
    ensures Numel(shape, d).Some? ==> Numel(shape, d).value == Product(shape, d)
  {
    if d == 0 {
      assert Product(shape, 0) == 1;
    } else {
      hide PrefixesFit, FitsInt64;
      NumelOverflow(shape, d - 1);
      PrefixStep(shape, d);
      if Numel(shape, d - 1).None? {
      } else {
        assert FitsInt64(Numel(shape, d - 1).value * shape[d - 1]) == FitsInt64(Product(shape, d));
        assert PrefixesFit(shape, d - 1);
      }
    }
  }

  /** Row-major strides in elements, the innermost dimension last. */
  function RowMajor(shape: seq<int>): seq<int> {
    seq(|shape|, i requires 0 <= i < |shape| => ProductFrom(shape, i + 1))
  }

  function ProductFrom(shape: seq<int>, i: nat): int
    requires i <= |shape|
    decreases |shape| - i
  {
    if i == |shape| then 1 else shape[i] * ProductFrom(shape, i + 1)
  }

  /** An array with byte strides, as NumPy describes it. */
  datatype Array = Array(shape: seq<int>, strides: seq<int>, itemsize: nat, cStyle: bool, writeable: bool)

  /** When NumPy flags an array C-contiguous: dimensions of size 1 do not matter, nor does anything if the array
      has no element. */
  ghost predicate CContiguous(a: Array)
    requires |a.shape| == |a.strides|
  {
    || (exists i :: 0 <= i < |a.shape| && a.shape[i] == 0)
    || forall i | 0 <= i < |a.shape| && a.shape[i] > 1 :: a.strides[i] == ProductFrom(a.shape, i + 1) * a.itemsize
  }

  /** Sharing the buffer, copying that many bytes, or one of the two errors. */
  datatype Import = Shares(numel: int) | Copies(bytes: int) | TooLarge | ShortSource

  predicate CanShare(a: Array)
    requires |a.shape| == |a.strides|
  {
    a.cStyle && a.writeable && forall i | 0 <= i < |a.shape| :: a.strides[i] > 0 || a.shape[i] <= 1
  }

  method CanZeroCopyNumpyToTensor(a: Array) returns (ok: bool)
    requires |a.shape| == |a.strides|
    ensures ok == CanShare(a)
  {
    if !a.cStyle || !a.writeable {
      return false;
    }
    for i := 0 to |a.shape|
      invariant forall k | 0 <= k < i :: a.strides[k] > 0 || a.shape[k] <= 1
    {
      if a.strides[i] <= 0 && a.shape[i] > 1 {
        return false;
      }
    }
    ok := true;
  }

  /** `size` items of `itemsize` bytes are what the contiguous source buffer holds; `elem` is the size of an
      element of the tensor. The buffer is shared if it may be written and is laid out in rows, the tensor goes to
      the CPU, and every dimension above 1 has a positive stride. */
  method NumpyToTensor(a: Array, elem: nat, cpu: bool, size: nat, itemsize: nat) returns (r: Import)
    requires |a.shape| == |a.strides|
    ensures r.Shares? <==> PrefixesFit(a.shape, |a.shape|) && cpu && a.cStyle && a.writeable
                           && forall i | 0 <= i < |a.shape| && a.shape[i] > 1 :: a.strides[i] > 0
    ensures r == TooLarge <==>
              !r.Shares? && !(PrefixesFit(a.shape, |a.shape|)
                              && -0x8000_0000_0000_0000 <= Product(a.shape, |a.shape|) * elem <= 0x7fff_ffff_ffff_ffff)
    ensures r.Copies? || r == ShortSource ==>
              (r.Copies? <==> Product(a.shape, |a.shape|) * elem <= size * itemsize % 0x1_0000_0000_0000_0000)
    ensures r.Shares? ==> r.numel == Product(a.shape, |a.shape|)
    ensures r.Copies? ==> r.bytes == Product(a.shape, |a.shape|) * elem <= size * itemsize
  {
    var numel := 1;
    for d := 0 to |a.shape|
      invariant Numel(a.shape, d) == Some(numel)
    {
      var next := CheckedMul(numel, a.shape[d]);
      if next.None? {
        NoCountStays(a.shape, d + 1, |a.shape|);
        NumelOverflow(a.shape, |a.shape|);
        return TooLarge;
      }
      numel := next.value;
    }
    NumelOverflow(a.shape, |a.shape|);
    var share := CanZeroCopyNumpyToTensor(a);
    if cpu && share {
      return Shares(numel);
    }
    var bytes := CheckedMul(numel, elem);
    if bytes.None? {
      return TooLarge;
    }
    var src_bytes := (size * itemsize) % TWO64;
    if bytes.value > src_bytes {
      return ShortSource;
    }
    ProductBounds(0, size, itemsize);
    r := Copies(bytes.value);
  }

  lemma {:induction false} NoCountStays(shape: seq<int>, d: nat, e: nat)
    requires d <= e <= |shape| && Numel(shape, d).None?
    ensures Numel(shape, e).None?
    decreases e - d
  {
    if d < e {
      NoCountStays(shape, d, e - 1);
    }
  }

  // ----- sharing a buffer -----

  lemma {:induction false} ProductFromPositive(shape: seq<int>, i: nat)
    requires i <= |shape| && forall k | i <= k < |shape| :: shape[k] > 0
    ensures ProductFrom(shape, i) > 0
    decreases |shape| - i
  {
    if i < |shape| {
      ProductFromPositive(shape, i + 1);
      ProductBounds(1, shape[i], ProductFrom(shape, i + 1));
    }
  }

  /** The first d coordinates leave room for everything the remaining ones can add. */
  lemma {:induction false} RowMajorRoom(index: seq<int>, shape: seq<int>, d: nat)
    requires IsIndex(index, shape) && d <= |shape|
    ensures 0 <= Dot(index[..d], RowMajor(shape)[..d]) <= ProductFrom(shape, 0) - ProductFrom(shape, d)
  {
    if d > 0 {
      var s := ProductFrom(shape, d);
      RowMajorRoom(index, shape, d - 1);
      ProductFromPositive(shape, d);
      ProductBounds(index[d - 1], shape[d - 1] - 1, s);
      assert (shape[d - 1] - 1) * s == shape[d - 1] * s - s;
      assert index[..d][..d - 1] == index[..d - 1] && RowMajor(shape)[..d][..d - 1] == RowMajor(shape)[..d - 1];
    }
  }

  lemma {:induction false} ProductBothWays(shape: seq<int>, d: nat)
    requires d <= |shape|
    ensures Product(shape, d) * ProductFrom(shape, d) == ProductFrom(shape, 0)
  {
    if d > 0 {
      ProductBothWays(shape, d - 1);
      var p, s, q := Product(shape, d - 1), shape[d - 1], ProductFrom(shape, d);
      assert p * (s * q) == (p * s) * q;
    }
  }

  /** Where the buffer is shared, the row-major tensor finds every element at the byte where the array keeps
      it, inside the array's `numel` items. */
  lemma SharedElementsAgree(a: Array, index: seq<int>)
    requires |a.shape| == |a.strides| && CContiguous(a) && IsIndex(index, a.shape)
    ensures Dot(index, a.strides) == Dot(index, RowMajor(a.shape)) * a.itemsize
    ensures 0 <= Dot(index, RowMajor(a.shape)) < Product(a.shape, |a.shape|)
  {
    hide Dot, ProductFrom, Product;
    var n := |a.shape|;
    DotScaled(index, RowMajor(a.shape), a.strides, a.itemsize);
    RowMajorRoom(index, a.shape, n);
    assert index[..n] == index && RowMajor(a.shape)[..n] == RowMajor(a.shape);
    ProductBothWays(a.shape, n);
    EmptyProduct(a.shape);
  }

  lemma EmptyProduct(shape: seq<int>)
    ensures ProductFrom(shape, |shape|) == 1
  {
  }
}
