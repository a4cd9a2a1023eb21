/** The max pooling of the training benchmark: six nested loops over flat buffers. */
module MaxPool {

  // ----- elements -----

  datatype Float = NaN | NegInf | Finite(value: real) | PosInf

  predicate Less(a: Float, b: Float) {
    match (a, b)
    case (NaN, _) => false
    case (_, NaN) => false
    case (NegInf, _) => b != NegInf
    case (Finite(x), Finite(y)) => x < y
    case (Finite(_), _) => b == PosInf
    case (PosInf, _) => false
  }

  /** `std::max`: the first unless it is less. */
  function Max(a: Float, b: Float): Float { if Less(a, b) then b else a }

  // ----- sizes and positions -----

  /** Division that truncates toward zero. */
  function CDiv(a: int, b: int): int
    requires b > 0
  {
    if a >= 0 then a / b else -(-a / b)
  }

  function OutSize(size: int, kernel: int, stride: int): int
    requires stride > 0
  {
    CDiv(size - kernel, stride) + 1
  }

  lemma Product(a: int, b: int, n: int)
    requires a <= b && n >= 0
    ensures a * n <= b * n
  {
  }

  lemma Quotient(a: int, n: int)
    requires n > 0
    ensures (a / n) * n <= a < (a / n) * n + n
  {
  }

  /** How many windows are taken: exactly those that lie inside, if the kernel is no larger than the input. */
  lemma WindowsTaken(size: int, kernel: int, stride: int, o: int)
    requires stride > 0 && kernel <= size && o >= 0
    ensures o < OutSize(size, kernel, stride) <==> o * stride + kernel <= size
  {
    var q := (size - kernel) / stride;
    Quotient(size - kernel, stride);
    if o <= q {
      Product(o, q, stride);
    } else {
      Product(q + 1, o, stride);
      assert (q + 1) * stride == q * stride + stride;
    }
  }

  /** Every window the loops visit lies inside the input. */
  ghost predicate WindowsFit(size: int, kernel: int, stride: int)
    requires stride > 0
  {
    forall o | 0 <= o < OutSize(size, kernel, stride) :: o * stride + kernel <= size
  }

  /** A kernel larger than the input by less than the stride still gets one window, which sticks out, because
      the division truncates toward zero; in every other case the windows fit. */
  lemma WindowsFitExactly(size: int, kernel: int, stride: int)
    requires stride > 0
    ensures WindowsFit(size, kernel, stride) <==> kernel <= size || kernel - size >= stride
  {
    if kernel <= size {
      forall o | 0 <= o < OutSize(size, kernel, stride) ensures o * stride + kernel <= size {
        WindowsTaken(size, kernel, stride, o);
      }
    } else if kernel - size >= stride {
      Quotient(kernel - size, stride);
      if (kernel - size) / stride <= 0 {
        Product((kernel - size) / stride, 0, stride);
        assert false;
      }
    } else {
      SmallQuotient(kernel - size, stride);
      assert 0 <= 0 < OutSize(size, kernel, stride) && !(0 * stride + kernel <= size);
    }
  }

  lemma SmallQuotient(a: int, n: int)
    requires 0 <= a < n
    ensures a / n == 0
  {
  }

  /** The size is negative, which raises an exception, if the kernel is larger by at least twice the stride. */
  lemma NegativeSize(size: int, kernel: int, stride: int)
    requires stride > 0
    ensures OutSize(size, kernel, stride) < 0 <==> kernel - size >= 2 * stride
  {
    if size < kernel {
      var q := (kernel - size) / stride;
      Quotient(kernel - size, stride);
      if q >= 2 {
        Product(2, q, stride);
      } else {
        Product(q + 1, 2, stride);
        assert (q + 1) * stride == q * stride + stride;
      }
    }
  }

  function Index(b: int, c: int, h: int, w: int, channels: int, height: int, width: int): int {
    b * channels * height * width + c * height * width + h * width + w
  }

  lemma IndexNested(b: int, c: int, h: int, w: int, channels: int, height: int, width: int)
    ensures Index(b, c, h, w, channels, height, width) == ((b * channels + c) * height + h) * width + w
  {
    var p := b * channels;
    assert ((p + c) * height + h) * width == (p * height + c * height + h) * width;
    assert (p * height + c * height + h) * width == p * height * width + c * height * width + h * width;
  }

  lemma InRow(a: int, count: int, r: int, n: int)
    requires 0 <= a < count && 0 <= r < n
    ensures 0 <= a * n + r < count * n
  {
    Product(0, a, n);
    Product(a + 1, count, n);
    assert (a + 1) * n == a * n + n;
  }

  lemma IndexInRange(b: int, c: int, h: int, w: int, batch: int, channels: int, height: int, width: int)
    requires 0 <= b < batch && 0 <= c < channels && 0 <= h < height && 0 <= w < width
    ensures 0 <= Index(b, c, h, w, channels, height, width) < batch * channels * height * width
  {
    IndexNested(b, c, h, w, channels, height, width);
    InRow(b, batch, c, channels);
    InRow(b * channels + c, batch * channels, h, height);
    InRow((b * channels + c) * height + h, batch * channels * height, w, width);
  }

  lemma NextProduct(a: int, b: int, n: int)
    requires a < b && n >= 0
    ensures a * n + n <= b * n
  {
    Product(a + 1, b, n);
    assert (a + 1) * n == a * n + n;
  }

  lemma DivMod(a: int, n: int, r: int)
    requires 0 <= r < n
    ensures (a * n + r) / n == a && (a * n + r) % n == r
  {
    var q := (a * n + r) / n;
    Quotient(a * n + r, n);
    if q < a {
      NextProduct(q, a, n);
    } else if q > a {
      NextProduct(a, q, n);
    }
  }

  // ----- the value of an output cell -----

  /** The element at row kh and column kw of the window whose corner is at `base`. */
  function Elem(x: seq<Float>, base: int, width: int, kh: int, kw: int): Float {
    var i := base + kh * width + kw;
    if 0 <= i < |x| then x[i] else NaN
  }

  function RowMax(x: seq<Float>, base: int, width: int, kh: int, n: nat, start: Float): Float {
    if n == 0 then start else Max(RowMax(x, base, width, kh, n - 1, start), Elem(x, base, width, kh, n - 1))
  }

  /** The maximum the two inner loops compute, over the first `rows` rows of the window. */
  function WindowMax(x: seq<Float>, base: int, width: int, rows: nat, kernel: nat): Float {
    if rows == 0 then NegInf
    else RowMax(x, base, width, rows - 1, kernel, WindowMax(x, base, width, rows - 1, kernel))
  }

  /** The maximum over the first `rows` rows, NaN elements left aside: no element is greater, and it is one of
      them unless all are NaN. */
  ghost predicate IsWindowMax(x: seq<Float>, base: int, width: int, rows: nat, kernel: nat, v: Float) {
    && v != NaN
    && (forall kh, kw | 0 <= kh < rows && 0 <= kw < kernel :: !Less(v, Elem(x, base, width, kh, kw)))
    && (v == NegInf || exists kh, kw :: 0 <= kh < rows && 0 <= kw < kernel && Elem(x, base, width, kh, kw) == v)
  }

  lemma MaxIsUpper(a: Float, b: Float)
    requires a != NaN
    ensures Max(a, b) != NaN && !Less(Max(a, b), a) && !Less(Max(a, b), b) && (Max(a, b) == a || Max(a, b) == b)
  {
  }

  lemma LessTransitive(a: Float, b: Float, c: Float)
    requires b != NaN && !Less(a, b) && !Less(b, c) && a != NaN
    ensures !Less(a, c)
  {
  }

  lemma NotLessItself(a: Float)
    ensures !Less(a, a)
  {
  }

  lemma {:induction false} RowMaxIsMax(x: seq<Float>, base: int, width: int, kh: int, n: nat, start: Float)
    requires start != NaN
    ensures var v := RowMax(x, base, width, kh, n, start);
            && v != NaN && !Less(v, start) && (forall kw | 0 <= kw < n :: !Less(v, Elem(x, base, width, kh, kw)))
            && (v == start || exists kw :: 0 <= kw < n && Elem(x, base, width, kh, kw) == v)
  {
    hide Less, Max, Elem;
    if n == 0 {
      NotLessItself(start);
    } else {
      var before, last := RowMax(x, base, width, kh, n - 1, start), Elem(x, base, width, kh, n - 1);
      RowMaxIsMax(x, base, width, kh, n - 1, start);
      MaxIsUpper(before, last);
      LessTransitive(Max(before, last), before, start);
      forall kw | 0 <= kw < n - 1 ensures !Less(Max(before, last), Elem(x, base, width, kh, kw)) {
        LessTransitive(Max(before, last), before, Elem(x, base, width, kh, kw));
      }
    }
  }

  /** What the two inner loops compute for one cell is the maximum of its window. */
  lemma {:induction false} WindowMaxIsMax(x: seq<Float>, base: int, width: int, rows: nat, kernel: nat)
    ensures IsWindowMax(x, base, width, rows, kernel, WindowMax(x, base, width, rows, kernel))
  {
    hide Less, RowMax, Elem;
    if rows > 0 {
      var before := WindowMax(x, base, width, rows - 1, kernel);
      var v := WindowMax(x, base, width, rows, kernel);
      WindowMaxIsMax(x, base, width, rows - 1, kernel);
      RowMaxIsMax(x, base, width, rows - 1, kernel, before);
      forall kh, kw | 0 <= kh < rows && 0 <= kw < kernel ensures !Less(v, Elem(x, base, width, kh, kw)) {
        if kh < rows - 1 {
          LessTransitive(v, before, Elem(x, base, width, kh, kw));
        }
      }
    }
  }

  // ----- the loops -----

  /** The sizes of one call. */
  datatype Sizes = Sizes(batch: nat, channels: nat, height: nat, width: nat, kernel: nat, stride: nat) {
    function OutH(): int
      requires stride > 0
    {
      OutSize(height, kernel, stride)
    }

    function OutW(): int
      requires stride > 0
    {
      OutSize(width, kernel, stride)
    }

    /** The position of an output cell in the flat buffer. */
    function OutIndex(b: int, c: int, oh: int, ow: int): int
      requires stride > 0
    {
      Index(b, c, oh, ow, channels, OutH(), OutW())
    }

    ghost predicate Fit() {
      stride > 0 && WindowsFit(height, kernel, stride) && WindowsFit(width, kernel, stride)
    }

    /** The corner of the window of an output cell. */
    function Corner(b: int, c: int, oh: int, ow: int): int {
      Index(b, c, oh * stride, ow * stride, channels, height, width)
    }

    /** The value of an output cell. */
    function Cell(x: seq<Float>, b: int, c: int, oh: int, ow: int): Float {
      WindowMax(x, Corner(b, c, oh, ow), width, kernel, kernel)
    }

    /** The value of the output cell at position q of the flat buffer. */
    function CellAt(x: seq<Float>, q: int): Float
      requires stride > 0
    {
      if channels == 0 || OutH() <= 0 || OutW() <= 0 then NaN else
      var row := q / OutW();
      var plane := row / OutH();
      Cell(x, plane / channels, plane % channels, row % OutH(), q % OutW())
    }
  }

  lemma CellAtIndex(s: Sizes, x: seq<Float>, b: int, c: int, oh: int, ow: int)
    requires s.stride > 0 && 0 <= c < s.channels && 0 <= oh < s.OutH() && 0 <= ow < s.OutW()
    ensures s.CellAt(x, s.OutIndex(b, c, oh, ow)) == s.Cell(x, b, c, oh, ow)
  {
    hide OutSize, WindowMax, Index;
    IndexNested(b, c, oh, ow, s.channels, s.OutH(), s.OutW());
    DivMod((b * s.channels + c) * s.OutH() + oh, s.OutW(), ow);
    DivMod(b * s.channels + c, s.OutH(), oh);
    DivMod(b, s.channels, c);
  }

  /** Element (kh, kw) of a window that fits lies in the input, where the inner loop reads it. */
  lemma ReadInRange(s: Sizes, b: int, c: int, oh: int, ow: int, kh: int, kw: int)
    requires s.Fit() && 0 <= b < s.batch && 0 <= c < s.channels && 0 <= oh < s.OutH() && 0 <= ow < s.OutW()
    requires 0 <= kh < s.kernel && 0 <= kw < s.kernel
    ensures var i := Index(b, c, oh * s.stride + kh, ow * s.stride + kw, s.channels, s.height, s.width);
            && 0 <= i < s.batch * s.channels * s.height * s.width
            && i == s.Corner(b, c, oh, ow) + kh * s.width + kw
  {
    hide OutSize;
    Product(0, oh, s.stride);
    Product(0, ow, s.stride);
    IndexInRange(b, c, oh * s.stride + kh, ow * s.stride + kw, s.batch, s.channels, s.height, s.width);
    RowOffset(oh * s.stride, kh, s.width);
  }

  lemma RowOffset(a: int, b: int, n: int)
    ensures (a + b) * n == a * n + b * n
  {
  }

  /** The first p cells of the output are right. */
  ghost predicate Filled(out: seq<Float>, s: Sizes, x: seq<Float>, p: int)
    requires s.stride > 0
  {
    0 <= p <= |out| && forall q | 0 <= q < p :: out[q] == s.CellAt(x, q)
  }

  lemma FillNext(out: seq<Float>, out': seq<Float>, s: Sizes, x: seq<Float>, b: int, c: int, oh: int, ow: int)
    requires s.stride > 0 && 0 <= c < s.channels && 0 <= oh < s.OutH() && 0 <= ow < s.OutW()
    requires Filled(out, s, x, s.OutIndex(b, c, oh, ow)) && s.OutIndex(b, c, oh, ow) < |out|
    requires out' == out[s.OutIndex(b, c, oh, ow) := s.Cell(x, b, c, oh, ow)]
    ensures Filled(out', s, x, s.OutIndex(b, c, oh, ow + 1))
  {
    CellAtIndex(s, x, b, c, oh, ow);
    assert s.OutIndex(b, c, oh, ow + 1) == s.OutIndex(b, c, oh, ow) + 1 by { hide OutSize; }
    hide OutSize, Index, WindowMax, Sizes.CellAt, Sizes.Cell;
  }

  /** Where a row, a plane or a batch item ends, the next one starts. */
  lemma Carry(s: Sizes, b: int, c: int, oh: int)
    requires s.stride > 0
    ensures s.OutIndex(b, c, oh, s.OutW()) == s.OutIndex(b, c, oh + 1, 0)
    ensures s.OutIndex(b, c, s.OutH(), 0) == s.OutIndex(b, c + 1, 0, 0)
    ensures s.OutIndex(b, s.channels, 0, 0) == s.OutIndex(b + 1, 0, 0, 0)
    ensures s.OutIndex(0, 0, 0, 0) == 0
    ensures s.OutIndex(s.batch, 0, 0, 0) == s.batch * s.channels * s.OutH() * s.OutW()
  {
    hide OutSize;
    var h, w, n := s.OutH(), s.OutW(), s.channels;
    assert (oh + 1) * w == oh * w + w by { RowOffset(oh, 1, w); }
    assert (c + 1) * h * w == c * h * w + h * w by { RowOffset(c, 1, h); RowOffset(c * h, h, w); }
    assert (b + 1) * n * h * w == b * n * h * w + n * h * w by {
      RowOffset(b, 1, n);
      RowOffset(b * n, n, h);
      RowOffset(b * n * h, n * h, w);
    }
  }

  lemma OutIndexInRange(s: Sizes, b: int, c: int, oh: int, ow: int)
    requires s.stride > 0 && 0 <= b < s.batch && 0 <= c < s.channels && 0 <= oh < s.OutH() && 0 <= ow < s.OutW()
    ensures 0 <= s.OutIndex(b, c, oh, ow) < s.batch * s.channels * s.OutH() * s.OutW()
  {
    hide OutSize;
    IndexInRange(b, c, oh, ow, s.batch, s.channels, s.OutH(), s.OutW());
  }

  // ----- what pooling means, on the flat buffers -----

  ghost predicate InOutput(s: Sizes, b: int, c: int, oh: int, ow: int)
    requires s.stride > 0
  {
    0 <= b < s.batch && 0 <= c < s.channels && 0 <= oh < s.OutH() && 0 <= ow < s.OutW()
  }

  /** The input element at row kh and column kw of the window of an output cell. */
  ghost function Seen(s: Sizes, x: seq<Float>, b: int, c: int, oh: int, ow: int, kh: int, kw: int): Float
    requires s.Fit() && |x| == s.batch * s.channels * s.height * s.width && InOutput(s, b, c, oh, ow)
    requires 0 <= kh < s.kernel && 0 <= kw < s.kernel
  {
    ReadInRange(s, b, c, oh, ow, kh, kw);
    IndexNested(b, c, oh * s.stride + kh, ow * s.stride + kw, s.channels, s.height, s.width);
    x[((b * s.channels + c) * s.height + (oh * s.stride + kh)) * s.width + (ow * s.stride + kw)]
  }

  ghost function OutCell(s: Sizes, out: seq<Float>, b: int, c: int, oh: int, ow: int): Float
    requires s.stride > 0 && |out| == s.batch * s.channels * s.OutH() * s.OutW() && InOutput(s, b, c, oh, ow)
  {
    OutIndexInRange(s, b, c, oh, ow);
    IndexNested(b, c, oh, ow, s.channels, s.OutH(), s.OutW());
    out[((b * s.channels + c) * s.OutH() + oh) * s.OutW() + ow]
  }

  /** No element exceeds v; NaN exceeds nothing. */
  ghost predicate AtLeast(v: Float, e: Float) {
    match e
    case NaN => true
    case NegInf => true
    case Finite(a) => v == PosInf || (v.Finite? && a <= v.value)
    case PosInf => v == PosInf
  }

  /** The maximum of the window: no number, infinities included, stands above it, and it is one of the elements, or
      minus infinity if all of them are NaN or minus infinity. NaN elements are left aside. */
  ghost predicate IsMaxOf(s: Sizes, x: seq<Float>, b: int, c: int, oh: int, ow: int, v: Float)
    requires s.Fit() && |x| == s.batch * s.channels * s.height * s.width && InOutput(s, b, c, oh, ow)
  {
    && v != NaN
    && (forall kh, kw | 0 <= kh < s.kernel && 0 <= kw < s.kernel :: AtLeast(v, Seen(s, x, b, c, oh, ow, kh, kw)))
    && (v == NegInf || exists kh, kw :: 0 <= kh < s.kernel && 0 <= kw < s.kernel && Seen(s, x, b, c, oh, ow, kh, kw) == v)
  }

  ghost predicate IsPooled(s: Sizes, x: seq<Float>, out: seq<Float>)
    requires s.Fit() && |x| == s.batch * s.channels * s.height * s.width
  {
    && |out| == s.batch * s.channels * s.OutH() * s.OutW()
    && forall b, c, oh, ow | InOutput(s, b, c, oh, ow) :: IsMaxOf(s, x, b, c, oh, ow, OutCell(s, out, b, c, oh, ow))
  }

  lemma NotLessIsAtLeast(v: Float, e: Float)
    requires v != NaN && !Less(v, e)
    ensures AtLeast(v, e)
  {
  }

  lemma SeenIsElem(s: Sizes, x: seq<Float>, b: int, c: int, oh: int, ow: int, kh: int, kw: int)
    requires s.Fit() && |x| == s.batch * s.channels * s.height * s.width && InOutput(s, b, c, oh, ow)
    requires 0 <= kh < s.kernel && 0 <= kw < s.kernel
    ensures Seen(s, x, b, c, oh, ow, kh, kw) == Elem(x, s.Corner(b, c, oh, ow), s.width, kh, kw)
  {
    hide OutSize, WindowsFit, Index;
    ReadInRange(s, b, c, oh, ow, kh, kw);
    IndexNested(b, c, oh * s.stride + kh, ow * s.stride + kw, s.channels, s.height, s.width);
  }

  lemma CellIsMax(s: Sizes, x: seq<Float>, b: int, c: int, oh: int, ow: int)
    requires s.Fit() && |x| == s.batch * s.channels * s.height * s.width && InOutput(s, b, c, oh, ow)
    ensures IsMaxOf(s, x, b, c, oh, ow, s.Cell(x, b, c, oh, ow))
  {
    hide OutSize, WindowsFit, Index, Less, Elem, WindowMax, AtLeast, Seen, InOutput;
    var v, corner := s.Cell(x, b, c, oh, ow), s.Corner(b, c, oh, ow);
    WindowMaxIsMax(x, corner, s.width, s.kernel, s.kernel);
    forall kh, kw | 0 <= kh < s.kernel && 0 <= kw < s.kernel
      ensures Seen(s, x, b, c, oh, ow, kh, kw) == Elem(x, corner, s.width, kh, kw) && AtLeast(v, Seen(s, x, b, c, oh, ow, kh, kw))
    {
      SeenIsElem(s, x, b, c, oh, ow, kh, kw);
      NotLessIsAtLeast(v, Elem(x, corner, s.width, kh, kw));
    }
    if v != NegInf {
      var kh, kw :| 0 <= kh < s.kernel && 0 <= kw < s.kernel && Elem(x, corner, s.width, kh, kw) == v;
      assert Seen(s, x, b, c, oh, ow, kh, kw) == v;
    }
  }

  /** There is only one such maximum. */
  lemma MaxIsUnique(s: Sizes, x: seq<Float>, b: int, c: int, oh: int, ow: int, v: Float, w: Float)
    requires s.Fit() && |x| == s.batch * s.channels * s.height * s.width && InOutput(s, b, c, oh, ow)
    requires IsMaxOf(s, x, b, c, oh, ow, v) && IsMaxOf(s, x, b, c, oh, ow, w)
    ensures v == w
  {
    hide OutSize, WindowsFit, Seen, InOutput;
    assert v != NegInf ==> AtLeast(w, v);
    assert w != NegInf ==> AtLeast(v, w);
  }

  /** A full output is the pooled input. */
  lemma FilledIsPooled(s: Sizes, x: seq<Float>, out: seq<Float>)
    requires s.Fit() && |x| == s.batch * s.channels * s.height * s.width
    requires |out| == s.batch * s.channels * s.OutH() * s.OutW() && Filled(out, s, x, |out|)
    ensures IsPooled(s, x, out)
  {
    hide OutSize, WindowsFit, Index, IsMaxOf, Filled, Sizes.Cell, Sizes.CellAt, Sizes.OutIndex;
    forall b, c, oh, ow | InOutput(s, b, c, oh, ow) ensures IsMaxOf(s, x, b, c, oh, ow, OutCell(s, out, b, c, oh, ow)) {
      FilledCell(s, x, out, b, c, oh, ow);
      CellIsMax(s, x, b, c, oh, ow);
    }
  }

  lemma FilledCell(s: Sizes, x: seq<Float>, out: seq<Float>, b: int, c: int, oh: int, ow: int)
    requires s.stride > 0 && |out| == s.batch * s.channels * s.OutH() * s.OutW() && InOutput(s, b, c, oh, ow)
    requires Filled(out, s, x, |out|)
    ensures OutCell(s, out, b, c, oh, ow) == s.Cell(x, b, c, oh, ow)
  {
    hide OutSize, Index, Sizes.Cell, Sizes.CellAt;
    OutIndexInRange(s, b, c, oh, ow);
    IndexNested(b, c, oh, ow, s.channels, s.OutH(), s.OutW());
    CellAtIndex(s, x, b, c, oh, ow);
  }

  // ----- the loops that fill the output -----

  /** The maximum of one window, by the two inner loops. */
  method PoolWindow(s: Sizes, input: array<Float>, b: int, c: int, oh: int, ow: int) returns (max_val: Float)
    requires s.Fit() && input.Length == s.batch * s.channels * s.height * s.width
    requires 0 <= b < s.batch && 0 <= c < s.channels && 0 <= oh < s.OutH() && 0 <= ow < s.OutW()
    ensures max_val == s.Cell(input[..], b, c, oh, ow)
  {
    hide OutSize, Index, Max, Less;
    var x, corner := input[..], s.Corner(b, c, oh, ow);
    max_val := NegInf;
    for kh := 0 to s.kernel
      invariant max_val == WindowMax(x, corner, s.width, kh, s.kernel)
    {
      for kw := 0 to s.kernel
        invariant max_val == RowMax(x, corner, s.width, kh, kw, WindowMax(x, corner, s.width, kh, s.kernel))
      {
        ReadInRange(s, b, c, oh, ow, kh, kw);
        var ih := oh * s.stride + kh;
        var iw := ow * s.stride + kw;
        var in_idx := Index(b, c, ih, iw, s.channels, s.height, s.width);
        max_val := Max(max_val, input[in_idx]);
      }
    }
  }

  /** `null` stands for the exception that a negative output size raises. `writes` lists the positions written,
      in order. */
  method MaxPool2d(s: Sizes, input: array<Float>) returns (output: array?<Float>, ghost writes: seq<int>)
    requires s.Fit() && input.Length == s.batch * s.channels * s.height * s.width
    ensures output == null <==> s.kernel - s.height >= 2 * s.stride || s.kernel - s.width >= 2 * s.stride
    ensures output != null ==>
              && fresh(output) && output.Length == s.batch * s.channels * s.OutH() * s.OutW()
              && IsPooled(s, input[..], output[..])
              && |writes| == output.Length && forall k | 0 <= k < |writes| :: writes[k] == k
  {
    hide OutSize, Index, Filled, IsPooled, Sizes.OutIndex, Sizes.Cell, Sizes.CellAt, WindowsFit;
    writes := [];
    var out_h, out_w := s.OutH(), s.OutW();
    NegativeSize(s.height, s.kernel, s.stride);
    NegativeSize(s.width, s.kernel, s.stride);
    if out_h < 0 || out_w < 0 {
      return null, [];
    }
    SizeNonNegative(s.batch, s.channels, out_h, out_w);
    output := new Float[s.batch * s.channels * out_h * out_w](_ => Finite(0.0));
    ghost var x := input[..];
    Carry(s, 0, 0, 0);
    NothingFilled(output[..], s, x);
    for b := 0 to s.batch
      invariant Filled(output[..], s, x, s.OutIndex(b, 0, 0, 0))
      invariant |writes| == s.OutIndex(b, 0, 0, 0) && forall k | 0 <= k < |writes| :: writes[k] == k
    {
      for c := 0 to s.channels
        invariant Filled(output[..], s, x, s.OutIndex(b, c, 0, 0))
        invariant |writes| == s.OutIndex(b, c, 0, 0) && forall k | 0 <= k < |writes| :: writes[k] == k
      {
        for oh := 0 to out_h
          invariant Filled(output[..], s, x, s.OutIndex(b, c, oh, 0))
          invariant |writes| == s.OutIndex(b, c, oh, 0) && forall k | 0 <= k < |writes| :: writes[k] == k
        {
          for ow := 0 to out_w
            invariant Filled(output[..], s, x, s.OutIndex(b, c, oh, ow))
            invariant |writes| == s.OutIndex(b, c, oh, ow) && forall k | 0 <= k < |writes| :: writes[k] == k
          {
            var max_val := PoolWindow(s, input, b, c, oh, ow);
            OutIndexInRange(s, b, c, oh, ow);
            var out_idx := s.OutIndex(b, c, oh, ow);
            ghost var before := output[..];
            output[out_idx] := max_val;
            assert output[..] == before[out_idx := max_val];
            writes := writes + [out_idx];
            FillNext(before, output[..], s, x, b, c, oh, ow);
            NextColumn(s, b, c, oh, ow);
          }
          Carry(s, b, c, oh);
        }
        Carry(s, b, c, 0);
      }
      Carry(s, b, 0, 0);
    }
    Carry(s, 0, 0, 0);
    FilledIsPooled(s, x, output[..]);
  }

  lemma NextColumn(s: Sizes, b: int, c: int, oh: int, ow: int)
    requires s.stride > 0
    ensures s.OutIndex(b, c, oh, ow + 1) == s.OutIndex(b, c, oh, ow) + 1
  {
    hide OutSize;
  }

  lemma SizeNonNegative(a: nat, b: nat, c: int, d: int)
    requires c >= 0 && d >= 0
    ensures a * b * c * d >= 0
  {
    Product(0, a, b);
    Product(0, a * b, c);
    Product(0, a * b * c, d);
  }

  lemma NothingFilled(out: seq<Float>, s: Sizes, x: seq<Float>)
    requires s.stride > 0
    ensures Filled(out, s, x, 0)
  {
  }
}
