/**
 * Indexing into array variables through the VPI (include/verilated_vpi.cpp):
 * the element count of a variable handle (VerilatedVpioVarBase::size), the
 * handle of one element (VerilatedVpioVar::withIndex), and the iterator over
 * all elements of the unpacked dimensions (VerilatedVpioRegIter), a
 * mixed-radix counter whose last dimension runs fastest.
 *
 * VerilatedRange is not part of this model: a range is its left and right
 * bound (VpiArray.Range), and its increment is +1 when left >= right and -1
 * otherwise, so that stepping from the right bound moves towards the left.
 */
module VpiIter {
  import opened Wrappers
  import opened Bits
  import opened VpiArray

  /** The step of VerilatedRange::increment. */
  function Increment(rng: Range): (r: int)
    ensures r == 1 || r == -1
  {
    if rng.left >= rng.right then 1 else -1
  }

  predicate InRange(rng: Range, v: int)
  {
    rng.Low() <= v <= rng.High()
  }

  /** How many increments v lies away from the right bound. */
  function Digit(rng: Range, v: int): int
  {
    (v - rng.right) * Increment(rng)
  }

  /** A value lies in the range exactly when its digit counts fewer increments than there are elements. */
  lemma DigitInRange(rng: Range, v: int)
    ensures InRange(rng, v) <==> 0 <= Digit(rng, v) < rng.Elements()
    ensures Digit(rng, v + Increment(rng)) == Digit(rng, v) + 1
    ensures Digit(rng, rng.right) == 0
  {
  }

  // ---- Variable handles ----

  /** What a VerilatedVar tells about its shape: all dimensions, unpacked first, and the element size in bytes. */
  datatype VarInfo = VarInfo(ranges: seq<Range>, udims: nat, entSize: nat)

  /** A VerilatedVpioVar: the variable, the last indexed dimension (-1 for none), the indices, and where its data starts. */
  datatype VarHandle = VarHandle(info: VarInfo, indexedDim: int, index: seq<int>, dataOffset: int, bitOffset: int)
  {
    ghost predicate Valid()
    {
      info.udims <= |info.ranges| && -1 <= indexedDim < |info.ranges| && |index| == indexedDim + 1
    }

    predicate IsIndexedDimUnpacked()
    {
      indexedDim + 1 < info.udims
    }

    function MaxDim(onlyUnpacked: bool): int
    {
      if onlyUnpacked then info.udims - 1 else |info.ranges| - 1
    }
  }

  /** The product of the element counts of the ranges. */
  function Product(rs: seq<Range>): nat
  {
    if rs == [] then 1 else Product(rs[..|rs| - 1]) * rs[|rs| - 1].Elements()
  }

  lemma MulAssoc(a: int, b: int, c: int)
    ensures a * (b * c) == (a * b) * c
  {
  }

  lemma MulLe(a: int, b: int, c: nat)
    requires a <= b
    ensures a * c <= b * c
  {
  }

  lemma {:induction false} ProductPositive(rs: seq<Range>)
    ensures Product(rs) >= 1
  {
    if rs != [] {
      ProductPositive(rs[..|rs| - 1]);
      MulAtLeast(rs[|rs| - 1].Elements(), Product(rs[..|rs| - 1]));
    }
  }

  lemma {:induction false} ProductSplit(rs: seq<Range>, a: nat, b: nat, c: nat)
    requires a <= b <= c <= |rs|
    ensures Product(rs[a..c]) == Product(rs[a..b]) * Product(rs[b..c])
    decreases c - b
  {
    if b < c {
      ProductSplit(rs, a, b, c - 1);
      assert rs[a..c][..c - a - 1] == rs[a..c - 1];
      assert rs[b..c][..c - b - 1] == rs[b..c - 1];
      var x, y, e := Product(rs[a..b]), Product(rs[b..c - 1]), rs[c - 1].Elements();
      assert Product(rs[a..c]) == (x * y) * e;
      assert Product(rs[b..c]) == y * e;
      MulAssoc(x, y, e);
    } else {
      assert rs[b..c] == [];
    }
  }

  lemma ProductSingle(rs: seq<Range>, d: nat)
    requires d < |rs|
    ensures Product(rs[d..d + 1]) == rs[d].Elements()
  {
    assert rs[d..d + 1][..0] == [];
  }

  /** The product of the element counts of the dimensions after the indexed one, up to the unpacked/packed boundary. */
  function Size(h: VarHandle): (r: nat)
    requires h.Valid()
  {
    Product(h.info.ranges[h.indexedDim + 1..h.MaxDim(h.IsIndexedDimUnpacked()) + 1])
  }

  /** The number of elements one index of the next dimension spans. */
  function ChunkSize(h: VarHandle): (r: nat)
    requires h.Valid() && h.indexedDim + 1 < |h.info.ranges|
  {
    Product(h.info.ranges[h.indexedDim + 2..h.MaxDim(h.IsIndexedDimUnpacked()) + 1])
  }

  /** The next dimension's elements times the chunk they each span is the handle's size. */
  lemma SizeIsChunks(h: VarHandle)
    requires h.Valid() && h.indexedDim + 1 < |h.info.ranges|
    ensures Size(h) == h.info.ranges[h.indexedDim + 1].Elements() * ChunkSize(h)
    ensures ChunkSize(h) >= 1
  {
    var rs := h.info.ranges;
    var a := h.indexedDim + 1;
    var m := h.MaxDim(h.IsIndexedDimUnpacked()) + 1;
    ProductSplit(rs, a, a + 1, m);
    ProductSingle(rs, a);
    ProductPositive(rs[a + 1..m]);
  }

  /** size(): the product loop. */
  method ComputeSize(h: VarHandle) returns (size: nat)
    requires h.Valid()
    ensures size == Size(h)
  {
    var maxDimNum := h.MaxDim(h.IsIndexedDimUnpacked());
    var rs := h.info.ranges;
    var a := h.indexedDim + 1;
    size := 1;
    var dim := a;
    assert rs[a..a] == [];
    while dim <= maxDimNum
      invariant a <= dim <= maxDimNum + 1
      invariant size == Product(rs[a..dim])
    {
      assert rs[a..dim + 1][..dim - a] == rs[a..dim];
      size := size * rs[dim].Elements();
      dim := dim + 1;
    }
  }

  /**
   * withIndex(index): no handle once every dimension is indexed; otherwise
   * the index is appended and the data of the element located: an unpacked
   * dimension moves the data start by the bytes of a chunk per index above
   * the low bound, a packed one moves the bit offset by its bits.
   */
  function WithIndex(h: VarHandle, index: int): (r: Option<VarHandle>)
    requires h.Valid()
    ensures r.None? <==> h.indexedDim + 1 >= |h.info.ranges|
    ensures r.Some? ==>
      (r.value.Valid() && r.value.info == h.info
       && r.value.indexedDim == h.indexedDim + 1 && r.value.index == h.index + [index])
  {
    if h.indexedDim + 1 >= |h.info.ranges| then None
    else
      var step := ChunkSize(h) * (index - h.info.ranges[h.indexedDim + 1].Low());
      if h.IsIndexedDimUnpacked() then
        Some(VarHandle(h.info, h.indexedDim + 1, h.index + [index], h.dataOffset + h.info.entSize * step, h.bitOffset))
      else
        Some(VarHandle(h.info, h.indexedDim + 1, h.index + [index], h.dataOffset, h.bitOffset + step))
  }

  /** The chunk-size loop of withIndex, from the maximum dimension down. */
  method ComputeChunkSize(h: VarHandle) returns (chunkSize: nat)
    requires h.Valid() && h.indexedDim + 1 < |h.info.ranges|
    ensures chunkSize == ChunkSize(h)
  {
    var rs := h.info.ranges;
    var a := h.indexedDim + 1;
    var top := h.MaxDim(h.IsIndexedDimUnpacked());
    chunkSize := 1;
    var dim := top;
    assert rs[top + 1..top + 1] == [];
    while dim > a
      invariant a <= dim <= top
      invariant chunkSize == Product(rs[dim + 1..top + 1])
    {
      var e := rs[dim].Elements();
      ProductSplit(rs, dim, dim + 1, top + 1);
      ProductSingle(rs, dim);
      assert Product(rs[dim..top + 1]) == e * chunkSize;
      chunkSize := chunkSize * e;
      dim := dim - 1;
    }
  }

  /** withIndex with its chunk-size loop. */
  method WithIndexLoop(h: VarHandle, index: int) returns (r: Option<VarHandle>)
    requires h.Valid()
    ensures r == WithIndex(h, index)
  {
    if h.indexedDim + 1 >= |h.info.ranges| {
      return None;
    }
    var chunkSize := ComputeChunkSize(h);
    var low := h.info.ranges[h.indexedDim + 1].Low();
    if h.IsIndexedDimUnpacked() {
      r := Some(VarHandle(h.info, h.indexedDim + 1, h.index + [index], h.dataOffset + h.info.entSize * (chunkSize * (index - low)), h.bitOffset));
    } else {
      r := Some(VarHandle(h.info, h.indexedDim + 1, h.index + [index], h.dataOffset, h.bitOffset + chunkSize * (index - low)));
    }
  }

  /**
   * An index within the range selects one of the chunks that make up the
   * handle's size: the element's data starts within the handle's data, with
   * room for a whole chunk after it.
   */
  lemma WithIndexInside(h: VarHandle, index: int)
    requires h.Valid() && h.indexedDim + 1 < |h.info.ranges|
    requires InRange(h.info.ranges[h.indexedDim + 1], index)
    ensures var r := WithIndex(h, index).value;
      if h.IsIndexedDimUnpacked() then
        h.dataOffset <= r.dataOffset
        && r.dataOffset + h.info.entSize * ChunkSize(h) <= h.dataOffset + h.info.entSize * Size(h)
      else
        h.bitOffset <= r.bitOffset && r.bitOffset + ChunkSize(h) <= h.bitOffset + Size(h)
  {
    var rng := h.info.ranges[h.indexedDim + 1];
    var k := index - rng.Low();
    var c := ChunkSize(h);
    SizeIsChunks(h);
    MulLe(k + 1, rng.Elements(), c);
    MulLe(0, k, c);
    assert (k + 1) * c == k * c + c;
    assert rng.Elements() * c == Size(h);
    var e := h.info.entSize;
    MulMono(e, k * c + c, Size(h));
    MulMono(e, 0, k * c);
    assert e * (k * c + c) == e * (c * k) + e * c;
  }

  lemma MulNonZero(a: int, b: int)
    requires a != 0 && b != 0
    ensures a * b != 0
  {
  }

  /** Distinct indices select distinct element positions. */
  lemma WithIndexDistinct(h: VarHandle, i: int, j: int)
    requires h.Valid() && h.indexedDim + 1 < |h.info.ranges| && i != j
    requires h.IsIndexedDimUnpacked() ==> h.info.entSize > 0
    ensures h.IsIndexedDimUnpacked() ==> WithIndex(h, i).value.dataOffset != WithIndex(h, j).value.dataOffset
    ensures !h.IsIndexedDimUnpacked() ==> WithIndex(h, i).value.bitOffset != WithIndex(h, j).value.bitOffset
  {
    var low := h.info.ranges[h.indexedDim + 1].Low();
    var c := ChunkSize(h);
    SizeIsChunks(h);
    assert c * (i - low) - c * (j - low) == c * (i - j);
    MulNonZero(c, i - j);
    var e := h.info.entSize;
    if h.IsIndexedDimUnpacked() {
      assert e * (c * (i - low)) - e * (c * (j - low)) == e * (c * (i - j));
      MulNonZero(e, c * (i - j));
    }
  }

  /** The handle reached by indexing h with each index of the tuple in turn. */
  function WithIndices(h: VarHandle, tuple: seq<int>): (r: Option<VarHandle>)
    requires h.Valid()
    ensures h.indexedDim + |tuple| < |h.info.ranges| ==> r.Some? && r.value.Valid() && r.value.index == h.index + tuple
    decreases |tuple|
  {
    if tuple == [] then Some(h)
    else
      match WithIndex(h, tuple[0])
      case None => None
      case Some(h1) =>
        var r := WithIndices(h1, tuple[1..]);
        assert h1.index + tuple[1..] == h.index + tuple;
        r
  }

  // ---- The odometer ----

  /** The counter value of the first n positions: digits in mixed radix, most significant first. */
  function ValueTo(rs: seq<Range>, v: seq<int>, n: nat): int
    requires n <= |rs| && n <= |v|
  {
    if n == 0 then 0 else ValueTo(rs, v, n - 1) * rs[n - 1].Elements() + Digit(rs[n - 1], v[n - 1])
  }

  /** Positions 1 .. n-1 hold values within their range, position 0 a digit of at least 0. */
  ghost predicate DigitsOk(rs: seq<Range>, v: seq<int>, n: nat)
    requires n <= |rs| && n <= |v|
  {
    (n > 0 ==> Digit(rs[0], v[0]) >= 0) && forall j | 1 <= j < n :: InRange(rs[j], v[j])
  }

  lemma ValueToFrame(rs: seq<Range>, v: seq<int>, w: seq<int>, n: nat)
    requires n <= |rs| && n <= |v| && n <= |w| && forall j | 0 <= j < n :: v[j] == w[j]
    ensures ValueTo(rs, v, n) == ValueTo(rs, w, n)
  {
  }

  /**
   * The value is below the product of the element counts exactly when the
   * leading digit is still within its range.
   */
  lemma {:induction false} ValueBelowProduct(rs: seq<Range>, v: seq<int>, n: nat)
    requires 1 <= n <= |rs| && n <= |v| && DigitsOk(rs, v, n)
    ensures 0 <= ValueTo(rs, v, n)
    ensures Digit(rs[0], v[0]) < rs[0].Elements() <==> ValueTo(rs, v, n) < Product(rs[..n])
  {
    if n == 1 {
      assert ValueTo(rs, v, 0) == 0;
      assert ValueTo(rs, v, 1) == Digit(rs[0], v[0]);
      assert rs[..1][..0] == [];
      assert Product(rs[..1]) == rs[0].Elements();
    } else {
      ValueBelowProduct(rs, v, n - 1);
      assert rs[..n][..n - 1] == rs[..n - 1];
      var a := ValueTo(rs, v, n - 1);
      var p := Product(rs[..n - 1]);
      var e := rs[n - 1].Elements();
      var d := Digit(rs[n - 1], v[n - 1]);
      DigitInRange(rs[n - 1], v[n - 1]);
      assert 0 <= d < e;
      assert ValueTo(rs, v, n) == a * e + d;
      assert Product(rs[..n]) == p * e;
      MulLe(0, a, e);
      if a < p {
        MulLe(a + 1, p, e);
        MulSucc(a, e);
        assert ValueTo(rs, v, n) < Product(rs[..n]);
      } else {
        MulLe(p, a, e);
        assert ValueTo(rs, v, n) >= Product(rs[..n]);
      }
    }
  }

  /** The carry loop of dovpi_scan from position it down, as a function. */
  function Carry(rs: seq<Range>, v: seq<int>, it: nat): (r: seq<int>)
    requires it < |rs| == |v|
    ensures |r| == |v|
    decreases it
  {
    var n := v[it] + Increment(rs[it]);
    if InRange(rs[it], n) then v[it := n]
    else if it > 0 then Carry(rs, v[it := rs[it].right], it - 1)
    else v[it := n]
  }

  lemma CarryKeepsLater(rs: seq<Range>, v: seq<int>, it: nat)
    requires it < |rs| == |v|
    ensures forall j | it < j < |v| :: Carry(rs, v, it)[j] == v[j]
    decreases it
  {
    if it > 0 {
      CarryKeepsLater(rs, v[it := rs[it].right], it - 1);
    }
  }

  /** The last position overflows: it restarts at the right bound and the carry goes on. */
  lemma {:induction false} CarryOverflow(rs: seq<Range>, v: seq<int>, it: nat)
    requires 0 < it < |rs| == |v| && InRange(rs[it], v[it]) && !InRange(rs[it], v[it] + Increment(rs[it]))
    requires ValueTo(rs, Carry(rs, v[it := rs[it].right], it - 1), it) == ValueTo(rs, v, it) + 1
    ensures ValueTo(rs, Carry(rs, v, it), it + 1) == ValueTo(rs, v, it + 1) + 1
  {
    var rng := rs[it];
    DigitInRange(rng, v[it]);
    DigitInRange(rng, rng.right);
    CarryKeepsLater(rs, v[it := rng.right], it - 1);
    var w := Carry(rs, v[it := rng.right], it - 1);
    assert Carry(rs, v, it) == w;
    assert w[it] == rng.right;
    var a := ValueTo(rs, v, it);
    var e := rng.Elements();
    assert Digit(rng, v[it]) == e - 1;
    assert ValueTo(rs, v, it + 1) == a * e + (e - 1);
    assert ValueTo(rs, w, it) == a + 1;
    assert Digit(rng, w[it]) == 0;
    assert ValueTo(rs, w, it + 1) == ValueTo(rs, w, it) * e + Digit(rng, w[it]);
    MulSucc(a, e);
  }

  lemma MulSucc(a: int, e: int)
    ensures (a + 1) * e == a * e + e
  {
  }

  /** The carry adds one to the counter of the first it+1 positions. */
  lemma {:induction false} CarryAddsOne(rs: seq<Range>, v: seq<int>, it: nat)
    requires it < |rs| == |v| && DigitsOk(rs, v, it + 1) && InRange(rs[0], v[0])
    ensures ValueTo(rs, Carry(rs, v, it), it + 1) == ValueTo(rs, v, it + 1) + 1
    ensures DigitsOk(rs, Carry(rs, v, it), it + 1)
    decreases it
  {
    var rng := rs[it];
    var n := v[it] + Increment(rng);
    DigitInRange(rng, v[it]);
    DigitInRange(rs[0], v[0]);
    ValueToFrame(rs, v, v[it := n], it);
    if InRange(rng, n) {
      if it > 0 {
        assert v[it := n][0] == v[0];
      }
    } else if it > 0 {
      var v1 := v[it := rng.right];
      DigitInRange(rng, rng.right);
      ValueToFrame(rs, v, v1, it);
      assert DigitsOk(rs, v1, it);
      CarryAddsOne(rs, v1, it - 1);
      CarryOverflow(rs, v, it);
      CarryKeepsLater(rs, v1, it - 1);
    } else {
      DigitInRange(rng, n);
      assert ValueTo(rs, v, 0) == 0;
    }
  }

  /** All positions at their right bound: the counter is zero. */
  lemma {:induction false} ZeroValue(rs: seq<Range>, v: seq<int>, n: nat)
    requires n <= |rs| == |v| && forall j | 0 <= j < |v| :: v[j] == rs[j].right
    ensures ValueTo(rs, v, n) == 0 && DigitsOk(rs, v, n)
  {
    if n > 0 {
      ZeroValue(rs, v, n - 1);
      DigitInRange(rs[n - 1], v[n - 1]);
    }
    forall j | 0 <= j < n ensures Digit(rs[j], v[j]) == 0 && InRange(rs[j], v[j]) {
      DigitInRange(rs[j], v[j]);
    }
  }

  /**
   * The iterator's state: the counter of nextIndex equals the number of
   * tuples handed out, at most the number of elements, and the k-th tuple
   * handed out is the one whose counter is k, with every index in range.
   */
  ghost predicate OdometerOk(rs: seq<Range>, v: seq<int>, yielded: seq<seq<int>>)
  {
    && |rs| == |v| > 0
    && DigitsOk(rs, v, |rs|)
    && ValueTo(rs, v, |rs|) == |yielded| <= Product(rs)
    && forall k | 0 <= k < |yielded| ::
         |yielded[k]| == |rs| && (forall j | 0 <= j < |rs| :: InRange(rs[j], yielded[k][j]))
         && ValueTo(rs, yielded[k], |rs|) == k
  }

  /** The iterator has tuples left exactly while the leading index lies in its range. */
  lemma OdometerEnd(rs: seq<Range>, v: seq<int>, yielded: seq<seq<int>>)
    requires OdometerOk(rs, v, yielded)
    ensures InRange(rs[0], v[0]) <==> |yielded| < Product(rs)
  {
    DigitInRange(rs[0], v[0]);
    ValueBelowProduct(rs, v, |rs|);
    assert rs[..|rs|] == rs;
  }

  /** No tuple is handed out twice. */
  lemma OdometerDistinct(rs: seq<Range>, v: seq<int>, yielded: seq<seq<int>>, a: nat, b: nat)
    requires OdometerOk(rs, v, yielded) && a < b < |yielded|
    ensures yielded[a] != yielded[b]
  {
    assert ValueTo(rs, yielded[a], |rs|) == a && ValueTo(rs, yielded[b], |rs|) == b;
  }

  /** Handing out the current tuple and carrying keeps the state. */
  lemma OdometerStep(rs: seq<Range>, v: seq<int>, yielded: seq<seq<int>>)
    requires OdometerOk(rs, v, yielded) && InRange(rs[0], v[0])
    ensures OdometerOk(rs, Carry(rs, v, |rs| - 1), yielded + [v])
  {
    OdometerEnd(rs, v, yielded);
    CarryAddsOne(rs, v, |rs| - 1);
    var y := yielded + [v];
    forall k | 0 <= k < |y|
      ensures |y[k]| == |rs| && (forall j | 0 <= j < |rs| :: InRange(rs[j], y[k][j])) && ValueTo(rs, y[k], |rs|) == k
    {
      if k == |yielded| {
        forall j | 0 <= j < |rs| ensures InRange(rs[j], v[j]) {
        }
      }
    }
  }

  /** The start of an iteration: every index at its right bound, nothing handed out. */
  lemma OdometerStart(rs: seq<Range>, v: seq<int>)
    requires |rs| == |v| > 0 && forall j | 0 <= j < |v| :: v[j] == rs[j].right
    ensures OdometerOk(rs, v, [])
  {
    ZeroValue(rs, v, |rs|);
    ProductPositive(rs);
  }

  /**
   * VerilatedVpioRegIter: scans the elements of the unpacked dimensions of a
   * variable handle that follow its indexed ones. The ghost field yielded
   * records the index tuples handed out so far.
   */
  class RegIter {
    const base: VarHandle
    const maxDim: int
    var ranges: seq<Range>
    var nextIndex: seq<int>
    /** The iterator released itself (vpi_scan returned null). */
    var released: bool
    ghost var yielded: seq<seq<int>>

    ghost predicate Valid()
      reads this
    {
      && base.Valid() && maxDim == base.info.udims - 1
      && |ranges| == |nextIndex|
      && base.indexedDim + |ranges| < |base.info.ranges|
      && (base.indexedDim < maxDim <==> |ranges| > 0)
      && (|ranges| > 0 ==> OdometerOk(ranges, nextIndex, yielded))
      && (|ranges| == 0 ==> yielded == [])
    }

    constructor (vop: VarHandle)
      requires vop.Valid()
      ensures Valid() && !released && yielded == [] && base == vop
      ensures ranges == if vop.indexedDim + 1 <= vop.info.udims then vop.info.ranges[vop.indexedDim + 1..vop.info.udims] else []
      ensures |nextIndex| == |ranges| && forall j | 0 <= j < |ranges| :: nextIndex[j] == ranges[j].right
    {
      base := vop;
      maxDim := vop.info.udims - 1;
      var rs := if vop.indexedDim + 1 <= vop.info.udims then vop.info.ranges[vop.indexedDim + 1..vop.info.udims] else [];
      ranges := rs;
      nextIndex := seq(|rs|, j requires 0 <= j < |rs| => rs[j].right);
      released := false;
      yielded := [];
      new;
      if |ranges| > 0 {
        OdometerStart(ranges, nextIndex);
      }
    }

    /** The carry loop of dovpi_scan: the last dimension steps on, carrying into the earlier ones. */
    method Advance()
      requires |ranges| == |nextIndex| > 0
      modifies this`nextIndex
      ensures nextIndex == Carry(ranges, old(nextIndex), |ranges| - 1)
    {
      ghost var target := Carry(ranges, nextIndex, |ranges| - 1);
      var it := |ranges| - 1;
      while it >= 0
        invariant -1 <= it < |ranges| && |nextIndex| == |ranges|
        invariant it >= 0 ==> Carry(ranges, nextIndex, it) == target
        invariant it < 0 ==> nextIndex == target
        decreases it
      {
        ghost var v := nextIndex;
        var next := nextIndex[it] + Increment(ranges[it]);
        nextIndex := nextIndex[it := next];
        if ranges[it].Low() <= next <= ranges[it].High() {
          assert nextIndex == Carry(ranges, v, it);
          break;
        } else if it > 0 {
          nextIndex := nextIndex[it := ranges[it].right];
          assert nextIndex == v[it := ranges[it].right];
        }
        it := it - 1;
      }
    }

    /**
     * dovpi_scan: null (and the iterator released) for a variable with no
     * unpacked dimension left to iterate, or once the counter has run past
     * the last element; otherwise the handle of the element at the current
     * indices, after which the counter steps on.
     */
    method Scan() returns (h: Option<VarHandle>)
      requires Valid() && !released
      modifies this`nextIndex, this`released, this`yielded
      ensures Valid()
      ensures h.None? <==> |ranges| == 0 || |old(yielded)| == Product(ranges)
      ensures h.None? ==> released && yielded == old(yielded)
      ensures h.Some? ==> !released && yielded == old(yielded) + [old(nextIndex)]
                          && h == WithIndices(base, old(nextIndex))
    {
      if base.indexedDim >= maxDim {
        released := true;
        return None;
      }
      OdometerEnd(ranges, nextIndex, yielded);
      if nextIndex[0] > ranges[0].High() || nextIndex[0] < ranges[0].Low() {
        released := true;
        return None;
      }
      h := WithIndices(base, nextIndex);
      OdometerStep(ranges, nextIndex, yielded);
      yielded := yielded + [nextIndex];
      Advance();
    }
  }
}
