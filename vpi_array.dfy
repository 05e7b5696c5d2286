/**
 * The element stepping of vl_get_value_array and vl_put_value_array
 * (include/verilated_vpi.cpp): starting at the storage position of the
 * requested index, num elements are read or written, moving one position up
 * when the range's left bound is its low bound and one down otherwise,
 * wrapping around at both ends. Elements are modelled by their values; how
 * each format cuts an element into words or bytes is given by the codecs
 * at the end of the module.
 */
module VpiArray {
  import opened Bits
  import opened Wrappers

  // Stepping

  /** The storage position after index. */
  function NextIndex(index: nat, size: nat, leftIsLow: bool): (r: nat)
    requires index < size
    ensures r < size
    ensures leftIsLow ==> r == (index + 1) % size
    ensures !leftIsLow ==> r == (index + size - 1) % size
  {
    if leftIsLow then
      if index == size - 1 then
        DivModUnique(size, size, 1, 0);
        0
      else
        DivModUnique(index + 1, size, 0, index + 1);
        index + 1
    else
      if index == 0 then
        DivModUnique(size - 1, size, 0, size - 1);
        size - 1
      else
        DivModUnique(index + size - 1, size, 1, index - 1);
        index - 1
  }

  /** The storage position of the i-th element read or written. */
  function Visit(index: nat, size: nat, leftIsLow: bool, i: nat): (r: nat)
    requires index < size
    ensures r < size
    decreases i
  {
    if i == 0 then index else Visit(NextIndex(index, size, leftIsLow), size, leftIsLow, i - 1)
  }

  lemma {:induction false} VisitNext(index: nat, size: nat, leftIsLow: bool, i: nat)
    requires index < size
    ensures Visit(index, size, leftIsLow, i + 1) == NextIndex(Visit(index, size, leftIsLow, i), size, leftIsLow)
    decreases i
  {
    if i > 0 {
      VisitNext(NextIndex(index, size, leftIsLow), size, leftIsLow, i - 1);
    }
  }

  lemma ModUp(a: nat, n: nat)
    requires n >= 1
    ensures (a % n + 1) % n == (a + 1) % n
  {
    DivMod(a, n);
    DivAddMul(a % n + 1, n, a / n);
  }

  lemma ModDown(a: int, n: nat)
    requires n >= 1
    ensures (a % n + n - 1) % n == (a - 1) % n
  {
    var q, r := a / n, a % n;
    DivMod(a, n);
    if r >= 1 {
      IntDivModUnique(a - 1, n, q, r - 1);
      DivModUnique(r + n - 1, n, 1, r - 1);
    } else {
      IntDivModUnique(a - 1, n, q - 1, n - 1);
      DivModUnique(n - 1, n, 0, n - 1);
    }
  }

  /** The i-th position is index + i, or index - i, modulo the size. */
  lemma {:induction false} VisitClosed(index: nat, size: nat, leftIsLow: bool, i: nat)
    requires index < size
    ensures leftIsLow ==> Visit(index, size, leftIsLow, i) == (index + i) % size
    ensures !leftIsLow ==> Visit(index, size, leftIsLow, i) == (index - i) % size
    decreases i
  {
    if i == 0 {
      DivModUnique(index, size, 0, index);
    } else {
      VisitClosed(index, size, leftIsLow, i - 1);
      VisitNext(index, size, leftIsLow, i - 1);
      var p := Visit(index, size, leftIsLow, i - 1);
      assert Visit(index, size, leftIsLow, i) == NextIndex(p, size, leftIsLow);
      if leftIsLow {
        assert p == (index + (i - 1)) % size;
        ModUp(index + (i - 1), size);
        assert NextIndex(p, size, true) == (p + 1) % size;
      } else {
        assert p == (index - (i - 1)) % size;
        ModDown(index - (i - 1), size);
        assert NextIndex(p, size, false) == (p + size - 1) % size;
      }
    }
  }

  lemma ModDistinct(x: int, y: int, n: nat)
    requires n >= 1 && x < y < x + n
    ensures x % n != y % n
  {
    DivMod(x, n);
    DivMod(y, n);
    if x % n == y % n {
      assert n * (y / n - x / n) == y - x;
      MulAtLeast(n, y / n - x / n);
    }
  }

  /** Up to size steps never come back to a position: no element is read or written twice. */
  lemma VisitDistinct(index: nat, size: nat, leftIsLow: bool, i: nat, j: nat)
    requires index < size && i < j < size
    ensures Visit(index, size, leftIsLow, i) != Visit(index, size, leftIsLow, j)
  {
    VisitClosed(index, size, leftIsLow, i);
    VisitClosed(index, size, leftIsLow, j);
    if leftIsLow {
      ModDistinct(index + i, index + j, size);
    } else {
      ModDistinct(index - j, index - i, size);
    }
  }

  // Positions and indices

  /** A VerilatedRange as vl_*_value_array use it: its left bound and its low and high bounds. */
  datatype Range = Range(left: int, right: int)
  {
    function Low(): int { if left < right then left else right }
    function High(): int { if left > right then left else right }
    function Elements(): nat { High() - Low() + 1 }
    predicate LeftIsLow() { left == Low() }
  }

  /** The storage position of index in the range: its distance from the left bound. */
  function StartIndex(rng: Range, index: int): (r: nat)
    requires rng.Low() <= index <= rng.High()
    ensures r < rng.Elements()
    ensures Element(rng, r) == index
  {
    if rng.LeftIsLow() then index - rng.left else rng.left - index
  }

  /** The index whose element is at storage position p. */
  function Element(rng: Range, p: nat): int
  {
    if rng.LeftIsLow() then rng.left + p else rng.left - p
  }

  /** The index after e, wrapping from the high bound to the low one. */
  function NextElement(rng: Range, e: int): (r: int)
    ensures rng.Low() <= e <= rng.High() ==> rng.Low() <= r <= rng.High()
  {
    if e == rng.High() then rng.Low() else e + 1
  }

  /** In both orientations of the range one step moves to the next higher index. */
  lemma StepIsNextElement(rng: Range, p: nat)
    requires p < rng.Elements()
    ensures Element(rng, NextIndex(p, rng.Elements(), rng.LeftIsLow())) == NextElement(rng, Element(rng, p))
  {
  }

  /** The index reached from index by i steps to the next higher index. */
  function ElementAt(rng: Range, index: int, i: nat): (r: int)
    ensures rng.Low() <= index <= rng.High() ==> rng.Low() <= r <= rng.High()
    decreases i
  {
    if i == 0 then index else ElementAt(rng, NextElement(rng, index), i - 1)
  }

  /**
   * The i-th element read or written from the requested index is the one
   * i indices higher, wrapping around, whichever way the range runs.
   */
  lemma {:induction false} VisitsAscending(rng: Range, index: int, i: nat)
    requires rng.Low() <= index <= rng.High()
    ensures Element(rng, Visit(StartIndex(rng, index), rng.Elements(), rng.LeftIsLow(), i)) == ElementAt(rng, index, i)
    decreases i
  {
    if i > 0 {
      var p := StartIndex(rng, index);
      var q := NextIndex(p, rng.Elements(), rng.LeftIsLow());
      StepIsNextElement(rng, p);
      assert StartIndex(rng, NextElement(rng, index)) == q;
      VisitsAscending(rng, NextElement(rng, index), i - 1);
    }
  }

  // The stepping loops

  /** The read loops: src holds the elements in storage order. */
  method GetElements(index: nat, num: nat, leftIsLow: bool, src: seq<nat>) returns (dst: seq<nat>)
    requires index < |src|
    ensures |dst| == num
    ensures forall i | 0 <= i < num :: dst[i] == src[Visit(index, |src|, leftIsLow, i)]
  {
    dst := [];
    var idx := index;
    var i := 0;
    while i < num
      invariant i <= num && |dst| == i && idx == Visit(index, |src|, leftIsLow, i)
      invariant forall k | 0 <= k < i :: dst[k] == src[Visit(index, |src|, leftIsLow, k)]
    {
      dst := dst + [src[idx]];
      VisitNext(index, |src|, leftIsLow, i);
      idx := NextIndex(idx, |src|, leftIsLow);
      i := i + 1;
    }
  }

  /** The storage after writing vals one by one from position index. */
  function Scatter(s: seq<nat>, index: nat, vals: seq<nat>, leftIsLow: bool): (r: seq<nat>)
    requires index < |s|
    ensures |r| == |s|
    decreases |vals|
  {
    if vals == [] then s
    else Scatter(s[index := vals[0]], NextIndex(index, |s|, leftIsLow), vals[1..], leftIsLow)
  }

  /** The write loops, in place on the variable's storage. */
  method PutElements(index: nat, vals: seq<nat>, leftIsLow: bool, dst: array<nat>)
    requires index < dst.Length
    modifies dst
    ensures dst[..] == Scatter(old(dst[..]), index, vals, leftIsLow)
  {
    var idx: nat := index;
    var i := 0;
    while i < |vals|
      invariant i <= |vals| && idx < dst.Length
      invariant Scatter(dst[..], idx, vals[i..], leftIsLow) == Scatter(old(dst[..]), index, vals, leftIsLow)
    {
      assert vals[i..][1..] == vals[i + 1..];
      dst[idx] := vals[i];
      idx := NextIndex(idx, dst.Length, leftIsLow);
      i := i + 1;
    }
    assert vals[i..] == [];
  }

  /** A position no step reaches keeps its element. */
  lemma {:induction false} ScatterOutside(s: seq<nat>, index: nat, vals: seq<nat>, leftIsLow: bool, p: nat)
    requires index < |s| && p < |s|
    requires forall j | 0 <= j < |vals| :: Visit(index, |s|, leftIsLow, j) != p
    ensures Scatter(s, index, vals, leftIsLow)[p] == s[p]
    decreases |vals|
  {
    if vals != [] {
      var next := NextIndex(index, |s|, leftIsLow);
      assert Visit(index, |s|, leftIsLow, 0) != p;
      forall j | 0 <= j < |vals| - 1
        ensures Visit(next, |s|, leftIsLow, j) != p
      {
        assert Visit(index, |s|, leftIsLow, j + 1) == Visit(next, |s|, leftIsLow, j);
      }
      ScatterOutside(s[index := vals[0]], next, vals[1..], leftIsLow, p);
    }
  }

  /** With no more values than elements, the i-th written value is found at the i-th position. */
  lemma {:induction false} ScatterAt(s: seq<nat>, index: nat, vals: seq<nat>, leftIsLow: bool, i: nat)
    requires index < |s| && |vals| <= |s| && i < |vals|
    ensures Scatter(s, index, vals, leftIsLow)[Visit(index, |s|, leftIsLow, i)] == vals[i]
    decreases |vals|
  {
    var next := NextIndex(index, |s|, leftIsLow);
    var s1 := s[index := vals[0]];
    if i == 0 {
      forall j | 0 <= j < |vals| - 1
        ensures Visit(next, |s|, leftIsLow, j) != index
      {
        assert Visit(index, |s|, leftIsLow, j + 1) == Visit(next, |s|, leftIsLow, j);
        VisitDistinct(index, |s|, leftIsLow, 0, j + 1);
      }
      ScatterOutside(s1, next, vals[1..], leftIsLow, index);
    } else {
      ScatterAt(s1, next, vals[1..], leftIsLow, i - 1);
    }
  }

  /** Writing elements and reading them back from the same index gives the written values. */
  lemma PutThenGet(s: seq<nat>, index: nat, vals: seq<nat>, leftIsLow: bool)
    requires index < |s| && |vals| <= |s|
    ensures forall i | 0 <= i < |vals| :: Scatter(s, index, vals, leftIsLow)[Visit(index, |s|, leftIsLow, i)] == vals[i]
  {
    forall i | 0 <= i < |vals|
      ensures Scatter(s, index, vals, leftIsLow)[Visit(index, |s|, leftIsLow, i)] == vals[i]
    {
      ScatterAt(s, index, vals, leftIsLow, i);
    }
  }

  // The entry points

  /** Why vpi_get_value_array or vpi_put_value_array does nothing. */
  datatype ArrayError = IndexOutOfBounds | UserAllocFlag | ReadOnly | UnsupportedFlags | TooManyElements

  /**
   * vpi_get_value_array and vl_get_value_array on a variable of range rng
   * whose elements, in storage order, are src: an index outside the range,
   * a caller asking for vpiUserAllocFlag (userAlloc) and more elements than
   * the array holds are errors, tested in that order; otherwise the i-th
   * value read is the element i indices above the requested one, wrapping
   * around.
   */
  method GetValueArray(rng: Range, index: int, num: nat, userAlloc: bool, src: seq<nat>) returns (r: Result<seq<nat>, ArrayError>)
    requires |src| == rng.Elements()
    ensures r == Err(IndexOutOfBounds) <==> index < rng.Low() || index > rng.High()
    ensures r == Err(UserAllocFlag) <==> rng.Low() <= index <= rng.High() && userAlloc
    ensures r == Err(TooManyElements) <==> rng.Low() <= index <= rng.High() && !userAlloc && num > |src|
    ensures r.Ok? ==> |r.value| == num
    ensures r.Ok? ==> forall i | 0 <= i < num ::
              r.value[i] == src[StartIndex(rng, ElementAt(rng, index, i))]
  {
    if index > rng.High() || index < rng.Low() {
      return Err(IndexOutOfBounds);
    }
    if userAlloc {
      return Err(UserAllocFlag);
    }
    if num > |src| {
      return Err(TooManyElements);
    }
    var start := StartIndex(rng, index);
    var dst := GetElements(start, num, rng.LeftIsLow(), src);
    forall i | 0 <= i < num
      ensures dst[i] == src[StartIndex(rng, ElementAt(rng, index, i))]
    {
      VisitsAscending(rng, index, i);
      StorageOfElement(rng, Visit(start, |src|, rng.LeftIsLow(), i));
    }
    return Ok(dst);
  }

  /** The storage position of the index held at position p is p. */
  lemma StorageOfElement(rng: Range, p: nat)
    requires p < rng.Elements()
    ensures rng.Low() <= Element(rng, p) <= rng.High()
    ensures StartIndex(rng, Element(rng, p)) == p
  {
  }

  /**
   * vpi_put_value_array and vl_put_value_array: an index outside the
   * range, a variable not public read-write (publicRW false), a caller
   * asking for vpiPropagateOff or vpiOneValue (propagateOff, oneValue) and
   * more values than the array holds are errors, tested in that order,
   * which leave the array as it was; otherwise the values are written one
   * by one from the requested index upwards, wrapping around.
   */
  method PutValueArray(rng: Range, index: int, publicRW: bool, propagateOff: bool, oneValue: bool, vals: seq<nat>, dst: array<nat>)
    returns (r: Result<(), ArrayError>)
    requires dst.Length == rng.Elements()
    modifies dst
    ensures r == Err(IndexOutOfBounds) <==> index < rng.Low() || index > rng.High()
    ensures r == Err(ReadOnly) <==> rng.Low() <= index <= rng.High() && !publicRW
    ensures r == Err(UnsupportedFlags) <==> rng.Low() <= index <= rng.High() && publicRW && (propagateOff || oneValue)
    ensures r == Err(TooManyElements) <==>
              rng.Low() <= index <= rng.High() && publicRW && !propagateOff && !oneValue && |vals| > dst.Length
    ensures r.Err? ==> dst[..] == old(dst[..])
    ensures r.Ok? ==> dst[..] == Scatter(old(dst[..]), StartIndex(rng, index), vals, rng.LeftIsLow())
    ensures r.Ok? ==> forall i | 0 <= i < |vals| :: dst[StartIndex(rng, ElementAt(rng, index, i))] == vals[i]
  {
    if index > rng.High() || index < rng.Low() {
      return Err(IndexOutOfBounds);
    }
    if !publicRW {
      return Err(ReadOnly);
    }
    if propagateOff || oneValue {
      return Err(UnsupportedFlags);
    }
    if |vals| > dst.Length {
      return Err(TooManyElements);
    }
    var start := StartIndex(rng, index);
    ghost var before := dst[..];
    PutElements(start, vals, rng.LeftIsLow(), dst);
    forall i | 0 <= i < |vals|
      ensures dst[StartIndex(rng, ElementAt(rng, index, i))] == vals[i]
    {
      ScatterAt(before, start, vals, rng.LeftIsLow(), i);
      VisitsAscending(rng, index, i);
      StorageOfElement(rng, Visit(start, dst.Length, rng.LeftIsLow(), i));
    }
    return Ok(());
  }

  // Element codecs

  /** 256^n: the range of n bytes. */
  function BytePow(n: nat): (r: nat)
    ensures r >= 1
  {
    if n == 0 then 1 else 256 * BytePow(n - 1)
  }

  /** VL_BYTES_I: the bytes of an element of the given packed width. */
  function ElementBytes(packedSize: nat): nat
  {
    (packedSize + 7) / 8
  }

  /**
   * vl_put_value_array_integrals stores each value under a mask of the
   * element's whole bytes: all ones when the element fills the source
   * type of srcBytes bytes, its low bytes otherwise.
   */
  function IntegralMasked(v: nat, elemBytes: nat, srcBytes: nat): nat
  {
    if elemBytes == srcBytes then v else v % BytePow(elemBytes)
  }

  lemma IntegralMaskedBytes(v: nat, elemBytes: nat, srcBytes: nat)
    requires v < BytePow(srcBytes) && elemBytes <= srcBytes
    ensures IntegralMasked(v, elemBytes, srcBytes) == v % BytePow(elemBytes)
    ensures IntegralMasked(v, elemBytes, srcBytes) < BytePow(elemBytes)
  {
    if elemBytes == srcBytes {
      DivModUnique(v, BytePow(elemBytes), 0, v);
    }
  }

  /** The mask keeps whole bytes: a 3-bit element written with 255 holds 255, more than 3 bits. */
  lemma IntegralMaskKeepsByte()
    ensures ElementBytes(3) == 1 && IntegralMasked(255, ElementBytes(3), 4) == 255
    ensures 255 >= Pow2(3)
  {
    Pow2Small();
    assert BytePow(1) == 256;
  }

  const WordMod := 0x1_0000_0000

  /** The 32-bit words of an element, least significant first, as vl_get_value_array_vectors reads them. */
  function Words(e: nat, n: nat): (r: seq<nat>)
    ensures |r| == n
    decreases n
  {
    if n == 0 then [] else [e % WordMod] + Words(e / WordMod, n - 1)
  }

  /** 2^(32 n). */
  function WordPow(n: nat): (r: nat)
    ensures r >= 1
  {
    if n == 0 then 1 else WordMod * WordPow(n - 1)
  }

  /** The value of 32-bit words, least significant first. */
  function WordsValue(ws: seq<nat>): nat
    decreases |ws|
  {
    if ws == [] then 0 else ws[0] + WordMod * WordsValue(ws[1..])
  }

  lemma DivLessPow(e: nat, d: nat, p: nat)
    requires d >= 1 && e < d * p
    ensures e / d < p
  {
    DivMod(e, d);
    if e / d >= p {
      MulMono(d, p, e / d);
    }
  }

  /** Reading an element as words and putting the words together gives back the element. */
  lemma {:induction false} WordsRoundTrip(e: nat, n: nat)
    requires e < WordPow(n)
    ensures WordsValue(Words(e, n)) == e
    decreases n
  {
    if n > 0 {
      DivMod(e, WordMod);
      DivLessPow(e, WordMod, WordPow(n - 1));
      WordsRoundTrip(e / WordMod, n - 1);
    }
  }

  /**
   * vl_put_value_array_vectors on a 64-bit element: the low word as is, the
   * high word shifted by 32 in 64 bits and masked to the element's bytes.
   */
  function QuadJoin(lo: nat, hi: nat, elemBytes: nat): nat
  {
    var shifted := (hi * WordMod) % (WordMod * WordMod);
    lo + (if elemBytes == 8 then shifted else shifted % BytePow(elemBytes))
  }

  /** The 64-bit path agrees with the words of the element: it keeps the element's bytes of both words. */
  lemma QuadJoinWords(lo: nat, hi: nat, elemBytes: nat)
    requires lo < WordMod && hi < WordMod && 5 <= elemBytes <= 8
    ensures QuadJoin(lo, hi, elemBytes) == WordsValue([lo, hi]) % BytePow(elemBytes)
  {
    assert WordsValue([lo, hi]) == lo + WordMod * hi by {
      assert [lo, hi][1..] == [hi] && [hi][1..] == [];
      assert WordsValue([hi]) == hi;
    }
    // hi * 2^32 is below 2^64, so the 64-bit shift loses nothing
    assert (hi * WordMod) % (WordMod * WordMod) == hi * WordMod by {
      MulMono(WordMod, hi + 1, WordMod);
      DivModUnique(hi * WordMod, WordMod * WordMod, 0, hi * WordMod);
    }
    if elemBytes == 8 {
      assert BytePow(8) == WordMod * WordMod;
      assert (lo + WordMod * hi) % (WordMod * WordMod) == lo + hi * WordMod by {
        MulMono(WordMod, hi + 1, WordMod);
        DivModUnique(lo + hi * WordMod, WordMod * WordMod, 0, lo + hi * WordMod);
      }
    } else {
      var m := BytePow(elemBytes - 4);
      assert BytePow(elemBytes) == WordMod * m by {
        assert BytePow(4) == WordMod;
        BytePowAdd(4, elemBytes - 4);
      }
      QuadMasked(lo, hi, m);
    }
  }

  /** Masking to 2^32 m keeps the low word and the high word modulo m. */
  lemma QuadMasked(lo: nat, hi: nat, m: nat)
    requires lo < WordMod && m >= 1
    ensures (hi * WordMod) % (WordMod * m) == (hi % m) * WordMod
    ensures (lo + WordMod * hi) % (WordMod * m) == lo + (hi % m) * WordMod
  {
    DivMod(hi, m);
    var q, r := hi / m, hi % m;
    assert hi * WordMod == (WordMod * m) * q + r * WordMod;
    MulMono(WordMod, r + 1, m);
    DivModUnique(hi * WordMod, WordMod * m, q, r * WordMod);
    DivModUnique(lo + WordMod * hi, WordMod * m, q, lo + r * WordMod);
  }

  lemma {:induction false} BytePowAdd(a: nat, b: nat)
    ensures BytePow(a + b) == BytePow(a) * BytePow(b)
    decreases a
  {
    if a > 0 {
      BytePowAdd(a - 1, b);
    }
  }

  lemma {:induction false} BytePowMono(a: nat, b: nat)
    requires a <= b
    ensures BytePow(a) <= BytePow(b)
    decreases b
  {
    if a < b {
      BytePowMono(a, b - 1);
    }
  }

  /** The bytes of an element, least significant first, as vl_get_value_array_rawvals emits them. */
  function Bytes(e: nat, n: nat): (r: seq<nat>)
    ensures |r| == n
    decreases n
  {
    if n == 0 then [] else [e % 256] + Bytes(e / 256, n - 1)
  }

  function BytesValue(bs: seq<nat>): nat
    decreases |bs|
  {
    if bs == [] then 0 else bs[0] + 256 * BytesValue(bs[1..])
  }

  /** vl_put_value_array_rawvals: the element's low bytes are replaced, its other bytes kept. */
  function SetLowBytes(e: nat, bs: seq<nat>): nat
  {
    var p := BytePow(|bs|);
    DivNat(e, p);
    p * (e / p) + BytesValue(bs)
  }

  lemma DivNat(e: nat, p: nat)
    requires p >= 1
    ensures e / p >= 0 && p * (e / p) >= 0
  {
    DivMod(e, p);
    MulAtLeast(p, e / p);
  }

  /** Writing bytes into an element and reading that many back gives the bytes. */
  lemma {:induction false} BytesOfSetLow(e: nat, bs: seq<nat>)
    requires forall k | 0 <= k < |bs| :: bs[k] < 256
    ensures Bytes(SetLowBytes(e, bs), |bs|) == bs
    decreases |bs|
  {
    if bs != [] {
      var p := BytePow(|bs| - 1);
      DivNat(e, 256 * p);
      var h: nat := e / (256 * p);
      MulAtLeast(p, h);
      var e': nat := p * h;
      var rest := BytesValue(bs[1..]);
      assert SetLowBytes(e, bs) == bs[0] + 256 * (e' + rest) by {
        assert SetLowBytes(e, bs) == (256 * p) * h + BytesValue(bs);
      }
      DivModUnique(SetLowBytes(e, bs), 256, e' + rest, bs[0]);
      DivModUnique(e', p, h, 0);
      assert SetLowBytes(e', bs[1..]) == e' + rest;
      BytesOfSetLow(e', bs[1..]);
    }
  }

  /** The output chunk of one element: its bytes, then as many zero bytes (its bval) in the four-state format. */
  function RawChunk(e: nat, elemBytes: nat, fourState: bool): (r: seq<nat>)
    ensures |r| == ChunkLength(elemBytes, fourState)
    ensures r[..elemBytes] == Bytes(e, elemBytes)
  {
    Bytes(e, elemBytes) + (if fourState then seq(elemBytes, _ => 0) else [])
  }

  /** The chunks one after the other. */
  function Flatten<T>(cs: seq<seq<T>>): seq<T>
    decreases |cs|
  {
    if cs == [] then [] else cs[0] + Flatten(cs[1..])
  }

  function RawChunks(es: seq<nat>, elemBytes: nat, fourState: bool): (r: seq<seq<nat>>)
    ensures |r| == |es| && forall j | 0 <= j < |es| :: r[j] == RawChunk(es[j], elemBytes, fourState)
    decreases |es|
  {
    if es == [] then [] else [RawChunk(es[0], elemBytes, fourState)] + RawChunks(es[1..], elemBytes, fourState)
  }

  /** The rawvals read out: the chunks of the elements, one after the other. */
  function RawOut(es: seq<nat>, elemBytes: nat, fourState: bool): (r: seq<nat>)
  {
    Flatten(RawChunks(es, elemBytes, fourState))
  }

  /** Where vl_put_value_array_rawvals reads the bytes of the i-th element. */
  function RawOffset(i: nat, elemBytes: nat, fourState: bool): nat
  {
    if fourState then (i * elemBytes) * 2 else i * elemBytes
  }

  lemma SliceAfter<T>(a: seq<T>, b: seq<T>, k: nat, l: nat)
    requires |a| <= k <= l <= |a| + |b|
    ensures (a + b)[k..l] == b[k - |a|..l - |a|]
  {
  }

  /** The start of the i-th chunk of length c. */
  function ChunkStart(i: nat, c: nat): nat
  {
    if i == 0 then 0 else c + ChunkStart(i - 1, c)
  }

  lemma {:induction false} ChunkStartIs(i: nat, c: nat)
    ensures ChunkStart(i, c) == i * c
  {
    if i > 0 {
      ChunkStartIs(i - 1, c);
    }
  }

  /** In chunks of one length c, the i-th chunk starts at ChunkStart(i, c). */
  lemma {:induction false} FlattenAt<T>(cs: seq<seq<T>>, c: nat, i: nat, n: nat)
    requires i < |cs| && n <= c && forall j | 0 <= j < |cs| :: |cs[j]| == c
    ensures ChunkStart(i, c) + n <= |Flatten(cs)|
    ensures Flatten(cs)[ChunkStart(i, c)..ChunkStart(i, c) + n] == cs[i][..n]
    decreases i
  {
    assert Flatten(cs) == cs[0] + Flatten(cs[1..]);
    if i == 0 {
      assert (cs[0] + Flatten(cs[1..]))[0..n] == cs[0][..n];
    } else {
      FlattenAt(cs[1..], c, i - 1, n);
      var k := ChunkStart(i - 1, c);
      assert cs[1..][i - 1] == cs[i];
      SliceAfter(cs[0], Flatten(cs[1..]), c + k, c + k + n);
    }
  }

  /**
   * The formats agree: the put loop reads the i-th element's bytes where
   * the get loop wrote them, in both the two-state and four-state layouts.
   */
  lemma RawLayout(es: seq<nat>, elemBytes: nat, fourState: bool, i: nat)
    requires i < |es|
    ensures RawOffset(i, elemBytes, fourState) + elemBytes <= |RawOut(es, elemBytes, fourState)|
    ensures RawOut(es, elemBytes, fourState)[RawOffset(i, elemBytes, fourState)..RawOffset(i, elemBytes, fourState) + elemBytes]
            == Bytes(es[i], elemBytes)
  {
    var c := ChunkLength(elemBytes, fourState);
    var cs := RawChunks(es, elemBytes, fourState);
    RawOffsetIs(i, elemBytes, fourState);
    FlattenAt(cs, c, i, elemBytes);
    assert cs[i][..elemBytes] == Bytes(es[i], elemBytes);
  }

  function ChunkLength(elemBytes: nat, fourState: bool): nat
  {
    if fourState then 2 * elemBytes else elemBytes
  }

  lemma RawOffsetIs(i: nat, elemBytes: nat, fourState: bool)
    ensures RawOffset(i, elemBytes, fourState) == ChunkStart(i, ChunkLength(elemBytes, fourState))
  {
    ChunkStartIs(i, ChunkLength(elemBytes, fourState));
  }

  /** Two's complement reading of a value of n bytes: the shortints and integers of the array value are signed. */
  function AsSigned(v: nat, n: nat): (r: int)
    requires n >= 1 && v < BytePow(n)
    ensures -(BytePow(n) / 2) <= r < BytePow(n) / 2
    ensures r % BytePow(n) == v
  {
    var p := BytePow(n);
    BytePowEven(n);
    if v >= p / 2 then
      IntDivModUnique(v - p, p, -1, v);
      v - p
    else
      DivModUnique(v, p, 0, v);
      v
  }

  lemma BytePowEven(n: nat)
    requires n >= 1
    ensures BytePow(n) % 2 == 0 && BytePow(n) / 2 >= 1
  {
    DivModUnique(BytePow(n), 2, 128 * BytePow(n - 1), 0);
  }

  /** A 16-bit element with its top bit set reads as a negative shortint. */
  lemma ShortIntNegative()
    ensures AsSigned(0xFFFF, 2) == -1 && AsSigned(0x7FFF, 2) == 0x7FFF
  {
    assert BytePow(2) == 0x1_0000 by {
      assert BytePow(1) == 256;
    }
  }

  /** VL_WORDS_I: the 32-bit words of an element of the given byte count. */
  function ElementWords(elemBytes: nat): nat
  {
    (elemBytes + 3) / 4
  }

  /**
   * vl_put_value_array_vectors on elements stored in words of 32 bits or
   * fewer: each word takes the aval of the value's word under a mask of the
   * bytes of the element not yet stored, all ones once four or more remain.
   */
  function MaskedWords(ws: seq<nat>, bytesLeft: nat): (r: seq<nat>)
    decreases |ws|
  {
    if ws == [] || bytesLeft == 0 then []
    else if bytesLeft >= 4 then [ws[0] % WordMod] + MaskedWords(ws[1..], bytesLeft - 4)
    else [ws[0] % BytePow(bytesLeft)]
  }

  /** The masked words hold the element's bytes of the value, and nothing above them. */
  lemma {:induction false} MaskedWordsValue(ws: seq<nat>, elemBytes: nat)
    requires |ws| == ElementWords(elemBytes) && forall k | 0 <= k < |ws| :: ws[k] < WordMod
    ensures WordsValue(MaskedWords(ws, elemBytes)) == WordsValue(ws) % BytePow(elemBytes)
    decreases |ws|
  {
    if elemBytes == 0 {
      assert ws == [];
    } else if elemBytes <= 4 {
      assert |ws| == 1;
      assert ws[1..] == [];
      var m := ws[0] % BytePow(elemBytes);
      assert MaskedWords(ws, elemBytes) == [m];
      assert [m][1..] == [];
      if elemBytes == 4 {
        assert BytePow(4) == WordMod;
      }
    } else {
      var rest := ws[1..];
      assert forall k | 0 <= k < |rest| :: rest[k] < WordMod by {
        forall k | 0 <= k < |rest| ensures rest[k] < WordMod { assert rest[k] == ws[k + 1]; }
      }
      MaskedWordsValue(rest, elemBytes - 4);
      DivModUnique(ws[0], WordMod, 0, ws[0]);
      var mw := MaskedWords(ws, elemBytes);
      assert mw == [ws[0]] + MaskedWords(rest, elemBytes - 4);
      assert mw[1..] == MaskedWords(rest, elemBytes - 4);
      var m := BytePow(elemBytes - 4);
      assert BytePow(elemBytes) == WordMod * m by {
        assert BytePow(4) == WordMod;
        BytePowAdd(4, elemBytes - 4);
      }
      QuadMasked(ws[0], WordsValue(rest), m);
    }
  }

  /** 2^(32 n) is 256^(4 n). */
  lemma {:induction false} WordPowBytes(n: nat)
    ensures WordPow(n) == BytePow(4 * n)
  {
    if n > 0 {
      WordPowBytes(n - 1);
      assert BytePow(4) == WordMod;
      BytePowAdd(4, 4 * (n - 1));
    }
  }

  lemma {:induction false} WordsBelow(e: nat, n: nat)
    ensures forall k | 0 <= k < n :: Words(e, n)[k] < WordMod
    decreases n
  {
    if n > 0 {
      WordsBelow(e / WordMod, n - 1);
      forall k | 0 <= k < n ensures Words(e, n)[k] < WordMod {
        if k > 0 {
          assert Words(e, n)[k] == Words(e / WordMod, n - 1)[k - 1];
        }
      }
    }
  }

  /**
   * Reading an element as words and putting those words back stores the
   * element again, for an element that fits its bytes.
   */
  lemma VectorWordsRoundTrip(e: nat, elemBytes: nat)
    requires e < BytePow(elemBytes)
    ensures WordsValue(MaskedWords(Words(e, ElementWords(elemBytes)), elemBytes)) == e
  {
    var n := ElementWords(elemBytes);
    WordsBelow(e, n);
    MaskedWordsValue(Words(e, n), elemBytes);
    WordPowBytes(n);
    BytePowMono(elemBytes, 4 * n);
    WordsRoundTrip(e, n);
    DivModUnique(e, BytePow(elemBytes), 0, e);
  }
}
