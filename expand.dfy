/**
 * Lowering of operations on values wider than 64 bits into assignments and
 * expressions over their 32-bit words.
 *
 * A value is its list of bits, least significant first; its length is its
 * width. A 32-bit word (EData) is a list of exactly 32 bits. Word w of a
 * value holds its bits 32*w .. 32*w+31, and bits past the width, or at a
 * negative position, read as 0. The generated expressions are modelled by
 * the word they evaluate to; each rule is proved to produce, word by word,
 * the words of the whole-vector result.
 */
module Expand {
  import opened Wrappers
  import opened VlOs

  type Bits = seq<bool>

  /** Bit j of a value, 0 outside its width. */
  function Bit(v: Bits, j: int): bool
  {
    0 <= j < |v| && v[j]
  }

  /** Word w of a value (w may be negative or past the last word: then 0). */
  function Word(v: Bits, w: int): (r: Bits)
    ensures |r| == 32 && forall k | 0 <= k < 32 :: r[k] == Bit(v, 32 * w + k)
  {
    seq(32, k => Bit(v, 32 * w + k))
  }

  /** The value zero-extended or truncated to n bits. */
  function Pad(v: Bits, n: nat): (r: Bits)
    ensures |r| == n && forall k | 0 <= k < n :: r[k] == Bit(v, k)
  {
    seq(n, k => Bit(v, k))
  }

  /** x >> n at the width of x. */
  function ShrN(x: Bits, n: nat): (r: Bits)
    ensures |r| == |x| && forall k | 0 <= k < |x| :: r[k] == Bit(x, k + n)
  {
    seq(|x|, k => Bit(x, k + n))
  }

  // ---------------------------------------------------------------------
  // Operations on 32-bit words, as C evaluates them on uint32_t

  /** The word 0. */
  function Zeros(): (r: Bits)
    ensures |r| == 32 && forall k | 0 <= k < 32 :: !r[k]
  {
    seq(32, k => false)
  }

  /** The word with every bit set. */
  function AllOnes(): (r: Bits)
    ensures |r| == 32 && forall k | 0 <= k < 32 :: r[k]
  {
    seq(32, k => true)
  }

  function AndW(a: Bits, b: Bits): (r: Bits)
    ensures |r| == 32 && forall k | 0 <= k < 32 :: r[k] == (Bit(a, k) && Bit(b, k))
  {
    seq(32, k => Bit(a, k) && Bit(b, k))
  }

  function OrW(a: Bits, b: Bits): (r: Bits)
    ensures |r| == 32 && forall k | 0 <= k < 32 :: r[k] == (Bit(a, k) || Bit(b, k))
  {
    seq(32, k => Bit(a, k) || Bit(b, k))
  }

  function XorW(a: Bits, b: Bits): (r: Bits)
    ensures |r| == 32 && forall k | 0 <= k < 32 :: r[k] == (Bit(a, k) != Bit(b, k))
  {
    seq(32, k => Bit(a, k) != Bit(b, k))
  }

  function NotW(a: Bits): (r: Bits)
    ensures |r| == 32 && forall k | 0 <= k < 32 :: r[k] == !Bit(a, k)
  {
    seq(32, k => !Bit(a, k))
  }

  /** a << n on a 32-bit word, for n < 32. */
  function ShlW(a: Bits, n: nat): (r: Bits)
    ensures |r| == 32 && forall k | 0 <= k < 32 :: r[k] == Bit(a, k - n)
  {
    seq(32, k => Bit(a, k - n))
  }

  /** a >> n on a 32-bit word. */
  function ShrW(a: Bits, n: nat): (r: Bits)
    ensures |r| == 32 && forall k | 0 <= k < 32 :: r[k] == Bit(a, k + n)
  {
    seq(32, k => Bit(a, k + n))
  }

  /** VL_MASK_E(n): the low n mod 32 bits set, or all 32 bits when n is a multiple of 32. */
  function MaskE(n: nat): (r: Bits)
    ensures |r| == 32 && forall k | 0 <= k < 32 :: r[k] == (n % 32 == 0 || k < n % 32)
  {
    seq(32, k => n % 32 == 0 || k < n % 32)
  }

  // ---------------------------------------------------------------------
  // Storage classes and one word of a value

  /** isWide: more than 64 bits, stored as an array of words. */
  predicate IsWide(width: nat) { width > 64 }
  /** isQuad: 33 to 64 bits, stored in a uint64_t. */
  predicate IsQuad(width: nat) { 32 < width <= 64 }

  /** The expressions newAstWordSelClone builds for one word of a value. */
  datatype WordSource =
    | WordSel(index: nat)  // element index of the word array
    | QuadLow              // (uint32_t)v of a 64-bit value
    | QuadHigh             // (uint32_t)(v >> 32) of a 64-bit value
    | Narrow               // the value itself, at most 32 bits
    | ZeroConst            // the constant 0

  /**
   * newAstWordSelClone: the expression for word `word` of a value of the
   * given width; out-of-range and negative words become the constant 0.
   */
  function WordSelClone(width: nat, word: int): (r: WordSource)
    ensures r.WordSel? ==> IsWide(width) && r.index == word && word < WordsI(width)
    ensures width > 0 ==> (r.ZeroConst? <==> !(0 <= word < WordsI(width)))
  {
    if IsWide(width) && 0 <= word < WordsI(width) then WordSel(word)
    else if IsQuad(width) && word == 0 then QuadLow
    else if IsQuad(width) && word == 1 then QuadHigh
    else if !IsWide(width) && !IsQuad(width) && word == 0 then Narrow
    else ZeroConst
  }

  /** The 32-bit value each of those expressions evaluates to. */
  function EvalSource(src: WordSource, v: Bits): Bits
  {
    match src
    case WordSel(i) => Word(v, i)
    case QuadLow => Pad(Pad(v, 64), 32)
    case QuadHigh => Pad(ShrN(Pad(v, 64), 32), 32)
    case Narrow => Pad(v, 32)
    case ZeroConst => Zeros()
  }

  /** Past the last word of a value, every word is 0. */
  lemma WordPastEnd(v: Bits, w: int)
    requires w < 0 || w >= WordsI(|v|)
    ensures Word(v, w) == Zeros()
  {
    forall k | 0 <= k < 32 ensures Word(v, w)[k] == Zeros()[k] {
      if w >= WordsI(|v|) {
        assert 32 * w >= 32 * WordsI(|v|) >= |v|;
      }
    }
  }

  /** newAstWordSelClone yields word `word` of the value, for every storage class and word. */
  lemma WordSelCloneIsWord(v: Bits, word: int)
    ensures EvalSource(WordSelClone(|v|, word), v) == Word(v, word)
  {
    var src := WordSelClone(|v|, word);
    var r := EvalSource(src, v);
    if src.ZeroConst? {
      WordPastEnd(v, word);
    } else {
      forall k | 0 <= k < 32 ensures r[k] == Word(v, word)[k] {
      }
    }
  }

  /** One bit of the word newAstWordSelClone yields. */
  lemma WordSelCloneBit(v: Bits, word: int, j: nat)
    requires j < 32
    ensures |EvalSource(WordSelClone(|v|, word), v)| == 32
    ensures EvalSource(WordSelClone(|v|, word), v)[j] == Bit(v, 32 * word + j)
  {
    WordSelCloneIsWord(v, word);
  }

  /** The same, with the bit position of the value given. */
  lemma WordSelCloneAt(v: Bits, word: int, j: nat, pos: int)
    requires j < 32 && pos == 32 * word + j
    ensures EvalSource(WordSelClone(|v|, word), v)[j] == Bit(v, pos)
  {
    WordSelCloneBit(v, word, j);
  }

  // ---------------------------------------------------------------------
  // Word count helpers

  /** longOrQuadWidth: the width rounded up to a multiple of 32. */
  function LongOrQuadWidth(width: nat): (r: nat)
    ensures r % 32 == 0 && width <= r < width + 32
  {
    (width + 31) - (width + 31) % 32
  }

  /**
   * newWordSel: the word index that holds bit lsb of the value, offset by
   * wordOffset words, or the constant 0 when the offset is past the value.
   * A constant lsb is divided by 32 at compile time and a variable one
   * shifted right by 5 in the generated code, which on an unsigned value is
   * the same division.
   */
  function NewWordSel(fromWidth: nat, lsb: nat, wordOffset: nat): (r: Option<nat>)
    ensures r.Some? <==> wordOffset < WordsI(fromWidth)
  {
    if wordOffset >= WordsI(fromWidth) then None
    else Some(wordOffset + lsb / 32)
  }

  /** The word newWordSel selects, read at bit lsb mod 32, is bit lsb of the offset value. */
  lemma NewWordSelReadsBit(v: Bits, lsb: nat, wordOffset: nat)
    requires wordOffset < WordsI(|v|)
    ensures Word(v, NewWordSel(|v|, lsb, wordOffset).value)[lsb % 32] ==
      Bit(v, 32 * wordOffset + lsb)
  {
  }

  // ---------------------------------------------------------------------
  // Shifted words

  /** The value shifted left by s bits (its width grows by s). */
  function ShiftLeft(v: Bits, s: nat): (r: Bits)
    ensures |r| == |v| + s
  {
    seq(s, _ => false) + v
  }

  lemma BitShiftLeft(v: Bits, s: nat, j: int)
    ensures Bit(ShiftLeft(v, s), j) == (j >= s && Bit(v, j - s))
  {
  }

  /**
   * newWordGrabShift: word `word` of lhs shifted left by `shift`, built from
   * word q of lhs shifted up by r and the top r bits of word q - 1, where
   * q = word - shift / 32 and r = shift mod 32.
   */
  function GrabShift(lhs: Bits, word: int, shift: nat): Bits
  {
    var othword := word - shift / 32;
    var llow := EvalSource(WordSelClone(|lhs|, othword), lhs);
    var loffset := shift % 32;
    if loffset != 0 then
      var lhi := EvalSource(WordSelClone(|lhs|, othword - 1), lhs);
      MergeShifted(llow, lhi, loffset)
    else llow
  }

  /** (MASK_E(r) & (lhi >> (32 - r))) | (~MASK_E(r) & (llow << r)) */
  function MergeShifted(llow: Bits, lhi: Bits, loffset: nat): Bits
    requires 0 < loffset < 32
  {
    var nbitsonright := 32 - loffset;
    OrW(AndW(MaskE(loffset), ShrW(lhi, nbitsonright)),
        AndW(NotW(MaskE(loffset)), ShlW(llow, loffset)))
  }

  /** The low r bits come from the top of lhi, the others from llow moved up by r. */
  lemma MergeShiftedBit(llow: Bits, lhi: Bits, r: nat, k: nat)
    requires 0 < r < 32 && k < 32 && |llow| == 32 && |lhi| == 32
    ensures MergeShifted(llow, lhi, r)[k] == if k < r then lhi[k + 32 - r] else llow[k - r]
  {
    assert MaskE(r)[k] == (k < r);
  }

  /** A shift by whole words: bit k of the word comes from word q below. */
  lemma GrabShiftAlignedBit(lhs: Bits, word: int, shift: nat, k: nat)
    requires k < 32 && shift % 32 == 0
    ensures |GrabShift(lhs, word, shift)| == 32
    ensures GrabShift(lhs, word, shift)[k] == Bit(lhs, 32 * word + k - shift)
  {
    var q := shift / 32;
    assert GrabShift(lhs, word, shift) == EvalSource(WordSelClone(|lhs|, word - q), lhs);
    WordSelCloneBit(lhs, word - q, k);
    assert 32 * (word - q) + k == 32 * word + k - shift;
  }

  lemma GrabShiftMerged(lhs: Bits, word: int, shift: nat)
    requires shift % 32 != 0
    ensures GrabShift(lhs, word, shift) ==
      MergeShifted(EvalSource(WordSelClone(|lhs|, word - shift / 32), lhs),
                   EvalSource(WordSelClone(|lhs|, word - shift / 32 - 1), lhs), shift % 32)
  {
  }

  /** A shift with a bit offset r: bit k comes from the word below (k < r) or word q. */
  lemma GrabShiftSplitBit(lhs: Bits, word: int, shift: nat, k: nat)
    requires k < 32 && shift % 32 != 0
    ensures |GrabShift(lhs, word, shift)| == 32
    ensures GrabShift(lhs, word, shift)[k] == Bit(lhs, 32 * word + k - shift)
  {
    var q, r := shift / 32, shift % 32;
    GrabShiftMerged(lhs, word, shift);
    WordSelCloneIsWord(lhs, word - q);
    WordSelCloneIsWord(lhs, word - q - 1);
    MergeWordsBit(lhs, word - q, r, k);
    assert shift == 32 * q + r;
    assert 32 * (word - q) + k - r == 32 * word + k - shift;
  }

  /** Merging words w and w - 1 of a value with offset r reads the value r bits down. */
  lemma MergeWordsBit(lhs: Bits, w: int, r: nat, k: nat)
    requires 0 < r < 32 && k < 32
    ensures MergeShifted(Word(lhs, w), Word(lhs, w - 1), r)[k] == Bit(lhs, 32 * w + k - r)
  {
    MergeShiftedBit(Word(lhs, w), Word(lhs, w - 1), r, k);
    if k < r {
      assert Word(lhs, w - 1)[k + 32 - r] == Bit(lhs, 32 * (w - 1) + (k + 32 - r));
    }
  }

  /** Bit k of newWordGrabShift is the bit of lhs that lands there after the shift. */
  lemma GrabShiftBit(lhs: Bits, word: int, shift: nat, k: nat)
    requires k < 32
    ensures |GrabShift(lhs, word, shift)| == 32
    ensures GrabShift(lhs, word, shift)[k] == Bit(lhs, 32 * word + k - shift)
  {
    if shift % 32 == 0 {
      GrabShiftAlignedBit(lhs, word, shift, k);
    } else {
      GrabShiftSplitBit(lhs, word, shift, k);
    }
  }

  /** newWordGrabShift yields word `word` of lhs << shift. */
  lemma GrabShiftIsShiftedWord(lhs: Bits, word: int, shift: nat)
    ensures GrabShift(lhs, word, shift) == Word(ShiftLeft(lhs, shift), word)
  {
    var g := GrabShift(lhs, word, shift);
    var e := Word(ShiftLeft(lhs, shift), word);
    GrabShiftBit(lhs, word, shift, 0);
    forall k | 0 <= k < 32 ensures g[k] == e[k] {
      GrabShiftBit(lhs, word, shift, k);
      BitShiftLeft(lhs, shift, 32 * word + k);
    }
  }

  // ---------------------------------------------------------------------
  // CONCAT

  /** {lhs, rhs}: rhs in the low bits, lhs above it. */
  function Concat(lhs: Bits, rhs: Bits): Bits
  {
    rhs + lhs
  }

  /** The bits of v at or above m are all 0. */
  predicate CleanAbove(v: Bits, m: nat)
  {
    forall j | m <= j < |v| :: !v[j]
  }

  /** The word the rule for ASSIGN(CONCAT) assigns to word w. */
  function ConcatWord(lhs: Bits, rhs: Bits, rhsMin: nat, w: int): Bits
  {
    OrW(GrabShift(lhs, w, rhsMin), EvalSource(WordSelClone(|rhs|, w), rhs))
  }

  /**
   * Each word of the lowered concatenation is the word of {lhs, rhs}, where
   * rhs counts with its minimum width; this holds when rhs has no bits set
   * above that width.
   */
  lemma ConcatWordIsWord(lhs: Bits, rhs: Bits, rhsMin: nat, w: int)
    requires rhsMin <= |rhs| && CleanAbove(rhs, rhsMin)
    ensures ConcatWord(lhs, rhs, rhsMin, w) == Word(Concat(lhs, rhs[..rhsMin]), w)
  {
    GrabShiftIsShiftedWord(lhs, w, rhsMin);
    WordSelCloneIsWord(rhs, w);
    var c := ConcatWord(lhs, rhs, rhsMin, w);
    var e := Word(Concat(lhs, rhs[..rhsMin]), w);
    forall k | 0 <= k < 32 ensures c[k] == e[k] {
      BitShiftLeft(lhs, rhsMin, 32 * w + k);
    }
  }

  // ---------------------------------------------------------------------
  // The word assignments inserted in place of a wide assignment

  /** An assignment of one word of the destination: dest[word] = value. */
  datatype WordAssign = WordAssign(word: nat, value: Bits)

  /**
   * The lowering state: the word assignments inserted before the assignment
   * being lowered, in order, and the statistics counters.
   */
  class ExpandVisitor {
    const expandLimit: nat
    var inserted: seq<WordAssign>
    var statWides: nat
    var statWideWords: nat
    var statWideLimited: nat

    constructor (expandLimit: nat)
      ensures this.expandLimit == expandLimit && inserted == []
      ensures statWides == 0 && statWideWords == 0 && statWideLimited == 0
    {
      this.expandLimit := expandLimit;
      inserted := [];
      statWides := 0;
      statWideWords := 0;
      statWideLimited := 0;
    }

    /**
     * doExpandWide: lower a node only when it is pure and has no more words
     * than the expansion limit; count wide nodes, expanded words and nodes
     * left whole because of the limit.
     */
    method DoExpandWide(impure: bool, widthWords: nat) returns (ok: bool)
      modifies this
      ensures ok <==> !impure && widthWords <= expandLimit
      ensures inserted == old(inserted)
      ensures statWides == old(statWides) + (if impure then 0 else 1)
      ensures statWideWords == old(statWideWords) + (if ok then widthWords else 0)
      ensures statWideLimited == old(statWideLimited) + (if !impure && !ok then 1 else 0)
    {
      if impure {
        return false;
      }
      statWides := statWides + 1;
      if widthWords <= expandLimit {
        statWideWords := statWideWords + widthWords;
        ok := true;
      } else {
        statWideLimited := statWideLimited + 1;
        ok := false;
      }
    }

    /** Append dest[word] = value before the assignment being lowered. */
    method AddWordAssign(word: nat, value: Bits)
      modifies this
      ensures inserted == old(inserted) + [WordAssign(word, value)]
      ensures statWides == old(statWides) && statWideWords == old(statWideWords)
      ensures statWideLimited == old(statWideLimited)
    {
      inserted := inserted + [WordAssign(word, value)];
    }

    /**
     * ASSIGN(EXTEND): copy each word of the source, then assign 0 to every
     * higher word of the destination; together they are the words of the
     * zero-extended source.
     */
    method ExpandWideExtend(src: Bits, destWidth: nat, impure: bool) returns (done: bool)
      requires |src| <= destWidth
      modifies this
      ensures done <==> !impure && WordsI(destWidth) <= expandLimit
      ensures !done ==> inserted == old(inserted)
      ensures done ==> |inserted| == |old(inserted)| + WordsI(destWidth)
      ensures done ==> inserted[..|old(inserted)|] == old(inserted)
      ensures done ==> forall w | 0 <= w < WordsI(destWidth) ::
        inserted[|old(inserted)| + w] == WordAssign(w, Word(Pad(src, destWidth), w))
    {
      done := DoExpandWide(impure, WordsI(destWidth));
      if !done {
        return;
      }
      ghost var before := inserted;
      var srcWords := WordsI(|src|);
      assert srcWords <= WordsI(destWidth);
      var w := 0;
      while w < srcWords
        invariant 0 <= w <= srcWords
        invariant |inserted| == |before| + w && inserted[..|before|] == before
        invariant forall i | 0 <= i < w :: inserted[|before| + i] == WordAssign(i, Word(src, i))
      {
        WordSelCloneIsWord(src, w);
        AddWordAssign(w, EvalSource(WordSelClone(|src|, w), src));
        w := w + 1;
      }
      while w < WordsI(destWidth)
        invariant srcWords <= w <= WordsI(destWidth)
        invariant |inserted| == |before| + w && inserted[..|before|] == before
        invariant forall i | 0 <= i < w :: inserted[|before| + i] == WordAssign(i, Word(src, i))
      {
        WordPastEnd(src, w);
        AddWordAssign(w, Zeros());
        w := w + 1;
      }
      forall i | 0 <= i < WordsI(destWidth)
        ensures Word(src, i) == Word(Pad(src, destWidth), i)
      {
        forall k | 0 <= k < 32 ensures Word(src, i)[k] == Word(Pad(src, destWidth), i)[k] {
        }
      }
    }

    /**
     * ASSIGN(CONCAT): assign each word of {lhs, rhs}, shifting lhs by the
     * minimum width of rhs; when rhs has no bits above that width these are
     * the words of the concatenation.
     */
    method ExpandWideConcat(lhs: Bits, rhs: Bits, rhsMin: nat, impure: bool) returns (done: bool)
      requires rhsMin <= |rhs|
      modifies this
      ensures done <==> !impure && WordsI(|lhs| + |rhs|) <= expandLimit
      ensures !done ==> inserted == old(inserted)
      ensures done ==> |inserted| == |old(inserted)| + WordsI(|lhs| + |rhs|)
      ensures done ==> inserted[..|old(inserted)|] == old(inserted)
      ensures done ==> forall w | 0 <= w < WordsI(|lhs| + |rhs|) ::
        inserted[|old(inserted)| + w] == WordAssign(w, ConcatWord(lhs, rhs, rhsMin, w))
      ensures done && CleanAbove(rhs, rhsMin) ==> forall w | 0 <= w < WordsI(|lhs| + |rhs|) ::
        inserted[|old(inserted)| + w].value == Word(Concat(lhs, rhs[..rhsMin]), w)
    {
      var words := WordsI(|lhs| + |rhs|);
      done := DoExpandWide(impure, words);
      if !done {
        return;
      }
      ghost var before := inserted;
      var w := 0;
      while w < words
        invariant 0 <= w <= words
        invariant |inserted| == |before| + w && inserted[..|before|] == before
        invariant forall i | 0 <= i < w ::
          inserted[|before| + i] == WordAssign(i, ConcatWord(lhs, rhs, rhsMin, i))
      {
        AddWordAssign(w, OrW(GrabShift(lhs, w, rhsMin), EvalSource(WordSelClone(|rhs|, w), rhs)));
        w := w + 1;
      }
      if CleanAbove(rhs, rhsMin) {
        forall i | 0 <= i < words
          ensures ConcatWord(lhs, rhs, rhsMin, i) == Word(Concat(lhs, rhs[..rhsMin]), i)
        {
          ConcatWordIsWord(lhs, rhs, rhsMin, i);
        }
      }
    }
  }

  // ---------------------------------------------------------------------
  // EQ / NEQ

  /** The OR over words 0 .. n-1 of lhs[w] ^ rhs[w]. */
  function OrXor(lhs: Bits, rhs: Bits, n: nat): Bits
    requires n >= 1
  {
    if n == 1 then XorW(Word(lhs, 0), Word(rhs, 0))
    else OrW(OrXor(lhs, rhs, n - 1), XorW(Word(lhs, n - 1), Word(rhs, n - 1)))
  }

  /** The OR of word differences is 0 exactly when the first n words agree. */
  lemma {:induction false} OrXorZero(lhs: Bits, rhs: Bits, n: nat)
    requires n >= 1
    ensures OrXor(lhs, rhs, n) == Zeros() <==> forall w | 0 <= w < n :: Word(lhs, w) == Word(rhs, w)
  {
    var a1, b1 := Word(lhs, n - 1), Word(rhs, n - 1);
    var x := XorW(a1, b1);
    assert x == Zeros() <==> a1 == b1 by {
      if x == Zeros() {
        forall k | 0 <= k < 32 ensures a1[k] == b1[k] {
          assert x[k] == Zeros()[k];
        }
      }
    }
    if n > 1 {
      OrXorZero(lhs, rhs, n - 1);
      var a := OrXor(lhs, rhs, n - 1);
      assert OrW(a, x) == Zeros() <==> a == Zeros() && x == Zeros() by {
        if OrW(a, x) == Zeros() {
          forall k | 0 <= k < 32 ensures a[k] == Zeros()[k] && x[k] == Zeros()[k] {
            assert OrW(a, x)[k] == Zeros()[k];
          }
        }
      }
    }
  }

  /** Two values of one width are equal exactly when all their words are. */
  lemma WordsEqual(lhs: Bits, rhs: Bits)
    requires |lhs| == |rhs|
    ensures (forall w | 0 <= w < WordsI(|lhs|) :: Word(lhs, w) == Word(rhs, w)) <==> lhs == rhs
  {
    if forall w | 0 <= w < WordsI(|lhs|) :: Word(lhs, w) == Word(rhs, w) {
      forall j | 0 <= j < |lhs| ensures lhs[j] == rhs[j] {
        var w := j / 32;
        assert w < WordsI(|lhs|);
        assert Word(lhs, w)[j % 32] == Word(rhs, w)[j % 32];
      }
    }
  }

  /**
   * Wordize EQ/NEQ of wide operands: compare 0 with the OR of the word
   * differences; the result is the equality (or inequality) of the values.
   * An impure comparison is left as it is (no result).
   */
  method WordizeEqNeq(lhs: Bits, rhs: Bits, neq: bool, impure: bool) returns (r: Option<bool>)
    requires |lhs| == |rhs| && IsWide(|lhs|)
    ensures r.None? <==> impure
    ensures r.Some? ==> (r.value <==> (lhs == rhs) != neq)
  {
    if impure {
      return None;
    }
    var words := WordsI(|lhs|);
    var acc: Option<Bits> := None;
    var w := 0;
    while w < words
      invariant 0 <= w <= words
      invariant w == 0 <==> acc.None?
      invariant w > 0 ==> acc == Some(OrXor(lhs, rhs, w))
    {
      var eqp := XorW(EvalSource(WordSelClone(|lhs|, w), lhs), EvalSource(WordSelClone(|rhs|, w), rhs));
      WordSelCloneIsWord(lhs, w);
      WordSelCloneIsWord(rhs, w);
      acc := if acc.Some? then Some(OrW(acc.value, eqp)) else Some(eqp);
      w := w + 1;
    }
    OrXorZero(lhs, rhs, words);
    WordsEqual(lhs, rhs);
    if neq {
      r := Some(Zeros() != acc.value);
    } else {
      r := Some(Zeros() == acc.value);
    }
  }

  // ---------------------------------------------------------------------
  // REDAND

  /**
   * The word the REDAND rule uses for word w of an operand with `words`
   * words: the top word has the bits above the minimum width forced to 1.
   */
  function RedAndWord(lhs: Bits, widthMin: nat, words: nat, w: nat): Bits
  {
    if w == words - 1 then OrW(NotW(MaskE(widthMin)), Word(lhs, w)) else Word(lhs, w)
  }

  /** The words the REDAND rule ANDs together, in order. */
  function RedAndWords(lhs: Bits, widthMin: nat): (ws: seq<Bits>)
    ensures |ws| == WordsI(|lhs|)
    ensures forall w | 0 <= w < |ws| :: ws[w] == RedAndWord(lhs, widthMin, |ws|, w) && |ws[w]| == 32
  {
    var words := WordsI(|lhs|);
    seq(words, w requires 0 <= w => RedAndWord(lhs, widthMin, words, w))
  }

  /** The AND chain ((ws[0] & ws[1]) & ...) & ws[n-1]. */
  function AndAll(ws: seq<Bits>): Bits
    requires |ws| >= 1
  {
    if |ws| == 1 then ws[0] else AndW(AndAll(ws[..|ws| - 1]), ws[|ws| - 1])
  }

  /** An AND of two words is all ones exactly when both are. */
  lemma AndOnes(a: Bits, x: Bits)
    requires |a| == 32 && |x| == 32
    ensures AndW(a, x) == AllOnes() <==> a == AllOnes() && x == AllOnes()
  {
    if AndW(a, x) == AllOnes() {
      forall k | 0 <= k < 32 ensures a[k] == AllOnes()[k] && x[k] == AllOnes()[k] {
        assert AndW(a, x)[k] == AllOnes()[k];
      }
    }
    if a == AllOnes() && x == AllOnes() {
      forall k | 0 <= k < 32 ensures AndW(a, x)[k] == AllOnes()[k] {
      }
    }
  }

  /** An AND chain of words is all ones exactly when each word is. */
  lemma {:induction false} AndAllOnes(ws: seq<Bits>)
    requires |ws| >= 1 && forall i | 0 <= i < |ws| :: |ws[i]| == 32
    ensures AndAll(ws) == AllOnes() <==> forall i | 0 <= i < |ws| :: ws[i] == AllOnes()
  {
    if |ws| > 1 {
      var init := ws[..|ws| - 1];
      AndAllOnes(init);
      AndOnes(AndAll(init), ws[|ws| - 1]);
      assert forall i | 0 <= i < |init| :: init[i] == ws[i];
    }
  }

  /**
   * With the minimum width in the top word, every lowered word is all ones
   * exactly when every bit below the minimum width is set.
   */
  lemma RedAndWordsMeaning(lhs: Bits, widthMin: nat)
    requires 0 < widthMin <= |lhs| && WordsI(widthMin) == WordsI(|lhs|)
    ensures (forall w | 0 <= w < WordsI(|lhs|) :: RedAndWord(lhs, widthMin, WordsI(|lhs|), w) == AllOnes())
      <==> (forall j | 0 <= j < widthMin :: lhs[j])
  {
    var n := WordsI(|lhs|);
    if forall w | 0 <= w < n :: RedAndWord(lhs, widthMin, n, w) == AllOnes() {
      forall j | 0 <= j < widthMin ensures lhs[j] {
        var w := j / 32;
        var k := j % 32;
        assert RedAndWord(lhs, widthMin, n, w)[k];
        if w == n - 1 {
          assert MaskE(widthMin)[k];
        }
      }
    }
    if forall j | 0 <= j < widthMin :: lhs[j] {
      forall w | 0 <= w < n ensures RedAndWord(lhs, widthMin, n, w) == AllOnes() {
        forall k | 0 <= k < 32 ensures RedAndWord(lhs, widthMin, n, w)[k] {
          if w < n - 1 {
            assert 32 * w + k < 32 * (n - 1) < widthMin;
          } else if MaskE(widthMin)[k] {
            assert 32 * w + k < widthMin;
          }
        }
      }
    }
  }

  /**
   * Wordize REDAND of a wide operand: AND all words, the top one with the
   * bits above the minimum width forced to 1, and compare with all ones.
   * When the minimum width lies in the top word, the result says whether
   * every bit below the minimum width is set.
   */
  method WordizeRedAnd(lhs: Bits, widthMin: nat, impure: bool) returns (r: Option<bool>)
    requires IsWide(|lhs|) && widthMin <= |lhs|
    ensures r.None? <==> impure
    ensures r.Some? ==> (r.value <==> AndAll(RedAndWords(lhs, widthMin)) == AllOnes())
    ensures r.Some? && 0 < widthMin && WordsI(widthMin) == WordsI(|lhs|) ==>
      (r.value <==> forall j | 0 <= j < widthMin :: lhs[j])
  {
    if impure {
      return None;
    }
    var words := WordsI(|lhs|);
    ghost var ws := RedAndWords(lhs, widthMin);
    var acc: Option<Bits> := None;
    var w := 0;
    while w < words
      invariant 0 <= w <= words
      invariant w == 0 <==> acc.None?
      invariant w > 0 ==> acc == Some(AndAll(ws[..w]))
    {
      assert ws[..w + 1][..w] == ws[..w];
      WordSelCloneIsWord(lhs, w);
      var eqp := EvalSource(WordSelClone(|lhs|, w), lhs);
      if w == words - 1 {
        eqp := OrW(NotW(MaskE(widthMin)), eqp);
      }
      acc := if acc.Some? then Some(AndW(acc.value, eqp)) else Some(eqp);
      w := w + 1;
    }
    assert ws[..words] == ws;
    AndAllOnes(ws);
    if 0 < widthMin && WordsI(widthMin) == words {
      RedAndWordsMeaning(lhs, widthMin);
    }
    r := Some(AllOnes() == acc.value);
  }

  // ---------------------------------------------------------------------
  // Narrow destination, constant bit select: dest[msb:lsb] = rhs

  /**
   * ASSIGNSEL(const,narrow): dest = (dest & ~maskset) | ((rhs << lsb) & mask),
   * where maskset covers bits lsb..msb and both masks are as wide as the
   * minimum width of dest; the AND with dest is dropped when rhs is all ones.
   */
  function NarrowConstSelAssign(dest: Bits, rhs: Bits, lsb: nat, msb: nat, widthMin: nat, ones: bool): (r: Bits)
    ensures |r| == |dest|
  {
    var maskset := MaskRange(widthMin, lsb, msb);
    var maskold := NotN(maskset, widthMin);
    var oldval := if ones then dest else AndN(maskold, dest, |dest|);
    var shifted := ShlN(rhs, lsb, |dest|);
    var cleanmask := MaskRange(widthMin, 0, widthMin - 1);
    var cleaned := AndN(shifted, cleanmask, |dest|);
    OrN(oldval, cleaned, |dest|)
  }

  /** V3Number::setMask on an n-bit number: bits lo..hi set, the rest clear. */
  function MaskRange(n: nat, lo: int, hi: int): (r: Bits)
    ensures |r| == n && forall k | 0 <= k < n :: r[k] == (lo <= k <= hi)
  {
    seq(n, k => lo <= k <= hi)
  }

  /** Bitwise NOT at width n. */
  function NotN(a: Bits, n: nat): (r: Bits)
    ensures |r| == n && forall k | 0 <= k < n :: r[k] == !Bit(a, k)
  {
    seq(n, k => !Bit(a, k))
  }

  /** Bitwise AND at width n (the shorter operand zero-extended). */
  function AndN(a: Bits, b: Bits, n: nat): (r: Bits)
    ensures |r| == n && forall k | 0 <= k < n :: r[k] == (Bit(a, k) && Bit(b, k))
  {
    seq(n, k => Bit(a, k) && Bit(b, k))
  }

  /** Bitwise OR at width n. */
  function OrN(a: Bits, b: Bits, n: nat): (r: Bits)
    ensures |r| == n && forall k | 0 <= k < n :: r[k] == (Bit(a, k) || Bit(b, k))
  {
    seq(n, k => Bit(a, k) || Bit(b, k))
  }

  /** a << s at width n. */
  function ShlN(a: Bits, s: nat, n: nat): (r: Bits)
    ensures |r| == n && forall k | 0 <= k < n :: r[k] == Bit(a, k - s)
  {
    seq(n, k => Bit(a, k - s))
  }

  /**
   * Below the minimum width, the selected bits take rhs and the others keep
   * their value; at and above it, nothing of rhs is written (the old bits
   * are cleared, or kept when rhs is all ones).
   */
  lemma NarrowConstSelAssignBits(dest: Bits, rhs: Bits, lsb: nat, msb: nat, widthMin: nat, ones: bool)
    requires |dest| <= 64 && widthMin <= |dest| && lsb <= msb && |rhs| == msb + 1 - lsb
    requires ones ==> forall j | 0 <= j < |rhs| :: rhs[j]
    ensures var r := NarrowConstSelAssign(dest, rhs, lsb, msb, widthMin, ones);
      (forall k | 0 <= k < widthMin && lsb <= k <= msb :: r[k] == rhs[k - lsb]) &&
      (forall k | 0 <= k < widthMin && !(lsb <= k <= msb) :: r[k] == dest[k]) &&
      (forall k | widthMin <= k < |dest| :: r[k] == (ones && dest[k]))
  {
  }
}
