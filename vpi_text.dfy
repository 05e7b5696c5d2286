/**
 * The vector and text paths of vl_vpi_get_value and vpi_put_value
 * (include/verilated_vpi.cpp) over the storage model of VpiAccess.
 *
 * The handle addresses bitSize bits from bit bitOffset of the storage; bit k
 * of the value is bit bitOffset + k of the storage. Octal, hexadecimal,
 * string and wide-vector values are read and written as consecutive groups
 * of g bits (3, 4, 8 and 32) through vl_vpi_get_word and vl_vpi_put_word;
 * binary text goes to the bytes of the storage directly.
 *
 * A C string is a sequence of characters read up to its first NUL, as
 * strlen does.
 */
module VpiText {
  import opened Bits
  import opened Wrappers
  import opened VpiAccess

  /** Bit k of the value the handle addresses. */
  function FieldBit(v: VarView, ws: seq<Word>, k: nat): bool
    requires StorageOk(v, ws) && k < v.bitSize
  {
    Bit(v.vltype == WData, WordBits(v.vltype), ws, v.bitOffset + k)
  }

  /** n bits of the value from bit off on, least significant first. */
  function FieldSlice(v: VarView, ws: seq<Word>, off: nat, n: nat): (r: Word)
    requires StorageOk(v, ws) && off + n <= v.bitSize
    ensures |r| == n && forall j | 0 <= j < n :: r[j] == FieldBit(v, ws, off + j)
  {
    seq(n, j requires 0 <= j < n => FieldBit(v, ws, off + j))
  }

  /** The value the handle addresses, as a number. */
  function FieldValue(v: VarView, ws: seq<Word>): nat
    requires StorageOk(v, ws)
  {
    ToNat(FieldSlice(v, ws, 0, v.bitSize))
  }

  /** The bits of the storage outside the handle's value are the same in both. */
  ghost predicate OutsideSame(v: VarView, ws: seq<Word>, ws': seq<Word>)
    requires StorageOk(v, ws) && StorageOk(v, ws') && |ws'| == |ws|
  {
    var wide, w := v.vltype == WData, WordBits(v.vltype);
    forall p | 0 <= p < Capacity(wide, w, ws) && !(v.bitOffset <= p < v.bitOffset + v.bitSize) ::
      Bit(wide, w, ws', p) == Bit(wide, w, ws, p)
  }

  /**
   * The number of g-bit groups that start inside n bits: (n + 2) / 3 octal
   * digits, (n + 3) >> 2 hexadecimal digits, VL_BYTES_I(n) bytes and
   * VL_WORDS_I(n) words.
   */
  function GroupCount(n: nat, g: nat): nat
    requires g > 0
  {
    (n + g - 1) / g
  }

  lemma NextMultiple(g: nat, i: nat)
    ensures g * (i + 1) == g * i + g
  {
  }

  /** Group i starts inside the value exactly when i is below the group count. */
  lemma GroupStartsInside(n: nat, g: nat, i: nat)
    requires g > 0
    ensures g * i < n <==> i < GroupCount(n, g)
  {
    DivLess(n + g - 1, g, i + 1);
    NextMultiple(g, i);
  }

  /** The bit count of a group that starts inside the value: g, or what is left of the value. */
  lemma GroupWidth(v: VarView, g: nat, i: nat)
    requires IsIntegral(v.vltype) && g > 0 && g * i < v.bitSize
    ensures 0 < Count(v, g, g * i) <= g
    ensures Count(v, g, g * i) < g ==> g * i + Count(v, g, g * i) == v.bitSize
  {
  }

  /** vl_vpi_get_word inside the value succeeds, given at most 32 bits of a wide variable. */
  lemma GetWordInside(v: VarView, ws: seq<Word>, bitCount: nat, addOffset: nat)
    requires StorageOk(v, ws) && bitCount > 0 && addOffset < v.bitSize
    requires v.vltype == WData ==> bitCount <= 32
    ensures AccessOk(v, bitCount, addOffset)
    ensures addOffset + Count(v, bitCount, addOffset) <= v.bitSize
  {
  }

  /** The QData vl_vpi_get_word returns is the number the field's bits spell. */
  lemma GetWordField(v: VarView, ws: seq<Word>, bitCount: nat, addOffset: nat)
    requires StorageOk(v, ws) && bitCount > 0 && AccessOk(v, bitCount, addOffset)
    requires addOffset + Count(v, bitCount, addOffset) <= v.bitSize
    ensures GetWord(v, ws, bitCount, addOffset).Ok?
    ensures ToNat(GetWord(v, ws, bitCount, addOffset).value)
         == ToNat(FieldSlice(v, ws, addOffset, Count(v, bitCount, addOffset)))
  {
    var cnt := Count(v, bitCount, addOffset);
    var word := GetWord(v, ws, bitCount, addOffset).value;
    PrefixValue(word, FieldSlice(v, ws, addOffset, cnt));
  }

  /** A word whose bits above the slice are clear and whose low bits are the slice has its value. */
  lemma PrefixValue(word: Word, slice: Word)
    requires |slice| <= |word|
    requires forall j | 0 <= j < |word| :: word[j] == (j < |slice| && slice[j])
    ensures ToNat(word) == ToNat(slice)
  {
    ToNatHighZero(word, |slice|);
    assert word[..|slice|] == slice;
  }

  /** Group i of the value in base 2^g as a number: the bits vl_vpi_get_word(vop, g, g * i) reads (GroupValueIsGetWord). */
  function GroupValue(v: VarView, ws: seq<Word>, g: nat, i: nat): (r: nat)
    requires StorageOk(v, ws) && 0 < g <= 32 && g * i < v.bitSize
    ensures g * i + Count(v, g, g * i) <= v.bitSize
    ensures r < Pow2(Count(v, g, g * i)) && r < Pow2(g)
  {
    GetWordInside(v, ws, g, g * i);
    GroupWidth(v, g, i);
    Pow2Mono(Count(v, g, g * i), g);
    ToNat(FieldSlice(v, ws, g * i, Count(v, g, g * i)))
  }

  /** vl_vpi_get_word(vop, g, g * i) succeeds and reads group i. */
  lemma GroupValueIsGetWord(v: VarView, ws: seq<Word>, g: nat, i: nat)
    requires StorageOk(v, ws) && 0 < g <= 32 && g * i < v.bitSize
    ensures GetWord(v, ws, g, g * i).Ok?
    ensures ToNat(GetWord(v, ws, g, g * i).value) == GroupValue(v, ws, g, i)
  {
    GetWordInside(v, ws, g, g * i);
    GetWordField(v, ws, g, g * i);
  }

  /** Digit i of the value in base 2^g: the read of group i when it starts inside the value. */
  function Digit(v: VarView, ws: seq<Word>, g: nat, i: nat): (r: nat)
    requires StorageOk(v, ws) && 0 < g <= 32
    ensures r < Pow2(g)
    ensures g * i < v.bitSize ==> r < Pow2(Count(v, g, g * i))
  {
    if g * i < v.bitSize then GroupValue(v, ws, g, i) else 0
  }

  /** The digits of the value in base 2^g, least significant first. */
  function Digits(v: VarView, ws: seq<Word>, g: nat): (r: seq<nat>)
    requires StorageOk(v, ws) && 0 < g <= 32
    ensures |r| == GroupCount(v.bitSize, g)
    ensures forall i | 0 <= i < |r| :: r[i] == Digit(v, ws, g, i)
  {
    seq(GroupCount(v.bitSize, g), i requires 0 <= i => Digit(v, ws, g, i))
  }

  /** The number that digits ds in base 2^g spell, least significant first. */
  function DigitsNumber(ds: seq<nat>, g: nat): nat
  {
    if ds == [] then 0 else ds[0] + Pow2(g) * DigitsNumber(ds[1..], g)
  }

  /** Two adjacent slices of the value make one. */
  lemma SliceSplit(v: VarView, ws: seq<Word>, off: nat, n1: nat, n2: nat)
    requires StorageOk(v, ws) && off + n1 + n2 <= v.bitSize
    ensures FieldSlice(v, ws, off, n1 + n2) == FieldSlice(v, ws, off, n1) + FieldSlice(v, ws, off + n1, n2)
  {
  }

  /** The number the bits of the value from bit off on spell. */
  function SuffixValue(v: VarView, ws: seq<Word>, off: nat): nat
    requires StorageOk(v, ws) && off <= v.bitSize
  {
    ToNat(FieldSlice(v, ws, off, v.bitSize - off))
  }

  /** The number the digits from digit i on spell. */
  function SuffixNumber(ds: seq<nat>, i: nat, g: nat): nat
    requires i <= |ds|
  {
    DigitsNumber(ds[i..], g)
  }

  /** The value from bit off = Min(g * i, bitSize) on is spelled by the digits from digit i on. */
  lemma {:induction false} DigitsSuffix(v: VarView, ws: seq<Word>, g: nat, i: nat, off: nat)
    requires StorageOk(v, ws) && 0 < g <= 32 && i <= GroupCount(v.bitSize, g) && off == Min(g * i, v.bitSize)
    ensures SuffixValue(v, ws, off) == SuffixNumber(Digits(v, ws, g), i, g)
    decreases GroupCount(v.bitSize, g) - i
  {
    if i == GroupCount(v.bitSize, g) {
      NoDigitsLeft(v, ws, g, i, off);
    } else if Count(v, g, off) == g {
      NextGroup(v, g, i, off);
      DigitsSuffix(v, ws, g, i + 1, off + g);
      FullDigit(v, ws, g, i, off);
    } else {
      LastDigitOf(v, ws, g, i, off);
    }
  }

  lemma NoDigitsLeft(v: VarView, ws: seq<Word>, g: nat, i: nat, off: nat)
    requires StorageOk(v, ws) && 0 < g <= 32 && i == GroupCount(v.bitSize, g) && off == Min(g * i, v.bitSize)
    ensures SuffixValue(v, ws, off) == SuffixNumber(Digits(v, ws, g), i, g)
  {
    GroupStartsInside(v.bitSize, g, i);
    SuffixEnd(v, ws, Digits(v, ws, g), off, i, g);
  }

  /** After a full group, the next group starts g bits further on. */
  lemma NextGroup(v: VarView, g: nat, i: nat, off: nat)
    requires IsIntegral(v.vltype) && 0 < g && i < GroupCount(v.bitSize, g) && off == Min(g * i, v.bitSize)
    requires Count(v, g, off) == g
    ensures off == g * i && off + g <= v.bitSize
    ensures off + g == Min(g * (i + 1), v.bitSize) && i + 1 <= GroupCount(v.bitSize, g)
  {
    GroupStartsInside(v.bitSize, g, i);
    GroupWidth(v, g, i);
    NextMultiple(g, i);
    GroupStartsInside(v.bitSize, g, i + 1);
  }

  lemma FullDigit(v: VarView, ws: seq<Word>, g: nat, i: nat, off: nat)
    requires StorageOk(v, ws) && 0 < g <= 32 && i < GroupCount(v.bitSize, g) && off == g * i
    requires off + g <= v.bitSize && Count(v, g, off) == g
    requires SuffixValue(v, ws, off + g) == SuffixNumber(Digits(v, ws, g), i + 1, g)
    ensures SuffixValue(v, ws, off) == SuffixNumber(Digits(v, ws, g), i, g)
  {
    var ds := Digits(v, ws, g);
    GroupStartsInside(v.bitSize, g, i);
    assert ds[i] == GroupValue(v, ws, g, i);
    DigitStep(v, ws, g, ds, i, off);
  }

  lemma LastDigitOf(v: VarView, ws: seq<Word>, g: nat, i: nat, off: nat)
    requires StorageOk(v, ws) && 0 < g <= 32 && i < GroupCount(v.bitSize, g) && off == Min(g * i, v.bitSize)
    requires Count(v, g, off) != g
    ensures SuffixValue(v, ws, off) == SuffixNumber(Digits(v, ws, g), i, g)
  {
    var ds := Digits(v, ws, g);
    GroupStartsInside(v.bitSize, g, i);
    GroupWidth(v, g, i);
    NextMultiple(g, i);
    GroupStartsInside(v.bitSize, g, i + 1);
    assert ds[i] == GroupValue(v, ws, g, i);
    LastDigit(v, ws, ds, off, Count(v, g, off), i, g);
  }

  /** A full group of DigitsSuffix: the value from group i on is digit i plus 2^g times the value from group i + 1 on. */
  lemma DigitStep(v: VarView, ws: seq<Word>, g: nat, ds: seq<nat>, i: nat, off: nat)
    requires StorageOk(v, ws) && 0 < g <= 32 && off == g * i && off + g <= v.bitSize
    requires i + 1 <= |ds| && ds[i] == GroupValue(v, ws, g, i) && Count(v, g, off) == g
    requires SuffixValue(v, ws, off + g) == SuffixNumber(ds, i + 1, g)
    ensures SuffixValue(v, ws, off) == SuffixNumber(ds, i, g)
  {
    SuffixValueSplit(v, ws, off, g);
    SuffixNumberStep(ds, i, g);
  }

  /** The last group of DigitsSuffix, narrower than g bits. */
  lemma LastDigit(v: VarView, ws: seq<Word>, ds: seq<nat>, off: nat, c: nat, i: nat, g: nat)
    requires StorageOk(v, ws) && off + c == v.bitSize && i + 1 == |ds| && ToNat(FieldSlice(v, ws, off, c)) == ds[i]
    ensures SuffixValue(v, ws, off) == SuffixNumber(ds, i, g)
  {
    SuffixValueSplit(v, ws, off, c);
    SuffixNumberStep(ds, i, g);
    SuffixEnd(v, ws, ds, off + c, i + 1, g);
  }

  lemma SuffixEnd(v: VarView, ws: seq<Word>, ds: seq<nat>, off: nat, i: nat, g: nat)
    requires StorageOk(v, ws) && off == v.bitSize && i == |ds|
    ensures SuffixValue(v, ws, off) == 0 && SuffixNumber(ds, i, g) == 0
  {
    assert FieldSlice(v, ws, off, 0) == [];
    assert ds[i..] == [];
  }

  /** The value from bit off on is its next c bits plus 2^c times the value from bit off + c on. */
  lemma SuffixValueSplit(v: VarView, ws: seq<Word>, off: nat, c: nat)
    requires StorageOk(v, ws) && off + c <= v.bitSize
    ensures SuffixValue(v, ws, off) == ToNat(FieldSlice(v, ws, off, c)) + Pow2(c) * SuffixValue(v, ws, off + c)
  {
    var rest := v.bitSize - off - c;
    SliceSplit(v, ws, off, c, rest);
    ToNatConcat(FieldSlice(v, ws, off, c), FieldSlice(v, ws, off + c, rest));
  }

  lemma SuffixNumberStep(ds: seq<nat>, i: nat, g: nat)
    requires i < |ds|
    ensures SuffixNumber(ds, i, g) == ds[i] + Pow2(g) * SuffixNumber(ds, i + 1, g)
  {
    assert ds[i..][1..] == ds[i + 1..];
  }

  /** The digits in base 2^g spell the value. */
  lemma DigitsValue(v: VarView, ws: seq<Word>, g: nat)
    requires StorageOk(v, ws) && 0 < g <= 32
    ensures FieldValue(v, ws) == DigitsNumber(Digits(v, ws, g), g)
  {
    DigitsSuffix(v, ws, g, 0, 0);
    assert Digits(v, ws, g)[0..] == Digits(v, ws, g);
  }

  /**
   * The storage after the numbers vals[0], vals[1], ... were written g bits
   * each from bit 0 of the value on: a bit of the value inside a written
   * group is that bit of the group's number, every other bit of the storage
   * is as before.
   */
  ghost predicate GroupsWritten(v: VarView, ws: seq<Word>, ws': seq<Word>, vals: seq<nat>, g: nat)
  {
    StorageOk(v, ws) && StorageOk(v, ws') && |ws'| == |ws| && g > 0
    && OutsideSame(v, ws, ws')
    && forall k | 0 <= k < v.bitSize ::
         FieldBit(v, ws', k) == if k / g < |vals| then GroupBit(vals, g, k) else FieldBit(v, ws, k)
  }

  /** Bit k of the bits vals[0], vals[1], ... spell g bits each. */
  function GroupBit(vals: seq<nat>, g: nat, k: nat): bool
    requires g > 0
  {
    k / g < |vals| && BitOf(vals[k / g], k % g)
  }

  /** The word vl_vpi_put_word_gen receives for the number x. */
  function PutArg(v: VarView, x: nat): Word
    requires IsIntegral(v.vltype)
  {
    Resize(FromNat(x, 64), WordBits(v.vltype))
  }

  lemma PutArgBit(v: VarView, x: nat, j: nat)
    requires IsIntegral(v.vltype) && j < WordBits(v.vltype)
    ensures PutArg(v, x)[j] == BitOf(x, j)
  {
    FromNatBit(x, 64, j);
  }

  /** A put of cnt bits at bit off of the value, seen from one bit of the value. */
  lemma FieldWrittenAt(v: VarView, ws: seq<Word>, ws': seq<Word>, off: nat, cnt: nat, word: Word, k: nat)
    requires StorageOk(v, ws) && k < v.bitSize
    requires FieldWritten(v.vltype == WData, WordBits(v.vltype), ws, ws', Base(v, off), cnt, word)
    ensures StorageOk(v, ws')
    ensures FieldBit(v, ws', k) == if off <= k < off + cnt then word[k - off] else FieldBit(v, ws, k)
  {
    assert v.bitOffset + k < Capacity(v.vltype == WData, WordBits(v.vltype), ws);
  }

  /** A put of cnt bits at bit off of the value leaves the storage outside the value alone. */
  lemma FieldWrittenOutside(v: VarView, ws: seq<Word>, ws': seq<Word>, off: nat, cnt: nat, word: Word)
    requires StorageOk(v, ws) && off + cnt <= v.bitSize
    requires FieldWritten(v.vltype == WData, WordBits(v.vltype), ws, ws', Base(v, off), cnt, word)
    ensures StorageOk(v, ws') && OutsideSame(v, ws, ws')
  {
  }

  /**
   * One bit k of the value when group i is written after groups 0 .. i-1:
   * b0, b1 and b2 are the bit before the loop, before this put and after it.
   */
  lemma GroupStepBit(vals: seq<nat>, g: nat, i: nat, k: nat, cnt: nat, word: Word, b0: bool, b1: bool, b2: bool)
    requires g > 0 && i < |vals| && 0 < cnt <= g && cnt <= |word|
    requires forall j | 0 <= j < cnt :: word[j] == BitOf(vals[i], j)
    requires cnt < g ==> k < g * i + cnt
    requires b1 == if k / g < i then GroupBit(vals[..i], g, k) else b0
    requires b2 == if g * i <= k < g * i + cnt then word[k - g * i] else b1
    ensures b2 == if k / g < i + 1 then GroupBit(vals[..i + 1], g, k) else b0
  {
    if k < g * i {
      DivLess(k, g, i);
    } else if k < g * i + cnt {
      DivModUnique(k, g, i, k - g * i);
    } else {
      NextMultiple(g, i);
      DivLess(k, g, i + 1);
    }
  }

  /** Writing group i after groups 0 .. i-1, seen from bit k of the value. */
  lemma GroupStepAt(v: VarView, ws: seq<Word>, ws1: seq<Word>, ws2: seq<Word>, vals: seq<nat>, g: nat, i: nat, k: nat)
    requires 0 < g <= 32 && i < |vals| && g * i < v.bitSize && k < v.bitSize
    requires GroupsWritten(v, ws, ws1, vals[..i], g)
    requires FieldWritten(v.vltype == WData, WordBits(v.vltype), ws1, ws2, Base(v, g * i), Count(v, g, g * i),
                          PutArg(v, vals[i]))
    ensures StorageOk(v, ws2)
    ensures FieldBit(v, ws2, k) == if k / g < i + 1 then GroupBit(vals[..i + 1], g, k) else FieldBit(v, ws, k)
  {
    var cnt, word := Count(v, g, g * i), PutArg(v, vals[i]);
    GroupWidth(v, g, i);
    forall j | 0 <= j < cnt
      ensures word[j] == BitOf(vals[i], j)
    {
      PutArgBit(v, vals[i], j);
    }
    FieldWrittenAt(v, ws1, ws2, g * i, cnt, word, k);
    GroupStepBit(vals, g, i, k, cnt, word, FieldBit(v, ws, k), FieldBit(v, ws1, k), FieldBit(v, ws2, k));
  }

  lemma NothingWritten(v: VarView, ws: seq<Word>, vals: seq<nat>, g: nat)
    requires StorageOk(v, ws) && g > 0
    ensures GroupsWritten(v, ws, ws, vals[..0], g)
  {
    forall k | 0 <= k < v.bitSize
      ensures !(k / g < 0)
    {
      DivLess(k, g, 0);
    }
  }

  /** Writing group i after groups 0 .. i-1. */
  lemma GroupStep(v: VarView, ws: seq<Word>, ws1: seq<Word>, ws2: seq<Word>, vals: seq<nat>, g: nat, i: nat)
    requires 0 < g <= 32 && i < |vals| && g * i < v.bitSize
    requires GroupsWritten(v, ws, ws1, vals[..i], g)
    requires FieldWritten(v.vltype == WData, WordBits(v.vltype), ws1, ws2, Base(v, g * i), Count(v, g, g * i),
                          PutArg(v, vals[i]))
    ensures GroupsWritten(v, ws, ws2, vals[..i + 1], g)
  {
    GroupWidth(v, g, i);
    FieldWrittenOutside(v, ws1, ws2, g * i, Count(v, g, g * i), PutArg(v, vals[i]));
    forall k | 0 <= k < v.bitSize
      ensures FieldBit(v, ws2, k) == if k / g < i + 1 then GroupBit(vals[..i + 1], g, k) else FieldBit(v, ws, k)
    {
      GroupStepAt(v, ws, ws1, ws2, vals, g, i, k);
    }
  }

  /**
   * The loop that writes one g-bit group per number through
   * vl_vpi_put_word(vop, vals[i], g, g * i). A group that starts past the
   * end of the value fails the offset assertion of vl_vpi_var_access_info:
   * the loop stops there with the groups before it written.
   */
  method PutGroups(v: VarView, data: array<Word>, vals: seq<nat>, g: nat) returns (err: Option<AccessError>)
    requires StorageOk(v, data[..]) && 0 < g <= 32
    modifies data
    ensures err.None? <==> |vals| <= GroupCount(v.bitSize, g)
    ensures err.Some? ==> err.value == OffsetOutsideVar
    ensures GroupsWritten(v, old(data[..]), data[..], vals[..Min(|vals|, GroupCount(v.bitSize, g))], g)
  {
    var i := 0;
    NothingWritten(v, data[..], vals, g);
    while i < |vals|
      invariant 0 <= i <= |vals| && i <= GroupCount(v.bitSize, g)
      invariant GroupsWritten(v, old(data[..]), data[..], vals[..i], g)
    {
      GroupStartsInside(v.bitSize, g, i);
      ghost var before := data[..];
      var e := PutWord(v, data, FromNat(vals[i], 64), g, g * i);
      if e.Some? {
        assert i == GroupCount(v.bitSize, g);
        return e;
      }
      GroupStep(v, old(data[..]), before, data[..], vals, g, i);
      i := i + 1;
    }
    assert vals[..i] == vals;
    err := None;
  }

  function Min(a: nat, b: nat): nat
  {
    if a < b then a else b
  }

  /** Bit j of group i is bit g * i + j of the value. */
  lemma GroupIndex(g: nat, i: nat, j: nat)
    requires j < g
    ensures (g * i + j) / g == i && (g * i + j) % g == j
  {
    DivModUnique(g * i + j, g, i, j);
  }

  /** A written group reads back as its number, cut to the bits that lie inside the value. */
  lemma GroupReadBack(v: VarView, ws: seq<Word>, ws': seq<Word>, vals: seq<nat>, g: nat, i: nat)
    requires 0 < g <= 32 && GroupsWritten(v, ws, ws', vals, g) && i < |vals| && g * i < v.bitSize
    ensures GroupValue(v, ws', g, i) == vals[i] % Pow2(Count(v, g, g * i))
  {
    var c := Count(v, g, g * i);
    GroupWidth(v, g, i);
    var slice := FieldSlice(v, ws', g * i, c);
    forall j | 0 <= j < c
      ensures slice[j] == FromNat(vals[i], c)[j]
    {
      GroupIndex(g, i, j);
      FromNatBit(vals[i], c, j);
    }
    assert slice == FromNat(vals[i], c);
    FromNatToNat(vals[i], c);
  }

  /** A group past the written ones reads as before. */
  lemma GroupUntouched(v: VarView, ws: seq<Word>, ws': seq<Word>, vals: seq<nat>, g: nat, i: nat)
    requires 0 < g <= 32 && GroupsWritten(v, ws, ws', vals, g) && |vals| <= i && g * i < v.bitSize
    ensures GroupValue(v, ws', g, i) == GroupValue(v, ws, g, i)
  {
    var c := Count(v, g, g * i);
    GroupWidth(v, g, i);
    forall j | 0 <= j < c
      ensures FieldSlice(v, ws', g * i, c)[j] == FieldSlice(v, ws, g * i, c)[j]
    {
      GroupIndex(g, i, j);
    }
    assert FieldSlice(v, ws', g * i, c) == FieldSlice(v, ws, g * i, c);
  }

  /**
   * The digits after writing the numbers vals: digit i is vals[i] cut to
   * the width of group i where one was written, and the old digit elsewhere.
   */
  lemma DigitsAfterPut(v: VarView, ws: seq<Word>, ws': seq<Word>, vals: seq<nat>, g: nat)
    requires 0 < g <= 32 && GroupsWritten(v, ws, ws', vals, g) && |vals| <= GroupCount(v.bitSize, g)
    ensures forall i | 0 <= i < GroupCount(v.bitSize, g) ::
      Digits(v, ws', g)[i] == if i < |vals| then vals[i] % Pow2(Count(v, g, g * i)) else Digits(v, ws, g)[i]
  {
    forall i | 0 <= i < GroupCount(v.bitSize, g)
      ensures Digits(v, ws', g)[i] == if i < |vals| then vals[i] % Pow2(Count(v, g, g * i)) else Digits(v, ws, g)[i]
    {
      GroupStartsInside(v.bitSize, g, i);
      if i < |vals| {
        GroupReadBack(v, ws, ws', vals, g, i);
      } else {
        GroupUntouched(v, ws, ws', vals, g, i);
      }
    }
  }

  /** Each digit vals[i] fits the bits its group has (the last group may be short). */
  predicate DigitsFit(v: VarView, vals: seq<nat>, g: nat)
    requires 0 < g <= 32
  {
    forall i | 0 <= i < |vals| :: vals[i] < Pow2(Count(v, g, g * i))
  }

  /** Writing one number per group, each fitting its group, makes those numbers the digits. */
  lemma DigitsWritten(v: VarView, ws: seq<Word>, ws': seq<Word>, vals: seq<nat>, g: nat)
    requires 0 < g <= 32 && GroupsWritten(v, ws, ws', vals, g) && |vals| == GroupCount(v.bitSize, g)
    requires DigitsFit(v, vals, g)
    ensures Digits(v, ws', g) == vals
  {
    DigitsAfterPut(v, ws, ws', vals, g);
    var ds := Digits(v, ws', g);
    forall i | 0 <= i < |vals|
      ensures ds[i] == vals[i]
    {
      var m := Pow2(Count(v, g, g * i));
      assert ds[i] == vals[i] % m;
      ModSmall(vals[i], m);
    }
  }

  lemma ModSmall(x: nat, m: nat)
    requires x < m
    ensures x % m == x
  {
  }

  /** strlen: the characters of a C string before its terminating NUL. */
  function CStr(s: string): (r: string)
    ensures |r| <= |s| && r == s[..|r|] && '\0' !in r
    ensures |r| < |s| ==> s[|r|] == '\0'
  {
    if s == [] || s[0] == '\0' then []
    else [s[0]] + CStr(s[1..])
  }

  /** The value after a put that gives every bit of it: bit k becomes want[k], the rest of the storage stays. */
  ghost predicate BitsWritten(v: VarView, ws: seq<Word>, ws': seq<Word>, want: seq<bool>)
  {
    StorageOk(v, ws) && StorageOk(v, ws') && |ws'| == |ws| && |want| == v.bitSize
    && OutsideSame(v, ws, ws')
    && forall k | 0 <= k < v.bitSize :: FieldBit(v, ws', k) == want[k]
  }

  /** Storage ws' is ws with storage bit p set to b. */
  ghost predicate BitUpdated(v: VarView, ws: seq<Word>, ws': seq<Word>, p: nat, b: bool)
  {
    StorageOk(v, ws) && StorageOk(v, ws') && |ws'| == |ws|
    && forall q | 0 <= q < Capacity(v.vltype == WData, WordBits(v.vltype), ws') ::
      StorageBit(v, ws', q) == if q == p then b else StorageBit(v, ws, q)
  }

  /** Bit q of the storage of the variable, counted from bit 0 of its first word. */
  function StorageBit(v: VarView, ws: seq<Word>, q: nat): bool
    requires StorageOk(v, ws) && q < Capacity(v.vltype == WData, WordBits(v.vltype), ws)
  {
    Bit(v.vltype == WData, WordBits(v.vltype), ws, q)
  }

  /** One storage bit updated inside the field: bit p - bitOffset of the value is b, no other bit changes. */
  lemma BitUpdatedField(v: VarView, ws: seq<Word>, ws': seq<Word>, p: nat, b: bool)
    requires BitUpdated(v, ws, ws', p, b) && v.bitOffset <= p < v.bitOffset + v.bitSize
    ensures OutsideSame(v, ws, ws')
    ensures forall k | 0 <= k < v.bitSize ::
      FieldBit(v, ws', k) == if v.bitOffset + k == p then b else FieldBit(v, ws, k)
  {
    forall k | 0 <= k < v.bitSize
      ensures FieldBit(v, ws', k) == if v.bitOffset + k == p then b else FieldBit(v, ws, k)
    {
      assert FieldBit(v, ws', k) == StorageBit(v, ws', v.bitOffset + k);
    }
    var wide, w := v.vltype == WData, WordBits(v.vltype);
    forall q | 0 <= q < Capacity(wide, w, ws) && !(v.bitOffset <= q < v.bitOffset + v.bitSize)
      ensures Bit(wide, w, ws', q) == Bit(wide, w, ws, q)
    {
      assert StorageBit(v, ws', q) == StorageBit(v, ws, q);
    }
  }

  /** Sets or clears one bit of the storage in place, as datap[pos >> 3] |= / &= on the storage bytes. */
  method SetStorageBit(v: VarView, data: array<Word>, p: nat, b: bool)
    requires StorageOk(v, data[..]) && p < v.bitOffset + v.bitSize
    modifies data
    ensures StorageOk(v, data[..])
    ensures BitUpdated(v, old(data[..]), data[..], p, b)
  {
    ghost var ws := data[..];
    if v.vltype == WData {
      data[p / 32] := data[p / 32][p % 32 := b];
      assert data[..] == ws[p / 32 := ws[p / 32][p % 32 := b]];
    } else {
      data[0] := data[0][p := b];
      assert data[..] == [ws[0][p := b]];
    }
  }

  // Binary text

  /** The bits vpi_put_value(vpiBinStrVal) gives to n bits: bit i is set iff i < len and character len-1-i is '1'. */
  function BinBits(s: string, n: nat): (r: seq<bool>)
    ensures |r| == n
    ensures forall i | 0 <= i < n :: r[i] <==> i < |s| && s[|s| - 1 - i] == '1'
  {
    seq(n, i requires 0 <= i < n => i < |s| && s[|s| - 1 - i] == '1')
  }

  /** The text of vl_vpi_get_value(vpiBinStrVal): one character per bit, most significant first. */
  function BinText(v: VarView, ws: seq<Word>): (r: string)
    requires StorageOk(v, ws)
    ensures |r| == v.bitSize
  {
    seq(v.bitSize, k requires 0 <= k < v.bitSize => if FieldBit(v, ws, v.bitSize - 1 - k) then '1' else '0')
  }

  /** vl_vpi_get_value(vpiBinStrVal): reads the bits of the value from the storage one at a time. */
  method GetBinStr(v: VarView, data: array<Word>) returns (s: string)
    requires StorageOk(v, data[..])
    ensures s == BinText(v, data[..])
    ensures forall k | 0 <= k < |s| :: s[k] == '0' || s[k] == '1'
  {
    var n := v.bitSize;
    s := seq(n, _ => '\0');
    var i := 0;
    while i < n
      invariant 0 <= i <= n && |s| == n
      invariant forall k | n - i <= k < n :: s[k] == BinText(v, data[..])[k]
    {
      var bit := Bit(v.vltype == WData, WordBits(v.vltype), data[..], v.bitOffset + i);
      assert bit == FieldBit(v, data[..], n - 1 - (n - i - 1));
      s := s[n - i - 1 := if bit then '1' else '0'];
      i := i + 1;
    }
    assert s == BinText(v, data[..]);
  }

  /** vpi_put_value(vpiBinStrVal): sets or clears each bit of the value from the text. */
  method PutBinStr(v: VarView, data: array<Word>, str: string)
    requires StorageOk(v, data[..])
    modifies data
    ensures BitsWritten(v, old(data[..]), data[..], BinBits(CStr(str), v.bitSize))
  {
    var s := CStr(str);
    var len := |s|;
    var i := 0;
    while i < v.bitSize
      invariant 0 <= i <= v.bitSize && StorageOk(v, data[..]) && |data[..]| == |old(data[..])|
      invariant OutsideSame(v, old(data[..]), data[..])
      invariant forall k | 0 <= k < v.bitSize ::
        FieldBit(v, data[..], k) == if k < i then BinBits(s, v.bitSize)[k] else FieldBit(v, old(data[..]), k)
    {
      var isSet := i < len && s[len - i - 1] == '1';
      ghost var before := data[..];
      SetStorageBit(v, data, v.bitOffset + i, isSet);
      BitUpdatedField(v, before, data[..], v.bitOffset + i, isSet);
      i := i + 1;
    }
  }

  /** Reading back a value written from a varBits-long string of '0' and '1' gives that string. */
  lemma BinRoundTrip(v: VarView, ws: seq<Word>, ws': seq<Word>, s: string)
    requires |s| == v.bitSize && forall i | 0 <= i < |s| :: s[i] == '0' || s[i] == '1'
    requires BitsWritten(v, ws, ws', BinBits(CStr(s), v.bitSize))
    ensures BinText(v, ws') == s
  {
    CStrPlain(s);
    forall k | 0 <= k < |s|
      ensures BinText(v, ws')[k] == s[k]
    {
      assert FieldBit(v, ws', v.bitSize - 1 - k) <==> s[k] == '1';
    }
  }

  /** A string without NUL is its own C string. */
  lemma {:induction false} CStrPlain(s: string)
    requires forall i | 0 <= i < |s| :: s[i] != '\0'
    ensures CStr(s) == s
  {
    if s != [] {
      CStrPlain(s[1..]);
    }
  }
}
