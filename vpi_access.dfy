/**
 * Bit-field access to a VPI variable's storage (include/verilated_vpi.cpp,
 * vl_vpi_var_access_info, vl_vpi_get_word(_gen), vl_vpi_put_word(_gen)).
 *
 * A variable of type CData, SData, IData or QData lives in one word of 8, 16,
 * 32 or 64 bits; a wide variable (VLVT_WDATA) lives in consecutive 32-bit
 * EData words, least significant word first. Bit p of the storage is bit
 * p mod 32 of word p div 32 for wide variables and bit p of the one word
 * otherwise. The handle addresses bitSize bits starting at bit bitOffset.
 */
module VpiAccess {
  import opened Bits
  import opened Wrappers

  /** The storage kinds of VerilatedVar::vltype() met by the VPI value paths. */
  datatype VlType = Uint8 | Uint16 | Uint32 | Uint64 | WData | Str | Real | OtherType

  predicate IsIntegral(t: VlType)
  {
    t in {Uint8, Uint16, Uint32, Uint64, WData}
  }

  /** sizeof(T) * 8 for the C type that holds one storage word. */
  function WordBits(t: VlType): (w: nat)
    requires IsIntegral(t)
    ensures w in {8, 16, 32, 64} && (t == WData ==> w == 32)
  {
    match t
    case Uint8 => 8
    case Uint16 => 16
    case Uint32 => 32
    case Uint64 => 64
    case WData => 32
  }

  /** The part of a VPI variable handle the value paths look at. */
  datatype VarView = VarView(vltype: VlType, bitSize: nat, bitOffset: nat, isParam: bool)

  /** varBits of vl_vpi_var_access_info: real variables count 64 bits per element. */
  function VarBits(v: VarView): nat
  {
    if v.vltype == Real then v.bitSize * 64 else v.bitSize
  }

  /** The assertions of vl_vpi_var_access_info, and the unsupported-type error of the dispatchers. */
  datatype AccessError = OffsetOutsideVar | CountExceedsWord | FieldExceedsWord | UnsupportedType

  datatype AccessInfo = AccessInfo(wordOffset: nat, bitOffset: nat, maskLo: Word, maskHi: Word)

  /** The bit count after clamping to the end of the variable. */
  function Count(v: VarView, bitCount: nat, addOffset: nat): (cnt: nat)
    ensures cnt <= bitCount && (addOffset < VarBits(v) ==> cnt <= VarBits(v) - addOffset)
    ensures addOffset < VarBits(v) && bitCount > 0 ==> cnt > 0
  {
    if addOffset < VarBits(v) && VarBits(v) - addOffset < bitCount then VarBits(v) - addOffset else bitCount
  }

  /** The accessed field starts at this bit of the storage. */
  function Base(v: VarView, addOffset: nat): nat
  {
    v.bitOffset + addOffset
  }

  /** The field fits the access: at most one 32-bit word of a wide variable, inside the word otherwise. */
  predicate FieldOk(wide: bool, w: nat, cnt: nat, base: nat)
  {
    if wide then cnt <= 32 else cnt + base <= w
  }

  /** The conditions under which every assertion of vl_vpi_var_access_info holds. */
  predicate AccessOk(v: VarView, bitCount: nat, addOffset: nat)
    requires IsIntegral(v.vltype)
  {
    addOffset < VarBits(v)
    && FieldOk(v.vltype == WData, WordBits(v.vltype), Count(v, bitCount, addOffset), Base(v, addOffset))
  }

  /** The masks select cnt bits from bit bo of a word and, past its top, from bit 0 of the next. */
  predicate MasksSelect(w: nat, bo: nat, cnt: nat, maskLo: Word, maskHi: Word)
  {
    |maskLo| == w && |maskHi| == w
    && (forall i | 0 <= i < w :: maskLo[i] <==> bo <= i < bo + cnt)
    && (forall i | 0 <= i < w :: maskHi[i] <==> w + i < bo + cnt)
  }

  /**
   * The part of vl_vpi_var_access_info after the bit count is clamped. On
   * success the low mask selects the bits of the first word from the field
   * start on, and the high mask the remaining bits of the field, which lie
   * in the next word.
   */
  function Masks(wide: bool, w: nat, cnt: nat, base: nat): (r: Result<AccessInfo, AccessError>)
    requires w in {8, 16, 32, 64} && (wide ==> w == 32) && cnt > 0
    ensures r.Ok? <==> FieldOk(wide, w, cnt, base)
    ensures r.Err? ==> r.error == if wide then CountExceedsWord else FieldExceedsWord
    ensures r.Ok? ==>
      && r.value.bitOffset < w
      && (if wide then 32 * r.value.wordOffset + r.value.bitOffset == base
          else r.value.wordOffset == 0 && r.value.bitOffset == base)
      && MasksSelect(w, r.value.bitOffset, cnt, r.value.maskLo, r.value.maskHi)
  {
    if wide then
      if cnt > w then Err(CountExceedsWord)
      else
        var wo, bo := base / 32, base % 32;
        if cnt + bo <= w then
          var lo := if cnt == w then AllOnes(w) else Ones(w, cnt);
          Ok(AccessInfo(wo, bo, Shl(lo, bo), Zero(w)))
        else
          Ok(AccessInfo(wo, bo, Shl(Ones(w, w - bo), bo), Ones(w, cnt + bo - w)))
    else
      if cnt + base > w then Err(FieldExceedsWord)
      else if cnt < w then Ok(AccessInfo(0, base, Shl(Ones(w, cnt), base), Zero(w)))
      else Ok(AccessInfo(0, base, AllOnes(w), Zero(w)))
  }

  /** vl_vpi_var_access_info. */
  function AccessInfoOf(v: VarView, bitCount: nat, addOffset: nat): (r: Result<AccessInfo, AccessError>)
    requires IsIntegral(v.vltype) && bitCount > 0
    ensures r.Ok? <==> AccessOk(v, bitCount, addOffset)
    ensures addOffset >= VarBits(v) ==> r == Err(OffsetOutsideVar)
    ensures addOffset < VarBits(v) ==>
      r == Masks(v.vltype == WData, WordBits(v.vltype), Count(v, bitCount, addOffset), Base(v, addOffset))
  {
    if addOffset >= VarBits(v) then Err(OffsetOutsideVar)
    else Masks(v.vltype == WData, WordBits(v.vltype), Count(v, bitCount, addOffset), Base(v, addOffset))
  }

  predicate WordsOf(ws: seq<Word>, w: nat)
  {
    forall k | 0 <= k < |ws| :: |ws[k]| == w
  }

  /** Storage of w-bit words holding at least the bits below end: wide storage has any number of words, narrow one. */
  predicate StorageFits(wide: bool, w: nat, ws: seq<Word>, end: nat)
  {
    |ws| >= 1 && WordsOf(ws, w) && if wide then w == 32 && end <= 32 * |ws| else |ws| == 1 && end <= w
  }

  function Capacity(wide: bool, w: nat, ws: seq<Word>): nat
  {
    if wide then 32 * |ws| else w
  }

  /** Bit p of the storage. */
  function Bit(wide: bool, w: nat, ws: seq<Word>, p: nat): bool
    requires |ws| >= 1 && WordsOf(ws, w) && (wide ==> w == 32) && p < Capacity(wide, w, ws)
  {
    if wide then ws[p / 32][p % 32] else ws[0][p]
  }

  /** The storage of the variable: the bits the handle addresses lie inside its words. */
  predicate StorageOk(v: VarView, ws: seq<Word>)
  {
    IsIntegral(v.vltype)
    && StorageFits(v.vltype == WData, WordBits(v.vltype), ws, v.bitOffset + v.bitSize)
  }

  lemma WordSplit(wo: nat, b: nat)
    requires b < 32
    ensures (32 * wo + b) / 32 == wo && (32 * wo + b) % 32 == b
  {
  }

  /** datap[wordOffset + 1] where the storage has such a word; it is only read when the field straddles. */
  function NextWord(ws: seq<Word>, wo: nat): Word
    requires wo < |ws|
  {
    if wo + 1 < |ws| then ws[wo + 1] else ws[wo]
  }

  /** The read expression of vl_vpi_get_word_gen on d0 = datap[wordOffset] and d1 = datap[wordOffset + 1]. */
  function ReadMasked(d0: Word, d1: Word, maskLo: Word, maskHi: Word, bo: nat): (r: Word)
    requires |d0| == |d1| == |maskLo| == |maskHi| && bo <= |d0|
    ensures |r| == |d0|
  {
    var lo := Shr(And(d0, maskLo), bo);
    if NonZero(maskHi) then Or(lo, Shl(And(d1, maskHi), |d0| - bo)) else lo
  }

  lemma ReadMaskedBits(d0: Word, d1: Word, maskLo: Word, maskHi: Word, bo: nat, cnt: nat)
    requires |d0| == |d1| && bo < |d0| && cnt <= |d0| && MasksSelect(|d0|, bo, cnt, maskLo, maskHi)
    ensures NonZero(maskHi) <==> bo + cnt > |d0|
    ensures forall j | 0 <= j < |d0| ::
      ReadMasked(d0, d1, maskLo, maskHi, bo)[j] ==
      (j < cnt && if bo + j < |d0| then d0[bo + j] else d1[bo + j - |d0|])
  {
    if bo + cnt > |d0| {
      assert maskHi[bo + cnt - |d0| - 1];
    }
  }

  /** The masked read at the field's word offset yields the field: cnt storage bits from base, with zeros above. */
  lemma ReadFieldBits(wide: bool, w: nat, ws: seq<Word>, cnt: nat, base: nat, info: AccessInfo)
    requires StorageFits(wide, w, ws, base + cnt) && w in {8, 16, 32, 64} && 0 < cnt <= w
    requires info.bitOffset < w && MasksSelect(w, info.bitOffset, cnt, info.maskLo, info.maskHi)
    requires if wide then 32 * info.wordOffset + info.bitOffset == base else info.wordOffset == 0 && info.bitOffset == base
    ensures info.wordOffset < |ws|
    ensures forall j | 0 <= j < w ::
      ReadMasked(ws[info.wordOffset], NextWord(ws, info.wordOffset), info.maskLo, info.maskHi, info.bitOffset)[j]
      == (j < cnt && Bit(wide, w, ws, base + j))
  {
    var wo, bo := info.wordOffset, info.bitOffset;
    assert wo < |ws| && (bo + cnt > w ==> wo + 1 < |ws|);
    ReadMaskedBits(ws[wo], NextWord(ws, wo), info.maskLo, info.maskHi, bo, cnt);
    var word := ReadMasked(ws[wo], NextWord(ws, wo), info.maskLo, info.maskHi, bo);
    forall j | 0 <= j < w ensures word[j] == (j < cnt && Bit(wide, w, ws, base + j)) {
      if wide && j < cnt {
        if bo + j < 32 {
          WordSplit(wo, bo + j);
        } else {
          WordSplit(wo + 1, bo + j - 32);
        }
      }
    }
  }

  /**
   * vl_vpi_get_word_gen: the cnt bits of the storage from the field start,
   * moved down to bit 0, with zeros above.
   */
  function GetWordGen(v: VarView, ws: seq<Word>, bitCount: nat, addOffset: nat): (r: Result<Word, AccessError>)
    requires StorageOk(v, ws) && bitCount > 0
    ensures r.Ok? <==> AccessOk(v, bitCount, addOffset)
    ensures r.Err? ==> r.error == AccessInfoOf(v, bitCount, addOffset).error
    ensures r.Ok? ==>
      var cnt, base, wide, w := Count(v, bitCount, addOffset), Base(v, addOffset), v.vltype == WData, WordBits(v.vltype);
      && |r.value| == w && base + cnt <= Capacity(wide, w, ws)
      && forall j | 0 <= j < w :: r.value[j] == (j < cnt && Bit(wide, w, ws, base + j))
  {
    match AccessInfoOf(v, bitCount, addOffset)
    case Err(e) => Err(e)
    case Ok(info) =>
      var cnt, base, wide, w := Count(v, bitCount, addOffset), Base(v, addOffset), v.vltype == WData, WordBits(v.vltype);
      assert StorageFits(wide, w, ws, base + cnt);
      ReadFieldBits(wide, w, ws, cnt, base, info);
      Ok(ReadMasked(ws[info.wordOffset], NextWord(ws, info.wordOffset), info.maskLo, info.maskHi, info.bitOffset))
  }

  /** The QData result of vl_vpi_get_word: the field, zero-extended to 64 bits. */
  function GetWord(v: VarView, ws: seq<Word>, bitCount: nat, addOffset: nat): (r: Result<Word, AccessError>)
    requires IsIntegral(v.vltype) ==> StorageOk(v, ws)
    requires bitCount > 0
    ensures !IsIntegral(v.vltype) ==> r == Err(UnsupportedType)
    ensures IsIntegral(v.vltype) ==> (r.Ok? <==> AccessOk(v, bitCount, addOffset))
    ensures r.Ok? ==>
      var cnt, base, wide, w := Count(v, bitCount, addOffset), Base(v, addOffset), v.vltype == WData, WordBits(v.vltype);
      && |r.value| == 64 && base + cnt <= Capacity(wide, w, ws)
      && forall j | 0 <= j < 64 :: r.value[j] == (j < cnt && Bit(wide, w, ws, base + j))
  {
    if !IsIntegral(v.vltype) then Err(UnsupportedType)
    else
      match GetWordGen(v, ws, bitCount, addOffset)
      case Err(e) => Err(e)
      case Ok(w) => Ok(Resize(w, 64))
  }

  /** The new value of datap[wordOffset] in vl_vpi_put_word_gen. */
  function WriteLo(d0: Word, word: Word, maskLo: Word, bo: nat): (r: Word)
    requires |d0| == |word| == |maskLo|
    ensures |r| == |d0|
  {
    Or(And(d0, Not(maskLo)), And(Shl(word, bo), maskLo))
  }

  /** The new value of datap[wordOffset + 1] in vl_vpi_put_word_gen. */
  function WriteHi(d1: Word, word: Word, maskHi: Word, bo: nat): (r: Word)
    requires |d1| == |word| == |maskHi| && bo <= |d1|
    ensures |r| == |d1|
  {
    Or(And(d1, Not(maskHi)), And(Shr(word, |d1| - bo), maskHi))
  }

  /** WriteLo and WriteHi under selecting masks: the field bits come from the word, the others stay. */
  lemma WriteMaskedBits(d0: Word, d1: Word, word: Word, maskLo: Word, maskHi: Word, bo: nat, cnt: nat)
    requires |d0| == |d1| == |word| && bo < |d0| && cnt <= |d0| && MasksSelect(|d0|, bo, cnt, maskLo, maskHi)
    ensures forall i | 0 <= i < |d0| ::
      WriteLo(d0, word, maskLo, bo)[i] == if bo <= i < bo + cnt then word[i - bo] else d0[i]
    ensures forall i | 0 <= i < |d0| ::
      WriteHi(d1, word, maskHi, bo)[i] == if i + |d0| < bo + cnt then word[i + |d0| - bo] else d1[i]
  {
  }

  /**
   * The storage after a put: the cnt bits from base are the low bits of
   * word, every other bit is as before.
   */
  ghost predicate FieldWritten(wide: bool, w: nat, ws: seq<Word>, ws': seq<Word>, base: nat, cnt: nat, word: Word)
  {
    |ws| >= 1 && WordsOf(ws, w) && (wide ==> w == 32) && |ws'| == |ws| && WordsOf(ws', w)
    && base + cnt <= Capacity(wide, w, ws) && cnt <= |word|
    && forall p | 0 <= p < Capacity(wide, w, ws) ::
         Bit(wide, w, ws', p) == if base <= p < base + cnt then word[p - base] else Bit(wide, w, ws, p)
  }

  /** The storage after the word writes of vl_vpi_put_word_gen. */
  function WrittenWords(ws: seq<Word>, word: Word, info: AccessInfo): (r: seq<Word>)
    requires info.wordOffset < |ws| && |word| == |ws[info.wordOffset]| == |info.maskLo| == |info.maskHi|
    requires info.bitOffset <= |word|
    requires NonZero(info.maskHi) ==> info.wordOffset + 1 < |ws| && |ws[info.wordOffset + 1]| == |word|
    ensures |r| == |ws|
  {
    var wo, bo := info.wordOffset, info.bitOffset;
    var hiDone := if NonZero(info.maskHi) then ws[wo + 1 := WriteHi(ws[wo + 1], word, info.maskHi, bo)] else ws;
    hiDone[wo := WriteLo(ws[wo], word, info.maskLo, bo)]
  }

  /** The word writes store the field and change no other bit. */
  lemma WordsWritten(wide: bool, w: nat, ws: seq<Word>, word: Word, info: AccessInfo, cnt: nat, base: nat)
    requires StorageFits(wide, w, ws, base + cnt) && w in {8, 16, 32, 64} && 0 < cnt <= w && |word| == w
    requires info.bitOffset < w && MasksSelect(w, info.bitOffset, cnt, info.maskLo, info.maskHi)
    requires if wide then 32 * info.wordOffset + info.bitOffset == base else info.wordOffset == 0 && info.bitOffset == base
    ensures info.wordOffset < |ws| && (NonZero(info.maskHi) ==> info.wordOffset + 1 < |ws|)
    ensures FieldWritten(wide, w, ws, WrittenWords(ws, word, info), base, cnt, word)
  {
    var wo, bo := info.wordOffset, info.bitOffset;
    assert wo < |ws| && (bo + cnt > w ==> wo + 1 < |ws|);
    ReadMaskedBits(ws[wo], NextWord(ws, wo), info.maskLo, info.maskHi, bo, cnt);
    WriteMaskedBits(ws[wo], NextWord(ws, wo), word, info.maskLo, info.maskHi, bo, cnt);
    if wide {
      WideWordsWritten(ws, word, info, cnt, base);
    } else {
      var ws' := WrittenWords(ws, word, info);
      assert ws' == [WriteLo(ws[0], word, info.maskLo, bo)];
    }
  }

  lemma WideWordsWritten(ws: seq<Word>, word: Word, info: AccessInfo, cnt: nat, base: nat)
    requires StorageFits(true, 32, ws, base + cnt) && 0 < cnt <= 32 && |word| == 32
    requires info.bitOffset < 32 && MasksSelect(32, info.bitOffset, cnt, info.maskLo, info.maskHi)
    requires 32 * info.wordOffset + info.bitOffset == base
    requires info.wordOffset < |ws| && (NonZero(info.maskHi) <==> info.bitOffset + cnt > 32)
    requires NonZero(info.maskHi) ==> info.wordOffset + 1 < |ws|
    requires forall i | 0 <= i < 32 ::
      WriteLo(ws[info.wordOffset], word, info.maskLo, info.bitOffset)[i]
      == if info.bitOffset <= i < info.bitOffset + cnt then word[i - info.bitOffset] else ws[info.wordOffset][i]
    requires forall i | 0 <= i < 32 ::
      WriteHi(NextWord(ws, info.wordOffset), word, info.maskHi, info.bitOffset)[i]
      == if i + 32 < info.bitOffset + cnt then word[i + 32 - info.bitOffset] else NextWord(ws, info.wordOffset)[i]
    ensures FieldWritten(true, 32, ws, WrittenWords(ws, word, info), base, cnt, word)
  {
    var wo, bo := info.wordOffset, info.bitOffset;
    var ws' := WrittenWords(ws, word, info);
    assert WordsOf(ws', 32);
    forall p | 0 <= p < 32 * |ws|
      ensures Bit(true, 32, ws', p) == if base <= p < base + cnt then word[p - base] else Bit(true, 32, ws, p)
    {
      var k, b := p / 32, p % 32;
      WordSplit(k, b);
      if k == wo {
        assert ws'[k] == WriteLo(ws[wo], word, info.maskLo, bo);
      } else if k == wo + 1 && NonZero(info.maskHi) {
        assert ws'[k] == WriteHi(NextWord(ws, wo), word, info.maskHi, bo);
      } else {
        assert ws'[k] == ws[k];
      }
    }
  }

  /**
   * The two word writes of vl_vpi_put_word_gen, for an access already
   * described by info: the field is stored and no other bit changes.
   */
  method WriteField(data: array<Word>, word: Word, info: AccessInfo, ghost wide: bool, ghost w: nat,
                    ghost cnt: nat, ghost base: nat)
    requires StorageFits(wide, w, data[..], base + cnt) && w in {8, 16, 32, 64} && 0 < cnt <= w && |word| == w
    requires info.bitOffset < w && MasksSelect(w, info.bitOffset, cnt, info.maskLo, info.maskHi)
    requires if wide then 32 * info.wordOffset + info.bitOffset == base else info.wordOffset == 0 && info.bitOffset == base
    modifies data
    ensures FieldWritten(wide, w, old(data[..]), data[..], base, cnt, word)
  {
    WordsWritten(wide, w, data[..], word, info, cnt, base);
    ghost var want := WrittenWords(data[..], word, info);
    var wo, bo := info.wordOffset, info.bitOffset;
    if NonZero(info.maskHi) {
      data[wo + 1] := WriteHi(data[wo + 1], word, info.maskHi, bo);
    }
    data[wo] := WriteLo(data[wo], word, info.maskLo, bo);
    assert data[..] == want;
  }

  /** vl_vpi_put_word_gen, writing the low bits of a word of the variable's word type. */
  method PutWordGen(v: VarView, data: array<Word>, word: Word, bitCount: nat, addOffset: nat)
    returns (err: Option<AccessError>)
    requires StorageOk(v, data[..]) && bitCount > 0 && |word| == WordBits(v.vltype)
    modifies data
    ensures err.None? <==> AccessOk(v, bitCount, addOffset)
    ensures err.Some? ==> err.value == AccessInfoOf(v, bitCount, addOffset).error && data[..] == old(data[..])
    ensures err.None? ==>
      FieldWritten(v.vltype == WData, WordBits(v.vltype), old(data[..]), data[..],
                   Base(v, addOffset), Count(v, bitCount, addOffset), word)
  {
    var res := AccessInfoOf(v, bitCount, addOffset);
    if res.Err? {
      return Some(res.error);
    }
    ghost var cnt, base, wide, w := Count(v, bitCount, addOffset), Base(v, addOffset), v.vltype == WData, WordBits(v.vltype);
    assert StorageFits(wide, w, data[..], base + cnt);
    WriteField(data, word, res.value, wide, w, cnt, base);
    err := None;
  }

  /** vl_vpi_put_word: the QData word is cut down to the variable's word type, then written. */
  method PutWord(v: VarView, data: array<Word>, word: Word, bitCount: nat, addOffset: nat)
    returns (err: Option<AccessError>)
    requires IsIntegral(v.vltype) ==> StorageOk(v, data[..])
    requires bitCount > 0 && |word| == 64
    modifies data
    ensures !IsIntegral(v.vltype) ==> err == Some(UnsupportedType)
    ensures IsIntegral(v.vltype) ==> (err.None? <==> AccessOk(v, bitCount, addOffset))
    ensures IsIntegral(v.vltype) && err.Some? ==> err.value == AccessInfoOf(v, bitCount, addOffset).error
    ensures err.Some? ==> data[..] == old(data[..])
    ensures err.None? ==>
      FieldWritten(v.vltype == WData, WordBits(v.vltype), old(data[..]), data[..],
                   Base(v, addOffset), Count(v, bitCount, addOffset), Resize(word, WordBits(v.vltype)))
  {
    if !IsIntegral(v.vltype) {
      return Some(UnsupportedType);
    }
    err := PutWordGen(v, data, Resize(word, WordBits(v.vltype)), bitCount, addOffset);
  }

  /**
   * Reading a field back after writing it gives the written word restricted
   * to its low cnt bits.
   */
  lemma GetAfterPut(v: VarView, ws: seq<Word>, ws': seq<Word>, word: Word, bitCount: nat, addOffset: nat)
    requires StorageOk(v, ws) && bitCount > 0 && AccessOk(v, bitCount, addOffset) && |word| == WordBits(v.vltype)
    requires FieldWritten(v.vltype == WData, WordBits(v.vltype), ws, ws', Base(v, addOffset), Count(v, bitCount, addOffset), word)
    ensures StorageOk(v, ws')
    ensures GetWordGen(v, ws', bitCount, addOffset) == Ok(And(word, Ones(|word|, Count(v, bitCount, addOffset))))
  {
    var cnt, base, wide, w := Count(v, bitCount, addOffset), Base(v, addOffset), v.vltype == WData, WordBits(v.vltype);
    assert StorageOk(v, ws');
    var r := GetWordGen(v, ws', bitCount, addOffset).value;
    WrittenFieldBits(wide, w, ws, ws', base, cnt, word);
    assert forall j | 0 <= j < w :: r[j] == (j < cnt && word[j]);
    MaskedFromField(r, word, cnt);
  }

  /** The bits a write put into the storage read back as the written word. */
  lemma WrittenFieldBits(wide: bool, w: nat, ws: seq<Word>, ws': seq<Word>, base: nat, cnt: nat, word: Word)
    requires FieldWritten(wide, w, ws, ws', base, cnt, word)
    ensures forall j | 0 <= j < cnt :: Bit(wide, w, ws', base + j) == word[j]
  {
    forall j | 0 <= j < cnt
      ensures Bit(wide, w, ws', base + j) == word[j]
    {
      assert base <= base + j < base + cnt;
    }
  }

  lemma MaskedFromField(r: Word, word: Word, cnt: nat)
    requires |r| == |word|
    requires forall j | 0 <= j < |r| :: r[j] == (j < cnt && word[j])
    ensures r == And(word, Ones(|word|, cnt))
  {
  }

  /**
   * A put changes only the bits of its field: a field that does not
   * overlap it reads the same before and after.
   */
  lemma GetDisjointAfterPut(v: VarView, ws: seq<Word>, ws': seq<Word>, word: Word, base: nat, cnt: nat,
                            bitCount: nat, addOffset: nat)
    requires StorageOk(v, ws) && bitCount > 0
    requires FieldWritten(v.vltype == WData, WordBits(v.vltype), ws, ws', base, cnt, word)
    requires Base(v, addOffset) + Count(v, bitCount, addOffset) <= base || base + cnt <= Base(v, addOffset)
    ensures StorageOk(v, ws')
    ensures GetWordGen(v, ws', bitCount, addOffset) == GetWordGen(v, ws, bitCount, addOffset)
  {
    var r, r' := GetWordGen(v, ws, bitCount, addOffset), GetWordGen(v, ws', bitCount, addOffset);
    if r.Ok? {
      assert r'.value == r.value;
    }
  }
}
