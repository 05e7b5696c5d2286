/**
 * The numeric value formats of vl_vpi_get_value and vpi_put_value
 * (include/verilated_vpi.cpp): vpiIntVal and vpiVectorVal. A number put
 * into a variable sets each bit of the value to the corresponding bit of
 * the number; reading the value gives it back modulo 2^bitSize.
 */
module VpiNumber {
  import opened Bits
  import opened Wrappers
  import opened VpiAccess
  import opened VpiText
  import VlOs

  // ---------------------------------------------------------------------
  // Arithmetic on binary digits

  /** Bit k of the number digits vals spell in base 2^g is bit k mod g of digit k div g. */
  lemma {:induction false} DigitsNumberBit(vals: seq<nat>, g: nat, k: nat)
    requires g > 0 && forall i | 0 <= i < |vals| :: vals[i] < Pow2(g)
    ensures BitOf(DigitsNumber(vals, g), k) == GroupBit(vals, g, k)
    decreases |vals|, 1
  {
    if vals == [] {
      assert DigitsNumber(vals, g) == 0;
      assert BitOf(0, k) == false;
    } else if k < g {
      GroupBitLow(vals, g, k);
    } else {
      GroupBitHigh(vals, g, k);
    }
  }

  /** A bit above the first digit is a bit of the remaining digits. */
  lemma {:induction false} GroupBitHigh(vals: seq<nat>, g: nat, k: nat)
    requires vals != [] && 0 < g <= k && forall i | 0 <= i < |vals| :: vals[i] < Pow2(g)
    ensures BitOf(DigitsNumber(vals, g), k) == GroupBit(vals, g, k)
    decreases |vals|, 0
  {
    var n := DigitsNumber(vals[1..], g);
    assert DigitsNumber(vals, g) == vals[0] + Pow2(g) * n;
    BitOfHigh(vals[0], n, g, k);
    assert forall i | 0 <= i < |vals[1..]| :: vals[1..][i] == vals[i + 1];
    DigitsNumberBit(vals[1..], g, k - g);
    GroupBitShift(vals, g, k);
  }

  lemma GroupBitLow(vals: seq<nat>, g: nat, k: nat)
    requires vals != [] && k < g
    ensures BitOf(DigitsNumber(vals, g), k) == GroupBit(vals, g, k)
  {
    BitOfLow(vals[0], DigitsNumber(vals[1..], g), g, k);
    DivModUnique(k, g, 0, k);
  }

  lemma GroupBitShift(vals: seq<nat>, g: nat, k: nat)
    requires vals != [] && 0 < g <= k
    ensures GroupBit(vals[1..], g, k - g) == GroupBit(vals, g, k)
  {
    DivAddMul(k - g, g, 1);
  }

  /** Digits of the same width that spell the same number are the same digits. */
  lemma {:induction false} DigitsUnique(a: seq<nat>, b: seq<nat>, g: nat)
    requires |a| == |b| && forall i | 0 <= i < |a| :: a[i] < Pow2(g) && b[i] < Pow2(g)
    requires DigitsNumber(a, g) == DigitsNumber(b, g)
    ensures a == b
    decreases |a|
  {
    if a != [] {
      DivModUnique(DigitsNumber(a, g), Pow2(g), DigitsNumber(a[1..], g), a[0]);
      DivModUnique(DigitsNumber(b, g), Pow2(g), DigitsNumber(b[1..], g), b[0]);
      DigitsUnique(a[1..], b[1..], g);
      assert a == [a[0]] + a[1..] && b == [b[0]] + b[1..];
    }
  }

  /** g times the group count covers the value. */
  lemma GroupCover(n: nat, g: nat)
    requires g > 0
    ensures g * GroupCount(n, g) >= n
  {
    var m := n + g - 1;
    assert m == g * (m / g) + m % g;
  }

  /** Bit k of a value of n bits lies in one of its groups. */
  lemma GroupOfBit(n: nat, g: nat, k: nat)
    requires g > 0 && k < n
    ensures k / g < GroupCount(n, g)
  {
    GroupCover(n, g);
    DivLess(k, g, GroupCount(n, g));
  }

  /** The value is below 2^bitSize. */
  lemma FieldValueBound(v: VarView, ws: seq<Word>)
    requires StorageOk(v, ws)
    ensures FieldValue(v, ws) < Pow2(v.bitSize)
  {
  }

  // ---------------------------------------------------------------------
  // Writing a whole number

  /**
   * Every bit of the value is the corresponding bit of n, and every other
   * bit of the storage is as before.
   */
  ghost predicate ValueWritten(v: VarView, ws: seq<Word>, ws': seq<Word>, n: nat)
  {
    StorageOk(v, ws) && StorageOk(v, ws') && |ws'| == |ws| && OutsideSame(v, ws, ws')
    && forall k | 0 <= k < v.bitSize :: FieldBit(v, ws', k) == BitOf(n, k)
  }

  /** A value written with n reads back as n modulo 2^bitSize. */
  lemma ValueWrittenRead(v: VarView, ws: seq<Word>, ws': seq<Word>, n: nat)
    requires ValueWritten(v, ws, ws', n)
    ensures FieldValue(v, ws') == n % Pow2(v.bitSize)
  {
    var slice := FieldSlice(v, ws', 0, v.bitSize);
    var f := FromNat(n, v.bitSize);
    forall j | 0 <= j < v.bitSize
      ensures slice[j] == f[j]
    {
      FromNatBit(n, v.bitSize, j);
    }
    assert slice == f;
    FromNatToNat(n, v.bitSize);
  }

  /** Writing x mod 2^a, for a at least the width, is writing x mod 2^bitSize. */
  lemma ValueWrittenMod(v: VarView, ws: seq<Word>, ws': seq<Word>, x: int, a: nat)
    requires ValueWritten(v, ws, ws', x % Pow2(a)) && v.bitSize <= a
    ensures ValueWritten(v, ws, ws', x % Pow2(v.bitSize))
  {
    forall k | 0 <= k < v.bitSize
      ensures BitOf(x % Pow2(a), k) == BitOf(x % Pow2(v.bitSize), k)
    {
      ModMod(x, a, v.bitSize);
      BitOfMod(x % Pow2(a), v.bitSize, k);
    }
  }

  /** Groups covering the whole value, each below 2^g, write the number they spell. */
  lemma GroupsAsValue(v: VarView, ws: seq<Word>, ws': seq<Word>, vals: seq<nat>, g: nat)
    requires GroupsWritten(v, ws, ws', vals, g) && |vals| == GroupCount(v.bitSize, g)
    requires forall i | 0 <= i < |vals| :: vals[i] < Pow2(g)
    ensures ValueWritten(v, ws, ws', DigitsNumber(vals, g))
  {
    forall k | 0 <= k < v.bitSize
      ensures FieldBit(v, ws', k) == BitOf(DigitsNumber(vals, g), k)
    {
      GroupOfBit(v.bitSize, g, k);
      DigitsNumberBit(vals, g, k);
    }
  }

  /** One put of the whole value: vl_vpi_put_word(vop, x, bitCount, 0) with the count clamped to bitSize. */
  lemma WordAsValue(v: VarView, ws: seq<Word>, ws': seq<Word>, x: nat, bitCount: nat)
    requires StorageOk(v, ws) && bitCount > 0 && Count(v, bitCount, 0) == v.bitSize
    requires v.bitSize <= WordBits(v.vltype)
    requires FieldWritten(v.vltype == WData, WordBits(v.vltype), ws, ws', Base(v, 0), Count(v, bitCount, 0),
                          Resize(FromNat(x, 64), WordBits(v.vltype)))
    ensures ValueWritten(v, ws, ws', x)
  {
    var word := PutArg(v, x);
    FieldWrittenOutside(v, ws, ws', 0, v.bitSize, word);
    forall k | 0 <= k < v.bitSize
      ensures FieldBit(v, ws', k) == BitOf(x, k)
    {
      FieldWrittenAt(v, ws, ws', 0, v.bitSize, word, k);
      PutArgBit(v, x, k);
    }
  }

  // ---------------------------------------------------------------------
  // vpiIntVal

  /** The values of PLI_INT32. */
  predicate IsInt32(x: int)
  {
    -0x8000_0000 <= x < 0x8000_0000
  }

  /** A 32-bit pattern read as PLI_INT32, in two's complement. */
  function Signed32(n: nat): (r: int)
    requires n < 0x1_0000_0000
    ensures IsInt32(r) && r % 0x1_0000_0000 == n
  {
    if n < 0x8000_0000 then n else n - 0x1_0000_0000
  }

  /** Every PLI_INT32 is the two's complement reading of its low 32 bits. */
  lemma Signed32Of(x: int)
    requires IsInt32(x)
    ensures Signed32(x % 0x1_0000_0000) == x
  {
    if x < 0 {
      IntDivModUnique(x, 0x1_0000_0000, -1, x + 0x1_0000_0000);
    } else {
      IntDivModUnique(x, 0x1_0000_0000, 0, x);
    }
  }

  /** vl_vpi_get_word(vop, 32, 0) of a non-empty value: its low 32 bits. */
  lemma LowWord(v: VarView, ws: seq<Word>)
    requires StorageOk(v, ws) && v.bitSize > 0
    ensures GroupValue(v, ws, 32, 0) == FieldValue(v, ws) % 0x1_0000_0000
  {
    Pow2Word();
    DigitsValue(v, ws, 32);
    var ds := Digits(v, ws, 32);
    GroupStartsInside(v.bitSize, 32, 0);
    assert ds[0] == GroupValue(v, ws, 32, 0);
    DivModUnique(FieldValue(v, ws), Pow2(32), DigitsNumber(ds[1..], 32), ds[0]);
  }

  /**
   * vl_vpi_get_value(vpiIntVal): the low 32 bits of the value as PLI_INT32.
   * An empty value fails the offset assertion.
   */
  function GetInt(v: VarView, ws: seq<Word>): (r: Result<int, AccessError>)
    requires StorageOk(v, ws)
    ensures r.Err? <==> v.bitSize == 0
    ensures r.Err? ==> r.error == OffsetOutsideVar
    ensures r.Ok? ==> r.value == Signed32(FieldValue(v, ws) % 0x1_0000_0000)
  {
    if v.bitSize == 0 then Err(OffsetOutsideVar)
    else
      LowWord(v, ws);
      Ok(Signed32(GroupValue(v, ws, 32, 0)))
  }

  /**
   * vpi_put_value(vpiIntVal) as written: the integer, sign-extended to
   * QData, is put with a bit count of 64. On a wide variable of more than 32
   * bits the count stays above one EData word and the bit-count assertion
   * of vl_vpi_var_access_info fails.
   */
  method PutInt(v: VarView, data: array<Word>, x: int) returns (err: Option<AccessError>)
    requires StorageOk(v, data[..]) && IsInt32(x)
    modifies data
    ensures err.None? <==> 0 < v.bitSize && !(v.vltype == WData && v.bitSize > 32)
    ensures err.Some? ==> data[..] == old(data[..])
    ensures err.None? ==> ValueWritten(v, old(data[..]), data[..], x % Pow2(v.bitSize))
  {
    Pow2Values();
    ghost var before := data[..];
    err := PutWord(v, data, FromNat(x % 0x1_0000_0000_0000_0000, 64), 64, 0);
    if err.None? {
      WordAsValue(v, before, data[..], x % Pow2(64), 64);
      ValueWrittenMod(v, before, data[..], x, 64);
    }
  }

  /** The words of x mod 2^(32 n), least significant first: x's low word, then its sign. */
  function SignWords(x: int, n: nat): (r: seq<nat>)
    ensures |r| == n && forall i | 0 <= i < n :: r[i] < 0x1_0000_0000
    decreases n
  {
    if n == 0 then [] else [x % 0x1_0000_0000] + SignWords(x / 0x1_0000_0000, n - 1)
  }

  lemma {:induction false} SignWordsNumber(x: int, n: nat)
    ensures DigitsNumber(SignWords(x, n), 32) == x % Pow2(32 * n)
    decreases n
  {
    if n > 0 {
      var p, m := Pow2(32), 32 * (n - 1);
      Pow2Word();
      var r := SignWords(x, n);
      SignWordsNumber(x / p, n - 1);
      assert r[1..] == SignWords(x / p, n - 1);
      assert DigitsNumber(r, 32) == x % p + p * ((x / p) % Pow2(m));
      assert 32 + m == 32 * n;
      Pow2Add(32, m);
      ModSplit(x, p, Pow2(m));
    }
  }

  /**
   * vpi_put_value(vpiIntVal) corrected: on a wide variable the integer is
   * written one EData word at a time, sign-extended over the whole value, as
   * the 64-bit put does for the narrower types.
   */
  method PutIntFixed(v: VarView, data: array<Word>, x: int) returns (err: Option<AccessError>)
    requires StorageOk(v, data[..]) && IsInt32(x)
    modifies data
    ensures err.None? <==> 0 < v.bitSize
    ensures err.Some? ==> data[..] == old(data[..])
    ensures err.None? ==> ValueWritten(v, old(data[..]), data[..], x % Pow2(v.bitSize))
  {
    ghost var before := data[..];
    if v.vltype == WData && v.bitSize > 32 {
      var n := GroupCount(v.bitSize, 32);
      var words := SignWords(x, n);
      SignWordsNumber(x, n);
      Pow2Word();
      err := PutGroups(v, data, words, 32);
      assert words[..Min(|words|, n)] == words;
      GroupsAsValue(v, before, data[..], words, 32);
      GroupCover(v.bitSize, 32);
      ValueWrittenMod(v, before, data[..], x, 32 * n);
    } else {
      err := PutInt(v, data, x);
    }
  }

  /** A wide variable of more than 32 bits defeats the put as written. */
  lemma IntWideFails(v: VarView)
    requires v.vltype == WData && v.bitSize > 32
    ensures !AccessOk(v, 64, 0)
  {
  }

  /**
   * Get after put of an integer: the low min(bitSize, 32) bits come back;
   * a value of 32 bits or more reads back as the integer itself, a narrower
   * one as its low bits, zero-extended.
   */
  lemma IntRoundTrip(v: VarView, ws: seq<Word>, ws': seq<Word>, x: int)
    requires ValueWritten(v, ws, ws', x % Pow2(v.bitSize)) && v.bitSize > 0 && IsInt32(x)
    ensures GetInt(v, ws').Ok?
    ensures v.bitSize >= 32 ==> GetInt(v, ws').value == x
    ensures v.bitSize < 32 ==> GetInt(v, ws').value == x % Pow2(v.bitSize)
  {
    Pow2Word();
    ValueWrittenRead(v, ws, ws', x % Pow2(v.bitSize));
    ModMod(x, v.bitSize, v.bitSize);
    var f := FieldValue(v, ws');
    if v.bitSize >= 32 {
      ModMod(x, v.bitSize, 32);
      Signed32Of(x);
    } else {
      Pow2Mono(v.bitSize, 31);
      assert Pow2(32) == 2 * Pow2(31);
      ModSmall(f, 0x1_0000_0000);
    }
  }

  // ---------------------------------------------------------------------
  // vpiVectorVal

  /** PLI_UINT32. */
  newtype U32 = x: int | 0 <= x < 0x1_0000_0000

  /** s_vpi_vecval: aval holds the value bits, bval the x/z bits. */
  datatype VecVal = VecVal(aval: U32, bval: U32)

  function Avals(vec: seq<VecVal>): (r: seq<nat>)
    ensures |r| == |vec| && forall i | 0 <= i < |vec| :: r[i] == vec[i].aval as nat
  {
    seq(|vec|, i requires 0 <= i < |vec| => vec[i].aval as nat)
  }

  /** The number of s_vpi_vecval entries the vector paths read or write. */
  function VecWords(v: VarView): nat
    requires IsIntegral(v.vltype)
  {
    if v.vltype == WData then GroupCount(v.bitSize, 32)
    else if v.vltype == Uint64 && v.bitSize > 32 then 2
    else 1
  }

  /** The number the first VecWords entries of a vector spell, 32 bits per entry. */
  function VecNumber(v: VarView, vec: seq<VecVal>): nat
    requires IsIntegral(v.vltype) && |vec| >= VecWords(v)
  {
    DigitsNumber(Avals(vec[..VecWords(v)]), 32)
  }

  datatype ValueError = TooManyWords | NullVector | Access(AccessError)

  lemma PairNumber(a: nat, b: nat, g: nat)
    ensures DigitsNumber([a, b], g) == a + Pow2(g) * b
  {
    var s := [a, b];
    assert s[1..] == [b] && [b][1..] == [];
    assert DigitsNumber([b], g) == b;
  }

  /** d split into its low and high 32-bit words. */
  lemma QuadDigits(d: nat)
    requires d < Pow2(64)
    ensures d / 0x1_0000_0000 < 0x1_0000_0000
    ensures DigitsNumber([d % 0x1_0000_0000, d / 0x1_0000_0000], 32) == d
  {
    Pow2Values();
    PairNumber(d % 0x1_0000_0000, d / 0x1_0000_0000, 32);
  }

  lemma OneDigit(a: nat, g: nat)
    ensures DigitsNumber([a], g) == a
  {
    assert [a][1..] == [];
  }

  lemma AvalsAppend(vec: seq<VecVal>, e: VecVal)
    ensures Avals(vec + [e]) == Avals(vec) + [e.aval as nat]
  {
  }

  /** The loop of vl_vpi_get_value(vpiVectorVal) for a wide value: entry i is vl_vpi_get_word(vop, 32, 32 i). */
  method GetWideVector(v: VarView, data: array<Word>) returns (out: seq<VecVal>)
    requires StorageOk(v, data[..]) && v.vltype == WData
    ensures Avals(out) == Digits(v, data[..], 32)
    ensures forall i | 0 <= i < |out| :: out[i].bval == 0
  {
    var ws := data[..];
    ghost var entries := WideEntries(v, ws);
    var words := GroupCount(v.bitSize, 32);
    out := [];
    var i := 0;
    while i < words
      invariant 0 <= i <= words && out == entries[..i]
    {
      out := out + [VecVal(WideWord(v, ws, i), 0)];
      assert entries[..i + 1] == entries[..i] + [entries[i]];
      i := i + 1;
    }
    assert entries[..i] == entries;
    WideEntriesDigits(v, ws);
  }

  /** Entry i of a wide value: vl_vpi_get_word(vop, 32, 32 i). */
  function WideWord(v: VarView, ws: seq<Word>, i: nat): U32
    requires StorageOk(v, ws) && v.vltype == WData && i < GroupCount(v.bitSize, 32)
  {
    Pow2Word();
    GroupStartsInside(v.bitSize, 32, i);
    GroupValue(v, ws, 32, i) as U32
  }

  /** The entries the loop fills, one per 32-bit word of the value. */
  function WideEntries(v: VarView, ws: seq<Word>): seq<VecVal>
    requires StorageOk(v, ws) && v.vltype == WData
  {
    seq(GroupCount(v.bitSize, 32), k requires 0 <= k < GroupCount(v.bitSize, 32) => VecVal(WideWord(v, ws, k), 0))
  }

  lemma WideEntriesDigits(v: VarView, ws: seq<Word>)
    requires StorageOk(v, ws) && v.vltype == WData
    ensures Avals(WideEntries(v, ws)) == Digits(v, ws, 32)
    ensures forall k | 0 <= k < |WideEntries(v, ws)| :: WideEntries(v, ws)[k].bval == 0
  {
    var out := WideEntries(v, ws);
    var ds := Digits(v, ws, 32);
    forall k | 0 <= k < |out|
      ensures Avals(out)[k] == ds[k]
    {
      assert out[k].aval == WideWord(v, ws, k);
      GroupStartsInside(v.bitSize, 32, k);
    }
  }

  /** vl_vpi_get_word(vop, 64, 0) of a QData value reads the whole value. */
  lemma WholeWord(v: VarView, ws: seq<Word>)
    requires StorageOk(v, ws) && v.vltype == Uint64 && v.bitSize > 0
    ensures GetWord(v, ws, 64, 0).Ok? && ToNat(GetWord(v, ws, 64, 0).value) == FieldValue(v, ws)
  {
    GetWordInside(v, ws, 64, 0);
    GetWordField(v, ws, 64, 0);
  }

  /** A QData value is below 2^64. */
  lemma QuadBound(v: VarView, ws: seq<Word>)
    requires StorageOk(v, ws) && v.vltype == Uint64
    ensures FieldValue(v, ws) < Pow2(64)
  {
    FieldValueBound(v, ws);
    Pow2Mono(v.bitSize, 64);
  }

  /** Entries with the given aval words and no x/z bits. */
  function Entries(avals: seq<nat>): (r: seq<VecVal>)
    requires forall i | 0 <= i < |avals| :: avals[i] < 0x1_0000_0000
    ensures Avals(r) == avals && forall i | 0 <= i < |r| :: r[i].bval == 0
  {
    seq(|avals|, i requires 0 <= i < |avals| => VecVal(avals[i] as U32, 0))
  }

  /** A 64-bit number as two entries, low word first. */
  function QuadEntries(d: nat): (out: seq<VecVal>)
    requires d < Pow2(64)
    ensures |out| == 2 && out[0].bval == 0 && out[1].bval == 0
    ensures DigitsNumber(Avals(out), 32) == d
  {
    QuadDigits(d);
    Entries([d % 0x1_0000_0000, d / 0x1_0000_0000])
  }

  /**
   * vl_vpi_get_value(vpiVectorVal) for a QData value of more than 32 bits:
   * the 64-bit read split in two entries (QuadVectorReadsWord ties the read
   * to vl_vpi_get_word(vop, 64, 0)).
   */
  function GetQuadVector(v: VarView, ws: seq<Word>): (out: seq<VecVal>)
    requires StorageOk(v, ws) && v.vltype == Uint64 && v.bitSize > 32
    ensures |out| == 2 && out[0].bval == 0 && out[1].bval == 0
    ensures DigitsNumber(Avals(out), 32) == FieldValue(v, ws)
  {
    QuadBound(v, ws);
    QuadEntries(FieldValue(v, ws))
  }

  lemma QuadVectorReadsWord(v: VarView, ws: seq<Word>)
    requires StorageOk(v, ws) && v.vltype == Uint64 && v.bitSize > 32
    ensures GetWord(v, ws, 64, 0).Ok?
    ensures ToNat(GetWord(v, ws, 64, 0).value) < Pow2(64)
    ensures GetQuadVector(v, ws) == QuadEntries(ToNat(GetWord(v, ws, 64, 0).value))
  {
    WholeWord(v, ws);
    QuadBound(v, ws);
  }

  /** vl_vpi_get_value(vpiVectorVal) for a value of at most 32 bits: one 32-bit read. */
  function GetNarrowVector(v: VarView, ws: seq<Word>): (out: seq<VecVal>)
    requires StorageOk(v, ws) && 0 < v.bitSize <= 32
    ensures |out| == 1 && out[0].bval == 0
    ensures DigitsNumber(Avals(out), 32) == FieldValue(v, ws)
  {
    NarrowWord(v, ws);
    var a := GroupValue(v, ws, 32, 0);
    OneDigit(a, 32);
    Entries([a])
  }

  /** The one 32-bit read of a value of at most 32 bits is the whole value. */
  lemma NarrowWord(v: VarView, ws: seq<Word>)
    requires StorageOk(v, ws) && 0 < v.bitSize <= 32
    ensures GroupValue(v, ws, 32, 0) == FieldValue(v, ws) < 0x1_0000_0000
  {
    Pow2Word();
    LowWord(v, ws);
    FieldValueBound(v, ws);
    Pow2Mono(v.bitSize, 32);
    ModSmall(FieldValue(v, ws), 0x1_0000_0000);
  }

  /**
   * vl_vpi_get_value(vpiVectorVal): the value in 32-bit entries, least
   * significant first, with no x/z bits. A wide value of
   * VL_VALUE_STRING_MAX_WORDS words or more is refused; an empty narrow
   * value fails the offset assertion.
   */
  method GetVector(v: VarView, data: array<Word>) returns (r: Result<seq<VecVal>, ValueError>)
    requires StorageOk(v, data[..])
    ensures r.Err? <==> (v.vltype == WData && VecWords(v) >= VlOs.ValueStringMaxWords)
                        || (v.vltype != WData && v.bitSize == 0)
    ensures r.Ok? ==> |r.value| == VecWords(v) && forall i | 0 <= i < |r.value| :: r.value[i].bval == 0
    ensures r.Ok? ==> DigitsNumber(Avals(r.value), 32) == FieldValue(v, data[..])
  {
    var out;
    if v.vltype == WData {
      if GroupCount(v.bitSize, 32) >= VlOs.ValueStringMaxWords {
        return Err(TooManyWords);
      }
      out := GetWideVector(v, data);
      DigitsValue(v, data[..], 32);
    } else if v.vltype == Uint64 && v.bitSize > 32 {
      out := GetQuadVector(v, data[..]);
    } else if v.bitSize == 0 {
      return Err(Access(OffsetOutsideVar));
    } else {
      out := GetNarrowVector(v, data[..]);
    }
    return Ok(out);
  }

  /** The loop of vpi_put_value(vpiVectorVal) for a wide value: entry i goes to group i through vl_vpi_put_word(vop, aval, 32, 32 i). */
  method PutWideVector(v: VarView, data: array<Word>, avals: seq<nat>)
    requires StorageOk(v, data[..]) && v.vltype == WData && |avals| == GroupCount(v.bitSize, 32)
    requires forall i | 0 <= i < |avals| :: avals[i] < 0x1_0000_0000
    modifies data
    ensures ValueWritten(v, old(data[..]), data[..], DigitsNumber(avals, 32))
  {
    Pow2Word();
    ghost var before := data[..];
    var e := PutGroups(v, data, avals, 32);
    assert avals[..Min(|avals|, GroupCount(v.bitSize, 32))] == avals;
    GroupsAsValue(v, before, data[..], avals, 32);
  }

  /** vpi_put_value(vpiVectorVal) for a QData value of more than 32 bits: one 64-bit write of both entries. */
  method PutQuadVector(v: VarView, data: array<Word>, a0: nat, a1: nat)
    requires StorageOk(v, data[..]) && v.vltype == Uint64 && v.bitSize > 32
    requires a0 < 0x1_0000_0000 && a1 < 0x1_0000_0000
    modifies data
    ensures ValueWritten(v, old(data[..]), data[..], a1 * 0x1_0000_0000 + a0)
  {
    ghost var before := data[..];
    var val := a1 * 0x1_0000_0000 + a0;
    Pow2Small();
    var e := PutWord(v, data, FromNat(val, 64), 64, 0);
    WordAsValue(v, before, data[..], val, 64);
  }

  /** vpi_put_value(vpiVectorVal) for a value of at most 32 bits: one 32-bit write of the first entry. */
  method PutNarrowVector(v: VarView, data: array<Word>, a0: nat) returns (err: Option<AccessError>)
    requires StorageOk(v, data[..]) && v.vltype != WData && !(v.vltype == Uint64 && v.bitSize > 32)
    requires a0 < 0x1_0000_0000
    modifies data
    ensures err.None? <==> v.bitSize > 0
    ensures err.Some? ==> data[..] == old(data[..])
    ensures err.None? ==> ValueWritten(v, old(data[..]), data[..], a0)
  {
    ghost var before := data[..];
    Pow2Small();
    err := PutWord(v, data, FromNat(a0, 64), 32, 0);
    if err.None? {
      WordAsValue(v, before, data[..], a0, 32);
    }
  }

  /** Two entries spell low + 2^32 high. */
  lemma TwoDigits(vs: seq<VecVal>)
    requires |vs| == 2
    ensures DigitsNumber(Avals(vs), 32) == vs[1].aval as nat * 0x1_0000_0000 + vs[0].aval as nat
  {
    Pow2Word();
    assert Avals(vs) == [vs[0].aval as nat, vs[1].aval as nat];
    PairNumber(vs[0].aval as nat, vs[1].aval as nat, 32);
  }

  /**
   * vpi_put_value(vpiVectorVal): the aval bits of the first VecWords
   * entries become the value; a null vector changes nothing. An empty
   * narrow value fails the offset assertion.
   */
  method PutVector(v: VarView, data: array<Word>, vec: Option<seq<VecVal>>) returns (err: Option<ValueError>)
    requires StorageOk(v, data[..]) && (vec.Some? ==> |vec.value| >= VecWords(v))
    modifies data
    ensures err == Some(NullVector) <==> vec.None?
    ensures vec.Some? ==> (err.None? <==> v.vltype == WData || v.bitSize > 0)
    ensures err.Some? ==> data[..] == old(data[..])
    ensures err.None? ==> ValueWritten(v, old(data[..]), data[..], VecNumber(v, vec.value))
  {
    if vec.None? {
      return Some(NullVector);
    }
    var vs := vec.value;
    if v.vltype == WData {
      assert VecNumber(v, vs) == DigitsNumber(Avals(vs[..GroupCount(v.bitSize, 32)]), 32);
      PutWideVector(v, data, Avals(vs[..GroupCount(v.bitSize, 32)]));
    } else if v.vltype == Uint64 && v.bitSize > 32 {
      TwoDigits(vs[..2]);
      assert VecNumber(v, vs) == vs[1].aval as nat * 0x1_0000_0000 + vs[0].aval as nat;
      PutQuadVector(v, data, vs[0].aval as nat, vs[1].aval as nat);
    } else {
      OneDigit(vs[0].aval as nat, 32);
      assert Avals(vs[..1]) == [vs[0].aval as nat];
      assert VecNumber(v, vs) == vs[0].aval as nat;
      var e := PutNarrowVector(v, data, vs[0].aval as nat);
      if e.Some? {
        return Some(Access(e.value));
      }
    }
    err := None;
  }

  /**
   * Get after put of a vector whose number fits the value returns the
   * entries that were put.
   */
  lemma VectorRoundTrip(v: VarView, ws: seq<Word>, ws': seq<Word>, vec: seq<VecVal>, out: seq<VecVal>)
    requires IsIntegral(v.vltype) && |vec| >= VecWords(v) && ValueWritten(v, ws, ws', VecNumber(v, vec))
    requires VecNumber(v, vec) < Pow2(v.bitSize)
    requires |out| == VecWords(v) && DigitsNumber(Avals(out), 32) == FieldValue(v, ws')
    ensures Avals(out) == Avals(vec[..VecWords(v)])
  {
    Pow2Word();
    ValueWrittenRead(v, ws, ws', VecNumber(v, vec));
    ModSmall(VecNumber(v, vec), Pow2(v.bitSize));
    DigitsUnique(Avals(out), Avals(vec[..VecWords(v)]), 32);
  }
}
