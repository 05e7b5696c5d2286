/**
 * Data types of the abstract syntax tree: the width bookkeeping every data
 * type carries, the C type chosen to hold a value, the signing of basic
 * types, their DPI classification and declared range, packed structs and
 * unions, and the byte size of unpacked arrays.
 */
module DTypes {
  import opened Wrappers
  import opened VlOs
  import opened Decimal

  /** VSigning: an explicit signing, or none given. */
  datatype Signing = Unsigned | Signed | NoSign

  /** The signing a boolean "is signed" flag stands for (VSigning::fromBool). */
  function FromBool(isSigned: bool): (r: Signing)
    ensures r != NoSign && (r == Signed <==> isSigned)
  {
    if isSigned then Signed else Unsigned
  }

  // ---------------------------------------------------------------------
  // The C++ type that holds a value of a given width

  const WidePrefix: string := "VlWide<"

  /**
   * The name of the C++ type the generated code stores a value of the given
   * width in: one of the four integral types up to 64 bits, a word array
   * beyond.
   */
  function TypeToHold(width: nat): (r: string)
    ensures width <= 8 <==> r == "CData"
    ensures 8 < width <= 16 <==> r == "SData"
    ensures 16 < width <= 32 <==> r == "IData"
    ensures 32 < width <= 64 <==> r == "QData"
    ensures width > 64 <==>
      (|r| > |WidePrefix| + 1 && r[..|WidePrefix|] == WidePrefix && r[|r| - 1] == '>')
  {
    if width <= 8 then "CData"
    else if width <= 16 then "SData"
    else if width <= 32 then "IData"
    else if width <= 64 then "QData"
    else WidePrefix + ToDecimal(WordsI(width)) + ">"
  }

  /** The word count between the angle brackets of a wide type. */
  function WideWords(r: string): (digits: string)
    requires |r| > |WidePrefix| + 1
  {
    r[|WidePrefix|..|r| - 1]
  }

  /**
   * A wide type names the number of 32-bit words the width needs: enough
   * words for every bit, and not one more; at least three words.
   */
  lemma WideHoldsWords(width: nat)
    requires width > 64
    ensures var digits := WideWords(TypeToHold(width));
      (forall k | 0 <= k < |digits| :: IsDigit(digits[k])) &&
      var n := ParseDecimal(digits);
      n * EDataSize >= width && (n - 1) * EDataSize < width && n >= 3
  {
    var r := TypeToHold(width);
    var d := ToDecimal(WordsI(width));
    assert WideWords(r) == d;
    DecimalRoundTrip(WordsI(width));
  }

  /** Two different wide widths share a type exactly when they need the same words. */
  lemma WideSameType(w1: nat, w2: nat)
    requires w1 > 64 && w2 > 64
    ensures TypeToHold(w1) == TypeToHold(w2) <==> WordsI(w1) == WordsI(w2)
  {
    if TypeToHold(w1) == TypeToHold(w2) {
      assert WideWords(TypeToHold(w1)) == ToDecimal(WordsI(w1));
      assert WideWords(TypeToHold(w2)) == ToDecimal(WordsI(w2));
      DecimalInjective(WordsI(w1), WordsI(w2));
    }
  }

  // ---------------------------------------------------------------------
  // The width bookkeeping of every data type

  /**
   * The fields of a data type the width pass updates in place: its width,
   * its minimum width (0 when it equals the width), its signing, and its
   * own dtypep(), which a data type points at itself.
   */
  class NodeDType {
    var width: nat
    var widthMinField: nat
    var numeric: Signing
    var dtypep: NodeDType?

    constructor (width: nat, numeric: Signing)
      ensures this.width == width && widthMinField == 0 && this.numeric == numeric && dtypep == this
    {
      this.width := width;
      widthMinField := 0;
      this.numeric := numeric;
      new;
      dtypep := this;
    }

    /** dtypep(d): point the type's own data type somewhere. */
    method SetDTypep(d: NodeDType?)
      modifies this
      ensures dtypep == d && width == old(width) && widthMinField == old(widthMinField) && numeric == old(numeric)
    {
      dtypep := d;
    }

    /** The minimum width: the recorded one, or the width when none is recorded. */
    function WidthMin(): (r: nat)
      reads this
      ensures r == width || (widthMinField != 0 && r == widthMinField)
      ensures widthMinField != 0 ==> r == widthMinField
    {
      if widthMinField != 0 then widthMinField else width
    }

    /** A type is width-sized when its minimum width is its width. */
    predicate WidthSized()
      reads this
      ensures WidthSized() <==> WidthMin() == width
    {
      widthMinField == 0 || widthMinField == width
    }

    /** widthForce: set both the width and the minimum width. */
    method WidthForce(w: nat, wm: nat)
      modifies this
      ensures width == w && widthMinField == wm && numeric == old(numeric) && dtypep == old(dtypep)
      ensures WidthMin() == (if wm == 0 then w else wm)
    {
      width := w;
      widthMinField := wm;
    }

    /** widthFromSub: copy width, minimum width and signing from another type. */
    method WidthFromSub(sub: NodeDType)
      modifies this
      ensures width == sub.width && widthMinField == sub.widthMinField
      ensures numeric == sub.numeric && dtypep == old(dtypep)
      ensures WidthMin() == sub.WidthMin() && (WidthSized() <==> sub.WidthSized())
    {
      width := sub.width;
      widthMinField := sub.widthMinField;
      numeric := sub.numeric;
    }

    /** widthMinFromWidth: make the minimum width the width. */
    method WidthMinFromWidth()
      modifies this
      ensures width == old(width) && numeric == old(numeric) && dtypep == old(dtypep)
      ensures widthMinField == width && WidthSized()
    {
      widthMinField := width;
    }

    /**
     * setSignedState on a basic type: an explicit signing replaces the
     * current one, "no signing given" keeps it.
     */
    method SetSignedState(signst: Signing)
      modifies this
      ensures width == old(width) && widthMinField == old(widthMinField) && dtypep == old(dtypep)
      ensures numeric == (if signst == NoSign then old(numeric) else signst)
    {
      if signst == Unsigned || signst == Signed {
        numeric := signst;
      }
    }

    /**
     * The broken() test of a basic type: its dtypep() must be itself, and
     * when the global minimum-width usage is VERILOG_WIDTH (verilogWidth)
     * a minimum width above the width is an error.
     */
    function WidthBroken(verilogWidth: bool): (r: bool)
      reads this
      ensures r <==> dtypep != this || (verilogWidth && WidthMin() > width)
      ensures !verilogWidth ==> (r <==> dtypep != this)
    {
      if dtypep != this then true
      else verilogWidth && widthMinField > width
    }
  }

  // ---------------------------------------------------------------------
  // The character code of a value's storage class

  /**
   * charIQWN: N for a string, W for a wide value, D for a double, Q for a
   * quad, I for anything else; the earlier test wins when several hold.
   */
  function CharIqwn(isString: bool, isWide: bool, isDouble: bool, isQuad: bool): (r: char)
    ensures r == 'N' <==> isString
    ensures r == 'W' <==> !isString && isWide
    ensures r == 'D' <==> !isString && !isWide && isDouble
    ensures r == 'Q' <==> !isString && !isWide && !isDouble && isQuad
    ensures r == 'I' <==> !isString && !isWide && !isDouble && !isQuad
  {
    if isString then 'N'
    else if isWide then 'W'
    else if isDouble then 'D'
    else if isQuad then 'Q'
    else 'I'
  }

  /** The storage code of an integral value follows its width: I, Q or W. */
  lemma CharIqwnOfWidth(width: nat)
    requires width > 0
    ensures CharIqwn(false, width > 64, false, 32 < width <= 64) ==
      (if width <= 32 then 'I' else if width <= 64 then 'Q' else 'W')
    ensures (CharIqwn(false, width > 64, false, 32 < width <= 64) == 'W') <==>
      TypeToHold(width) !in {"CData", "SData", "IData", "QData"}
  {
  }

  // ---------------------------------------------------------------------
  // Basic types: DPI classes and declared range

  /** The basic type keywords the DPI classification distinguishes. */
  datatype Keyword = Bit | Logic | OtherKeyword(fourstate: bool)

  predicate IsFourstate(kw: Keyword)
  {
    match kw
    case Bit => false
    case Logic => true
    case OtherKeyword(f) => f
  }

  /** The declared range of a basic type: hi, lo, and the direction. */
  datatype BasicRange = BasicRange(hi: int, lo: int, ascending: bool)

  /** A basic type: its keyword, whether it has a range, and that range. */
  datatype BasicDType = BasicDType(keyword: Keyword, ranged: bool, range: BasicRange)

  /** A ranged bit type passes to DPI as a svBitVecVal array. */
  predicate IsDpiBitVec(b: BasicDType)
  {
    b.keyword == Bit && b.ranged
  }

  /** A four-state type other than a scalar logic passes as a svLogicVecVal array. */
  predicate IsDpiLogicVec(b: BasicDType)
  {
    IsFourstate(b.keyword) && !(b.keyword == Logic && !b.ranged)
  }

  /** Everything else passes as a C primitive. */
  predicate IsDpiPrimitive(b: BasicDType)
  {
    !IsDpiBitVec(b) && !IsDpiLogicVec(b)
  }

  /** The three DPI classes partition the basic types. */
  lemma DpiExactlyOne(b: BasicDType)
    ensures !(IsDpiBitVec(b) && IsDpiLogicVec(b))
    ensures IsDpiPrimitive(b) <==> !IsDpiBitVec(b) && !IsDpiLogicVec(b)
  {
  }

  /**
   * Where bit and logic land: a ranged bit is a bit vector, a ranged logic
   * a logic vector, and both scalars are primitives.
   */
  lemma DpiOfBitLogic(b: BasicDType)
    requires b.keyword == Bit || b.keyword == Logic
    ensures b.keyword == Bit ==> (IsDpiBitVec(b) <==> b.ranged)
    ensures b.keyword == Logic ==> (IsDpiLogicVec(b) <==> b.ranged)
    ensures IsDpiPrimitive(b) <==> !b.ranged
  {
  }

  /** The left bound: lo when ascending, hi otherwise. */
  function Left(r: BasicRange): (x: int)
    ensures x == r.lo || x == r.hi
    ensures r.ascending ==> x == r.lo
  {
    if r.ascending then r.lo else r.hi
  }

  /** The right bound: hi when ascending, lo otherwise. */
  function Right(r: BasicRange): (x: int)
    ensures x == r.lo || x == r.hi
    ensures r.ascending ==> x == r.hi
  {
    if r.ascending then r.hi else r.lo
  }

  /** The declared range: left and right when ranged, the empty range otherwise. */
  function DeclRange(b: BasicDType): (r: Option<(int, int)>)
    ensures r.Some? <==> b.ranged
  {
    if b.ranged then Some((Left(b.range), Right(b.range))) else None
  }

  /**
   * The declared range keeps both bounds and the direction: its ends are
   * lo and hi, in the order the direction says, and flipping the direction
   * swaps them.
   */
  lemma DeclRangeBounds(b: BasicDType)
    requires b.ranged && b.range.lo <= b.range.hi
    ensures var (l, r) := DeclRange(b).value;
      (if l <= r then l else r) == b.range.lo && (if l <= r then r else l) == b.range.hi &&
      (l < r ==> b.range.ascending) && (l > r ==> !b.range.ascending)
    ensures var flipped := b.(range := b.range.(ascending := !b.range.ascending));
      DeclRange(flipped).value == (DeclRange(b).value.1, DeclRange(b).value.0)
  {
  }

  // ---------------------------------------------------------------------
  // Structs and unions

  /** A struct or union type: whether it is packed, and its signing. */
  class UOrStructDType {
    var packed: bool
    var numeric: Signing
    const isUnion: bool

    /**
     * A struct: packed exactly when a signing was given; its signing is
     * signed when signed was given and unsigned otherwise.
     */
    constructor Struct(numericUnpack: Signing)
      ensures !isUnion
      ensures packed <==> numericUnpack != NoSign
      ensures numeric == FromBool(numericUnpack == Signed)
    {
      isUnion := false;
      packed := numericUnpack != NoSign;
      numeric := FromBool(numericUnpack == Signed);
    }

    /** A union: as a struct, and a soft (or "tagged") union is always packed. */
    constructor Union(isSoft: bool, numericUnpack: Signing)
      ensures isUnion
      ensures packed <==> numericUnpack != NoSign || isSoft
      ensures numeric == FromBool(numericUnpack == Signed)
    {
      isUnion := true;
      packed := numericUnpack != NoSign || isSoft;
      numeric := FromBool(numericUnpack == Signed);
    }

    /** An unpacked struct or union is a compound type. */
    predicate IsCompound()
      reads this
    {
      !packed
    }
  }

  // ---------------------------------------------------------------------
  // Unpacked arrays

  /**
   * The data types whose byte size the model follows: a basic type with
   * its own size, the 8-byte C pointer type, and an array whose element
   * type is either referenced (refDType) or owned as a child (childDType).
   */
  datatype DType =
    | Sized(totalBytes: nat)
    | CType
    | ArrayDType(refDType: Option<DType>, childDType: Option<DType>, elements: nat)

  /** broken(): an array must have exactly one of a referenced and a child element type. */
  predicate ArrayBroken(d: DType)
    requires d.ArrayDType?
  {
    !((d.refDType.Some? && d.childDType.None?) || (d.refDType.None? && d.childDType.Some?))
  }

  /** The element type: the referenced one when present, the child otherwise. */
  function SubDType(d: DType): (r: Option<DType>)
    requires d.ArrayDType?
    ensures d.refDType.Some? ==> r == d.refDType
    ensures d.refDType.None? ==> r == d.childDType
  {
    if d.refDType.Some? then d.refDType else d.childDType
  }

  /** Every array in the type, at every depth, is not broken. */
  predicate WellFormed(d: DType)
  {
    match d
    case Sized(_) => true
    case CType => true
    case ArrayDType(rf, ch, _) =>
      !ArrayBroken(d) &&
      (if rf.Some? then WellFormed(rf.value) else WellFormed(ch.value))
  }

  /** An array that is not broken has an element type, the one it holds. */
  lemma SubDTypeOfWellFormed(d: DType)
    requires d.ArrayDType? && !ArrayBroken(d)
    ensures SubDType(d).Some?
    ensures SubDType(d) == d.refDType || SubDType(d) == d.childDType
    ensures d.refDType.None? <==> SubDType(d) == d.childDType && d.childDType.Some?
  {
  }

  /** widthTotalBytes: an array takes its element count times the element's bytes. */
  function WidthTotalBytes(d: DType): (r: nat)
    requires WellFormed(d)
  {
    match d
    case Sized(b) => b
    case CType => 8
    case ArrayDType(_, _, n) => n * WidthTotalBytes(SubDType(d).value)
  }

  /** The element counts of the nested arrays from the outside in, and the innermost type. */
  function Dims(d: DType): (r: (seq<nat>, DType))
    requires WellFormed(d)
    ensures !r.1.ArrayDType? && WellFormed(r.1)
  {
    match d
    case Sized(_) => ([], d)
    case CType => ([], d)
    case ArrayDType(_, _, n) =>
      var (ns, inner) := Dims(SubDType(d).value);
      ([n] + ns, inner)
  }

  function Prod(ns: seq<nat>): nat
  {
    if ns == [] then 1 else ns[0] * Prod(ns[1..])
  }

  /**
   * A nest of arrays takes the product of all its element counts times the
   * size of the innermost element, whichever of ref or child each level uses.
   */
  lemma {:induction false} NestedArrayBytes(d: DType)
    requires WellFormed(d)
    ensures WidthTotalBytes(d) == Prod(Dims(d).0) * WidthTotalBytes(Dims(d).1)
  {
    match d
    case Sized(_) =>
    case CType =>
    case ArrayDType(_, _, n) =>
      var sub := SubDType(d).value;
      NestedArrayBytes(sub);
      var (ns, inner) := Dims(sub);
      assert Dims(d).0 == [n] + ns;
      assert ([n] + ns)[1..] == ns;
      calc {
        WidthTotalBytes(d);
        n * WidthTotalBytes(sub);
        n * (Prod(ns) * WidthTotalBytes(inner));
        { assert n * (Prod(ns) * WidthTotalBytes(inner)) == (n * Prod(ns)) * WidthTotalBytes(inner); }
        Prod([n] + ns) * WidthTotalBytes(inner);
      }
  }
}
