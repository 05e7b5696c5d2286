/**
 * vl_check_format (include/verilated_vpi.cpp): which value formats
 * vl_vpi_get_value and vpi_put_value accept for a variable, by its storage
 * type. A refused format records an "Unsupported format" error.
 */
module VpiFormat {
  import opened Wrappers
  import opened VpiAccess
  import VpiStrings

  // Value format codes of vpi_user.h; each is its index in VpiStrings.ValNames.
  const BinStrVal := 1
  const OctStrVal := 2
  const DecStrVal := 3
  const HexStrVal := 4
  const ScalarVal := 5
  const IntVal := 6
  const RealVal := 7
  const StringVal := 8
  const VectorVal := 9
  const SuppressVal := 13

  /** The outcome of vl_check_format: its status and the error it records, if any. */
  datatype FormatCheck = FormatCheck(status: bool, error: Option<string>)

  function UnsupportedFormat(format: int, fullname: string): string
  {
    "vl_check_format: Unsupported format (" + VpiStrings.StrFromVpiVal(format) + ") for " + fullname
  }

  /** The formats every integral storage type takes: vector, binary, octal, hexadecimal, integer and string. */
  predicate IntegralFormat(format: int)
  {
    format in {VectorVal, BinStrVal, OctStrVal, HexStrVal, IntVal, StringVal}
  }

  function CheckFormat(v: VarView, format: int, fullname: string, isGetValue: bool): (r: FormatCheck)
    ensures r.status <==> r.error.None?
    ensures r.error.Some? ==> r.error.value == UnsupportedFormat(format, fullname)
    ensures IsIntegral(v.vltype) && IntegralFormat(format) ==> r.status
    ensures format == DecStrVal ==> (r.status <==> IsIntegral(v.vltype) && v.vltype != WData)
    ensures format == StringVal ==>
      (r.status <==> IsIntegral(v.vltype) || (v.vltype == Str && (isGetValue || !v.isParam)))
    ensures format in {VectorVal, BinStrVal, OctStrVal, HexStrVal, IntVal} ==> (r.status <==> IsIntegral(v.vltype))
    ensures format == RealVal ==> (r.status <==> v.vltype == Real)
    ensures format == SuppressVal ==> r.status
    ensures !(IntegralFormat(format) || format in {DecStrVal, RealVal, SuppressVal}) ==> !r.status
  {
    var status :=
      if format in {VectorVal, BinStrVal, OctStrVal, HexStrVal} then
        match v.vltype
        case Uint8 | Uint16 | Uint32 | Uint64 | WData => true
        case _ => false
      else if format == DecStrVal then
        match v.vltype
        case Uint8 | Uint16 | Uint32 | Uint64 => true
        case _ => false
      else if format == StringVal then
        match v.vltype
        case Uint8 | Uint16 | Uint32 | Uint64 | WData => true
        case Str => isGetValue || !v.isParam
        case _ => false
      else if format == IntVal then
        match v.vltype
        case Uint8 | Uint16 | Uint32 | Uint64 | WData => true
        case _ => false
      else if format == RealVal then v.vltype == Real
      else format == SuppressVal;
    FormatCheck(status, if status then None else Some(UnsupportedFormat(format, fullname)))
  }

  /** A string parameter can be read as a string but never written as one. */
  lemma StringParamReadOnly(v: VarView, fullname: string)
    requires v.vltype == Str && v.isParam
    ensures CheckFormat(v, StringVal, fullname, true).status
    ensures !CheckFormat(v, StringVal, fullname, false).status
  {
  }

  /** Only a string write to a string parameter depends on the direction: every other check is the same for get and put. */
  lemma DirectionMatters(v: VarView, format: int, fullname: string)
    requires CheckFormat(v, format, fullname, true) != CheckFormat(v, format, fullname, false)
    ensures format == StringVal && v.vltype == Str && v.isParam
  {
  }

  /** The formats whose value is a string pointer. */
  predicate StringFormat(format: int)
  {
    format in {BinStrVal, OctStrVal, DecStrVal, HexStrVal, StringVal}
  }

  /**
   * VerilatedVpiPutHolder::canInertialDelay: whether a vpiInertialDelay put
   * can be queued, given whether its string or vector pointer is set. Only
   * the string, scalar, integer, real and vector formats can, and a string
   * or vector format only with its pointer.
   */
  function CanInertialDelay(format: int, strSet: bool, vectorSet: bool): (r: bool)
    ensures r ==> StringFormat(format) || format in {ScalarVal, IntVal, RealVal, VectorVal}
    ensures StringFormat(format) ==> (r <==> strSet)
    ensures format == VectorVal ==> (r <==> vectorSet)
    ensures format in {ScalarVal, IntVal, RealVal} ==> r
  {
    if format == BinStrVal || format == OctStrVal || format == DecStrVal || format == HexStrVal || format == StringVal then strSet
    else if format == ScalarVal || format == IntVal || format == RealVal then true
    else if format == VectorVal then vectorSet
    else false
  }
}
