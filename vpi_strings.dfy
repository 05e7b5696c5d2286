/**
 * The name tables of VerilatedVpiError (include/verilated_vpi.cpp), used in
 * diagnostics: the name of a value format, object type, method, callback
 * reason, property or constant type, looked up by its code.
 */
module VpiStrings {
  import opened Wrappers

  const ValNames: seq<string> := [
    "*undefined*", "vpiBinStrVal", "vpiOctStrVal", "vpiDecStrVal", "vpiHexStrVal", "vpiScalarVal",
    "vpiIntVal", "vpiRealVal", "vpiStringVal", "vpiVectorVal", "vpiStrengthVal", "vpiTimeVal",
    "vpiObjTypeVal", "vpiSuppressVal", "vpiShortIntVal", "vpiLongIntVal", "vpiShortRealVal",
    "vpiRawTwoStateVal", "vpiRawFourStateVal"
  ]

  const ObjTypeNames: seq<string> := [
    "*undefined*", "vpiAlways", "vpiAssignStmt", "vpiAssignment", "vpiBegin", "vpiCase",
    "vpiCaseItem", "vpiConstant", "vpiContAssign", "vpiDeassign", "vpiDefParam", "vpiDelayControl",
    "vpiDisable", "vpiEventControl", "vpiEventStmt", "vpiFor", "vpiForce", "vpiForever", "vpiFork",
    "vpiFuncCall", "vpiFunction", "vpiGate", "vpiIf", "vpiIfElse", "vpiInitial", "vpiIntegerVar",
    "vpiInterModPath", "vpiIterator", "vpiIODecl", "vpiMemory", "vpiMemoryWord", "vpiModPath",
    "vpiModule", "vpiNamedBegin", "vpiNamedEvent", "vpiNamedFork", "vpiNet", "vpiNetBit",
    "vpiNullStmt", "vpiOperation", "vpiParamAssign", "vpiParameter", "vpiPartSelect",
    "vpiPathTerm", "vpiPort", "vpiPortBit", "vpiPrimTerm", "vpiRealVar", "vpiReg", "vpiRegBit",
    "vpiRelease", "vpiRepeat", "vpiRepeatControl", "vpiSchedEvent", "vpiSpecParam", "vpiSwitch",
    "vpiSysFuncCall", "vpiSysTaskCall", "vpiTableEntry", "vpiTask", "vpiTaskCall", "vpiTchk",
    "vpiTchkTerm", "vpiTimeVar", "vpiTimeQueue", "vpiUdp", "vpiUdpDefn", "vpiUserSystf",
    "vpiVarSelect", "vpiWait", "vpiWhile", "vpiCondition", "vpiDelay", "vpiElseStmt",
    "vpiForIncStmt", "vpiForInitStmt", "vpiHighConn", "vpiLhs", "vpiIndex", "vpiLeftRange",
    "vpiLowConn", "vpiParent", "vpiRhs", "vpiRightRange", "vpiScope", "vpiSysTfCall",
    "vpiTchkDataTerm", "vpiTchkNotifier", "vpiTchkRefTerm", "vpiArgument", "vpiBit", "vpiDriver",
    "vpiInternalScope", "vpiLoad", "vpiModDataPathIn", "vpiModPathIn", "vpiModPathOut",
    "vpiOperand", "vpiPortInst", "vpiProcess", "vpiVariables", "vpiUse", "vpiExpr", "vpiPrimitive",
    "vpiStmt", "vpiAttribute", "vpiBitSelect", "vpiCallback", "vpiDelayTerm", "vpiDelayDevice",
    "vpiFrame", "vpiGateArray", "vpiModuleArray", "vpiPrimitiveArray", "vpiNetArray", "vpiRange",
    "vpiRegArray", "vpiSwitchArray", "vpiUdpArray", "vpiActiveTimeFormat", "vpiInTerm",
    "vpiInstanceArray", "vpiLocalDriver", "vpiLocalLoad", "vpiOutTerm", "vpiPorts", "vpiSimNet",
    "vpiTaskFunc", "vpiContAssignBit", "vpiNamedEventArray", "vpiIndexedPartSelect", "vpiBaseExpr",
    "vpiWidthExpr", "vpiGenScopeArray", "vpiGenScope", "vpiGenVar", "vpiAutomatics"
  ]

  const SvObjTypeNames: seq<string> := [
    "vpiPackage", "vpiInterface", "vpiProgram", "vpiInterfaceArray", "vpiProgramArray",
    "vpiTypespec", "vpiModport", "vpiInterfaceTfDecl", "vpiRefObj", "vpiTypeParameter",
    "vpiLongIntVar", "vpiShortIntVar", "vpiIntVar", "vpiShortRealVar", "vpiByteVar", "vpiClassVar",
    "vpiStringVar", "vpiEnumVar", "vpiStructVar", "vpiUnionVar", "vpiBitVar", "vpiClassObj",
    "vpiChandleVar", "vpiPackedArrayVar", "*undefined*", "vpiLongIntTypespec",
    "vpiShortRealTypespec", "vpiByteTypespec", "vpiShortIntTypespec", "vpiIntTypespec",
    "vpiClassTypespec", "vpiStringTypespec", "vpiChandleTypespec", "vpiEnumTypespec",
    "vpiEnumConst", "vpiIntegerTypespec", "vpiTimeTypespec", "vpiRealTypespec",
    "vpiStructTypespec", "vpiUnionTypespec", "vpiBitTypespec", "vpiLogicTypespec",
    "vpiArrayTypespec", "vpiVoidTypespec", "vpiTypespecMember", "vpiDistItem", "vpiAliasStmt",
    "vpiThread", "vpiMethodFuncCall", "vpiMethodTaskCall", "vpiClockingBlock", "vpiClockingIODecl",
    "vpiClassDefn", "vpiConstraint", "vpiConstraintOrdering", "vpiPropertyDecl", "vpiPropertySpec",
    "vpiPropertyExpr", "vpiMulticlockSequenceExpr", "vpiClockedSeq", "vpiPropertyInst",
    "vpiSequenceDecl", "vpiCaseProperty", "*undefined*", "vpiSequenceInst", "vpiImmediateAssert",
    "vpiReturn", "vpiAnyPattern", "vpiTaggedPattern", "vpiStructPattern", "vpiDoWhile",
    "vpiOrderedWait", "vpiWaitFork", "vpiDisableFork", "vpiExpectStmt", "vpiForeachStmt",
    "vpiFinal", "vpiExtends", "vpiDistribution", "vpiSeqFormalDecl", "vpiEnumNet", "vpiIntegerNet",
    "vpiTimeNet", "vpiStructNet", "vpiBreak", "vpiContinue", "vpiAssert", "vpiAssume", "vpiCover",
    "vpiDisableCondition", "vpiClockingEvent", "vpiReturnStmt", "vpiPackedArrayTypespec",
    "vpiPackedArrayNet", "vpiImmediateAssume", "vpiImmediateCover", "vpiSequenceTypespec",
    "vpiPropertyTypespec", "vpiEventTypespec", "vpiPropFormalDecl"
  ]

  const MethodNames: seq<string> := [
    "vpiCondition", "vpiDelay", "vpiElseStmt", "vpiForIncStmt", "vpiForInitStmt", "vpiHighConn",
    "vpiLhs", "vpiIndex", "vpiLeftRange", "vpiLowConn", "vpiParent", "vpiRhs", "vpiRightRange",
    "vpiScope", "vpiSysTfCall", "vpiTchkDataTerm", "vpiTchkNotifier", "vpiTchkRefTerm",
    "vpiArgument", "vpiBit", "vpiDriver", "vpiInternalScope", "vpiLoad", "vpiModDataPathIn",
    "vpiModPathIn", "vpiModPathOut", "vpiOperand", "vpiPortInst", "vpiProcess", "vpiVariables",
    "vpiUse", "vpiExpr", "vpiPrimitive", "vpiStmt"
  ]

  const ReasonNames: seq<string> := [
    "*undefined*", "cbValueChange", "cbStmt", "cbForce", "cbRelease", "cbAtStartOfSimTime",
    "cbReadWriteSynch", "cbReadOnlySynch", "cbNextSimTime", "cbAfterDelay", "cbEndOfCompile",
    "cbStartOfSimulation", "cbEndOfSimulation", "cbError", "cbTchkViolation", "cbStartOfSave",
    "cbEndOfSave", "cbStartOfRestart", "cbEndOfRestart", "cbStartOfReset", "cbEndOfReset",
    "cbEnterInteractive", "cbExitInteractive", "cbInteractiveScopeChange", "cbUnresolvedSystf",
    "cbAssign", "cbDeassign", "cbDisable", "cbPLIError", "cbSignal", "cbNBASynch",
    "cbAtEndOfSimTime"
  ]

  const PropNames: seq<string> := [
    "*undefined or other*", "vpiType", "vpiName", "vpiFullName", "vpiSize", "vpiFile", "vpiLineNo",
    "vpiTopModule", "vpiCellInstance", "vpiDefName", "vpiProtected", "vpiTimeUnit",
    "vpiTimePrecision", "vpiDefNetType", "vpiUnconnDrive", "vpiDefFile", "vpiDefLineNo",
    "vpiScalar", "vpiVector", "vpiExplicitName", "vpiDirection", "vpiConnByName", "vpiNetType",
    "vpiExplicitScalared", "vpiExplicitVectored", "vpiExpanded", "vpiImplicitDecl",
    "vpiChargeStrength", "vpiArray", "vpiPortIndex", "vpiTermIndex", "vpiStrength0",
    "vpiStrength1", "vpiPrimType", "vpiPolarity", "vpiDataPolarity", "vpiEdge", "vpiPathType",
    "vpiTchkType", "vpiOpType", "vpiConstType", "vpiBlocking", "vpiCaseType", "vpiFuncType",
    "vpiNetDeclAssign", "vpiUserDefn", "vpiScheduled", "*undefined*", "*undefined*", "vpiActive",
    "vpiAutomatic", "vpiCell", "vpiConfig", "vpiConstantSelect", "vpiDecompile", "vpiDefAttribute",
    "vpiDelayType", "vpiIteratorType", "vpiLibrary", "*undefined*", "vpiOffset",
    "vpiResolvedNetType", "vpiSaveRestartID", "vpiSaveRestartLocation", "vpiValid", "vpiSigned",
    "vpiStop", "vpiFinish", "vpiReset", "vpiSetInteractiveScope", "vpiLocalParam",
    "vpiModPathHasIfNone", "vpiIndexedPartSelectType", "vpiIsMemory", "vpiIsProtected"
  ]

  const ConstTypeNames: seq<string> := [
    "*undefined*", "vpiDecConst", "vpiRealConst", "vpiBinaryConst", "vpiOctConst", "vpiHexConst",
    "vpiStringConst", "vpiIntConst", "vpiTimeConst"
  ]

  /** vpiPackage of sv_vpi_user.h (IEEE 1800, Annex M): the first code of the second object-type table. */
  const VpiPackage: int := 600
  /** vpiCondition of vpi_user.h (IEEE 1800, Annex K): the first method code. */
  const VpiCondition: int := 71

  /** names[code] when 0 <= code < |names|, and names[0] for any other code. */
  function Bounded(names: seq<string>, code: int): (r: string)
    requires |names| > 0
    ensures r in names
    ensures 0 <= code < |names| ==> r == names[code]
    ensures !(0 <= code < |names|) ==> r == names[0]
  {
    if code < 0 then names[0] else names[if code < |names| then code else 0]
  }

  /** strFromVpiVal: the name of a value format. */
  function StrFromVpiVal(code: int): (r: string)
    ensures 0 < code < |ValNames| ==> r == ValNames[code] && r != "*undefined*"
    ensures !(0 < code < |ValNames|) ==> r == "*undefined*"
  {
    Bounded(ValNames, code)
  }

  /** strFromVpiObjType: the name of an object type, from the IEEE 1364 table or the SystemVerilog one. */
  function StrFromVpiObjType(code: int): (r: string)
    ensures r in ObjTypeNames || r in SvObjTypeNames
    ensures 0 <= code < |ObjTypeNames| ==> r == ObjTypeNames[code]
    ensures VpiPackage <= code < VpiPackage + |SvObjTypeNames| ==> r == SvObjTypeNames[code - VpiPackage]
    ensures code < 0 || |ObjTypeNames| <= code < VpiPackage || VpiPackage + |SvObjTypeNames| <= code ==>
      r == ObjTypeNames[0]
  {
    if code < 0 then ObjTypeNames[0]
    else if code < |ObjTypeNames| then ObjTypeNames[code]
    else if VpiPackage <= code < VpiPackage + |SvObjTypeNames| then SvObjTypeNames[code - VpiPackage]
    else ObjTypeNames[0]
  }

  /** strFromVpiMethod: the name of a method, whose codes start at vpiCondition. */
  function StrFromVpiMethod(code: int): (r: string)
    ensures VpiCondition <= code < VpiCondition + |MethodNames| ==> r == MethodNames[code - VpiCondition]
    ensures !(VpiCondition <= code < VpiCondition + |MethodNames|) ==> r == "*undefined*"
    ensures r == "*undefined*" || r in MethodNames
  {
    if code >= VpiCondition + |MethodNames| || code < VpiCondition then "*undefined*"
    else MethodNames[code - VpiCondition]
  }

  /** strFromVpiCallbackReason: the name of a callback reason. */
  function StrFromVpiCallbackReason(code: int): (r: string)
    ensures 0 < code < |ReasonNames| ==> r == ReasonNames[code] && r != "*undefined*"
    ensures !(0 < code < |ReasonNames|) ==> r == "*undefined*"
  {
    Bounded(ReasonNames, code)
  }

  /** strFromVpiConstType: the name of a constant type. */
  function StrFromVpiConstType(code: int): (r: string)
    ensures 0 < code < |ConstTypeNames| ==> r == ConstTypeNames[code] && r != "*undefined*"
    ensures !(0 < code < |ConstTypeNames|) ==> r == "*undefined*"
  {
    Bounded(ConstTypeNames, code)
  }

  /** vpiUndefined of vpi_user.h. */
  const VpiUndefined: int := -1

  /**
   * strFromVpiProp as written: vpiUndefined has its own name, any other code
   * up to vpiIsProtected indexes the table directly and a larger one reads
   * entry 0. There is no guard for the other negative codes, so they read
   * before the table's start (None).
   */
  function StrFromVpiPropAsWritten(code: int): (r: Option<string>)
    ensures r.None? <==> code < VpiUndefined
  {
    if code == VpiUndefined then Some("vpiUndefined")
    else
      var index := if code < |PropNames| then code else 0;
      if 0 <= index then Some(PropNames[index]) else None
  }

  /** Property code -2 reads the entry before the table's start. */
  lemma PropNegativeReadsOutside()
    ensures StrFromVpiPropAsWritten(-2).None?
  {
  }

  /** strFromVpiProp with the negative-code guard the other lookups have: every code gets a name. */
  function StrFromVpiProp(code: int): (r: string)
    ensures code == VpiUndefined ==> r == "vpiUndefined"
    ensures 0 <= code < |PropNames| ==> r == PropNames[code]
    ensures code != VpiUndefined ==> r in PropNames
    ensures StrFromVpiPropAsWritten(code).Some? ==> r == StrFromVpiPropAsWritten(code).value
  {
    if code == VpiUndefined then "vpiUndefined" else Bounded(PropNames, code)
  }
}
