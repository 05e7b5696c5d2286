# Verilator core, modelled in Dafny

This project models and proves properties of the integer logic at the heart
of the Verilator compiler, its runtime and its coverage tool. It uses
Verilator's own terms. Each Dafny module follows one part of the sources:

- **VlOs** (`include/verilatedos.h`): the byte/word counts of a bit width, the masks
  `VL_MASK_I/Q/E`, bit-to-word decomposition and the bit tests. All are on
  32-/64-bit values, like the macros.
- **InsertionSets** (`src/V3Container.h`): `VInsertionSet` as a class. Its key vector
  holds every key once, in first-insertion order, and its key set matches that vector.
- **VPI runtime** (`include/verilated_vpi.cpp`):
  - **Bits, VpiAccess**: a variable's storage as an array of 8/16/32/64-bit words, and
    `vl_vpi_var_access_info` with the word get/put over it, including fields that
    straddle a word.
  - **VpiText, VpiValue, VpiNumber**: the codecs for binary, octal, hex, string, int and
    vector values.
  - **VpiFormat**: the accept/reject table of `vl_check_format`.
  - **VpiCallbacks**: the `VerilatedVpiImp` callback scheduler as a class (current lists,
    call list, future and next maps keyed by time and id, inertial puts).
  - **VpiArray**: the circular element stepping of the value-array calls.
  - **VpiIter**: `size`/`withIndex`, and the `VerilatedVpioRegIter` odometer.
  - **VpiNames**: the name split of `vpi_handle_by_name` and the toplevel test.
  - **VpiStrings**: the `strFromVpi*` name tables.
- **DTypes** (`src/V3AstNodeDType.h`): width bookkeeping, `typeToHold`, signing, left/right,
  DPI classification, packed struct/union, and array byte sizes.
- **Expand** (`src/V3Expand.cpp`): the 32-bit word helpers and the wide lowering rules.
  Each rule is proved to produce, word by word, the words of the whole-vector result.
- **SplitPlan, SplitVar** (`src/V3SplitVar.cpp`): the sweep that cuts a packed variable into
  pieces, reference collection and dedup, the automatic candidate test, and the
  "cannot split" reasons.
- **Dead** (`src/V3Dead.cpp`): the reference-count worklist fixed points over modules, scopes,
  classes, cells, variables, dtypes and typedefs.
- **LinkParse** (`src/V3LinkParse.cpp`): enum range expansion, lifetimes, `genblk` numbering,
  `$unnamedudp` names, and clocking skews.
- **Fork** (`src/V3Fork.cpp`): dynamic-scope frames with their ordered capture sets, the
  needs-dynamic-scope test, captures by name, and generated names.
- **DfgExtract** (`src/V3DfgOptimizer.cpp`): the candidate rules and the final filter of the
  dataflow extraction visitor.
- **VlcRead, VlcRank, VlcAnnotate, VlcInfo** (`src/VlcTop.cpp`): `verilator_coverage` reading
  and writing coverage files, test ranking, `linescov` parsing and annotation prefixes, and
  the lcov output.
- **Decimal, Wrappers**: decimal text of numbers, and Option/Result.

Where the source mutates state in place, the model is imperative: classes with `modifies`
clauses, arrays, and loops with invariants. Each method is proved against a specification
function, and the properties the source promises are proved as lemmas about that function.
Where the source computes values, the model uses functions and lemmas. AST nodes are small
records or node numbers, counters and flags are fields, and a file is its sequence of lines.

## Model

| member | source | states |
|---|---|---|
| VlOs.BytesI | include/verilatedos.h:447 | the byte count is the least r with 8·r ≥ nbits (ceil(nbits/8)) |
| VlOs.WordsI | include/verilatedos.h:449 | the word count is the least r with 32·r ≥ nbits (ceil(nbits/32)) |
| VlOs.OneBitNeedsOneByteAndOneWord | include/verilatedos.h:446-449 | one bit needs one byte and one word; zero bits need none |
| VlOs.QuadIsTwoWords | include/verilatedos.h:451 | a 64-bit quad occupies two 32-bit words |
| VlOs.ValueStringCharsIsFourWords | include/verilatedos.h:474-477 | the string-conversion limit is 4 characters per word, 256 in all |
| VlOs.MaskI | include/verilatedos.h:488 | bit i of the mask is set iff nbits mod 32 is 0 or i < nbits mod 32 |
| VlOs.MaskQ | include/verilatedos.h:491-492 | the same rule modulo 64 over 64 bits |
| VlOs.MaskE | include/verilatedos.h:495 | the EData mask is the IData mask |
| VlOs.BitWordE | include/verilatedos.h:500 | the word index w satisfies 32·w ≤ bit < 32·w + 32 |
| VlOs.BitBitE | include/verilatedos.h:503 | the bit position b is below 32 and bit = 32·BitWordE(bit) + b |
| VlOs.BitIsSetI | include/verilatedos.h:506 | non-zero iff bit (bit mod 32) of the word is set |
| VlOs.BitIsSetQ | include/verilatedos.h:507 | non-zero iff bit (bit mod 64) of the quad is set |
| VlOs.BitIsSetW | include/verilatedos.h:509 | non-zero iff bit BitBitE(bit) of word BitWordE(bit) is set |
| InsertionSets.InsertionSet.constructor | src/V3Container.h:32-35 | a new set is valid and empty |
| InsertionSets.InsertionSet.Insert | src/V3Container.h:38-43 | returns true iff the key was absent; a new key is appended to the order, a present key leaves it unchanged; afterwards the key is in the set and the invariant (distinct keys, set = elements of the order, order = first occurrences of the insert history) holds |
| InsertionSets.InsertionSet.Clear | src/V3Container.h:44-47 | both the order and the set are empty and the history restarts |
| InsertionSets.InsertionSet.Empty | src/V3Container.h:50 | true iff nothing was inserted since construction or the last clear |
| InsertionSets.InsertionSet.Exists | src/V3Container.h:51 | true iff the key was inserted since the last clear |
| InsertionSets.InsertionSet.Elements | src/V3Container.h:54-56 | iteration yields distinct keys, exactly the inserted ones, ordered by first insertion |
| InsertionSets.FirstOccurrencesElements | src/V3Container.h:34-35 | the first-occurrence order of a history holds each inserted key once and nothing else |
| InsertionSets.FirstOccurrencesSnoc | src/V3Container.h:40-41 | an insert appends the key to the order exactly when it was not inserted before |
| InsertionSets.FirstOccurrencesOrder | src/V3Container.h:38-56 | earlier keys of the order were first inserted earlier |
| DTypes.FromBool | src/V3AstNodeDType.h:245 | the signing taken from a flag is never "no sign", and is signed iff the flag is |
| DTypes.TypeToHold | src/V3AstNodeDType.h:555-566 | CData iff width ≤ 8, SData iff 8 < width ≤ 16, IData iff ≤ 32, QData iff ≤ 64, and a "VlWide<…>" name iff width > 64 |
| DTypes.WideHoldsWords | src/V3AstNodeDType.h:564-565 | the number inside "VlWide<…>" is decimal and is the least word count covering the width (at least 3) |
| DTypes.WideSameType | src/V3AstNodeDType.h:564-565 | two wide widths get the same type name iff they need the same number of words |
| DTypes.NodeDType.constructor | src/V3AstNodeDType.h:135-158 | a new type has the given width and signing, no recorded minimum width, and its dtypep() is itself |
| DTypes.NodeDType.WidthMin | src/V3AstNodeDType.h:152-155 | the recorded minimum width when it is non-zero, the width otherwise |
| DTypes.NodeDType.WidthSized | src/V3AstNodeDType.h:158 | sized iff the minimum width equals the width |
| DTypes.NodeDType.WidthForce | src/V3AstNodeDType.h:135-138 | sets width and minimum width, keeps the signing |
| DTypes.NodeDType.WidthFromSub | src/V3AstNodeDType.h:140-144 | copies width, minimum width and signing, so both types agree on WidthMin and WidthSized |
| DTypes.NodeDType.WidthMinFromWidth | src/V3AstNodeDType.h:157 | the type becomes width-sized, nothing else changes |
| DTypes.NodeDType.SetSignedState | src/V3AstNodeDType.h:440-447 | SIGNED and UNSIGNED replace the signing, NOSIGN keeps it; widths unchanged |
| DTypes.NodeDType.SetDTypep | src/V3AstNodeDType.h:538 | dtypep(d) repoints the type's own data type and leaves its width, minimum width and signing alone |
| DTypes.NodeDType.WidthBroken | src/V3AstNodeDType.h:434-438 | broken iff the type's dtypep() is not itself, or the global minimum-width usage is VERILOG_WIDTH and the minimum width exceeds the width; under any other usage only the dtypep() test counts |
| DTypes.CharIqwn | src/V3AstNodeDType.h:164-166 | N, W, D, Q, I, each exactly when its test holds and no earlier one does |
| DTypes.CharIqwnOfWidth | src/V3AstNodeDType.h:164-166 | for an integral width the code is I up to 32, Q up to 64, W beyond, and W exactly when no integral C type holds it |
| DTypes.DpiExactlyOne | src/V3AstNodeDType.h:483-491 | no type is both a DPI bit vector and a DPI logic vector; primitive is the remaining case |
| DTypes.DpiOfBitLogic | src/V3AstNodeDType.h:483-488 | ranged bit is a bit vector, ranged logic a logic vector, unranged bit/logic primitive |
| DTypes.Left | src/V3AstNodeDType.h:497 | lo when ascending, hi otherwise |
| DTypes.Right | src/V3AstNodeDType.h:498 | hi when ascending, lo otherwise |
| DTypes.DeclRange | src/V3AstNodeDType.h:502 | a range iff the type is ranged |
| DTypes.DeclRangeBounds | src/V3AstNodeDType.h:497-502 | the declared range spans exactly lo..hi in the declared direction; flipping the direction swaps its ends |
| DTypes.UOrStructDType.Struct | src/V3AstNodeDType.h:240-246 | a struct is packed iff a signing was given; its signing is signed iff SIGNED was given |
| DTypes.UOrStructDType.Union | src/V3AstNodeDType.h:1438-1442 | a union is packed iff a signing was given or it is soft |
| DTypes.SubDType | src/V3AstNodeDType.h:207-209 | the referenced element type when present, the child otherwise |
| DTypes.SubDTypeOfWellFormed | src/V3AstNodeDType.h:192-195 | an array that is not broken has an element type, the child exactly when no reference is set |
| DTypes.Dims | src/V3AstNodeDType.h:207-220 | the innermost type of a well-formed array nest is not an array |
| DTypes.NestedArrayBytes | src/V3AstNodeDType.h:218-220 | the total bytes of an array nest are the product of all element counts times the innermost size |
| Expand.MaskE | src/V3Expand.cpp:107-108 | the low (n mod 32) bits set, or all 32 when n is a multiple of 32 |
| Expand.WordSelClone | src/V3Expand.cpp:161-184 | a word selection only for wide values and in-range words; the constant 0 exactly for negative or past-the-end words |
| Expand.WordPastEnd | src/V3Expand.cpp:163-164 | every word at a negative index or past the last word of a value is 0 |
| Expand.WordSelCloneIsWord | src/V3Expand.cpp:161-184 | for every storage class (wide, quad, narrow) and every word index, the expression built evaluates to that word of the value |
| Expand.LongOrQuadWidth | src/V3Expand.cpp:104-106 | the width rounded up to the next multiple of 32 |
| Expand.NewWordSel | src/V3Expand.cpp:215-240 | a word index iff the word offset is inside the value, the constant 0 otherwise |
| Expand.NewWordSelReadsBit | src/V3Expand.cpp:227-236 | the selected word, read at bit lsb mod 32, is bit lsb of the value offset by whole words |
| Expand.MergeShiftedBit | src/V3Expand.cpp:196-209 | the low r bits of the merge come from the top of the lower word, the others from the upper word moved up by r |
| Expand.GrabShiftIsShiftedWord | src/V3Expand.cpp:186-214 | newWordGrabShift(word, lhs, shift) is word `word` of lhs << shift, aligned or not |
| Expand.GrabShiftBit | src/V3Expand.cpp:186-214 | bit k of the grabbed word is bit 32·word + k − shift of lhs |
| Expand.ConcatWordIsWord | src/V3Expand.cpp:720-736 | word w of grabShift(lhs, w, rhs.widthMin) OR rhs[w] is word w of {lhs, rhs} when rhs is clean above its minimum width |
| Expand.ExpandVisitor.constructor | src/V3Expand.cpp:80-82 | no assignments inserted, statistics at zero |
| Expand.ExpandVisitor.DoExpandWide | src/V3Expand.cpp:92-102 | true iff pure and the word count is within the expand limit; counts wide nodes, expanded words and limited nodes exactly as the source does |
| Expand.ExpandVisitor.AddWordAssign | src/V3Expand.cpp:142-148 | appends one word assignment before the original, statistics untouched |
| Expand.ExpandVisitor.ExpandWideExtend | src/V3Expand.cpp:396-407 | when expanded, one assignment per destination word, in order, whose value is that word of the zero-extended source; otherwise nothing is inserted |
| Expand.ExpandVisitor.ExpandWideConcat | src/V3Expand.cpp:720-736 | when expanded, one assignment per word of the concatenation, each the grab-shift formula, and equal to the word of {lhs, rhs} when rhs is clean above its minimum width |
| Expand.OrXorZero | src/V3Expand.cpp:809-814 | the OR of the word XORs is 0 iff all those words agree |
| Expand.WordsEqual | src/V3Expand.cpp:803-824 | two values of one width are equal iff all their words are |
| Expand.WordizeEqNeq | src/V3Expand.cpp:803-824 | an impure comparison is left alone; otherwise the lowered EQ is true iff the values are equal, NEQ iff they differ |
| Expand.RedAndWords | src/V3Expand.cpp:861-869 | one word per operand word, the top one with the bits above the minimum width forced to 1 |
| Expand.AndAllOnes | src/V3Expand.cpp:869 | an AND chain of words is all ones iff every word is |
| Expand.RedAndWordsMeaning | src/V3Expand.cpp:852-876 | every lowered word is all ones iff every bit below the minimum width is set |
| Expand.WordizeRedAnd | src/V3Expand.cpp:852-876 | an impure reduction is left alone; otherwise the result is the AND of the lowered words compared with all ones, and, when the minimum width ends in the top word, true iff every bit below the minimum width is set |
| Expand.MaskRange | src/V3Expand.cpp:567-570 | V3Number::setMask: exactly bits lo..hi set at the given width |
| Expand.NarrowConstSelAssign | src/V3Expand.cpp:603-623 | the result keeps the destination's width |
| Expand.NarrowConstSelAssignBits | src/V3Expand.cpp:565-623 | below the minimum width the selected bits take rhs and the other bits keep their value; at and above it nothing of rhs is written |
| SplitPlan.Points | src/V3SplitVar.cpp:912-915 | two points per region, its start and one past its end, in region order |
| SplitPlan.SortPoints | src/V3SplitVar.cpp:861-866 | the points sorted by SortByFirst (position, then start before end), a permutation of the input (the sort at line 931) |
| SplitPlan.SortedUnique | src/V3SplitVar.cpp:861-866 | any two sorted orders of the same points are equal, so the plan does not depend on the sort used (the sort at line 931) |
| SplitPlan.WeightSort | src/V3SplitVar.cpp:931 | sorting does not change how many regions are open at any bit |
| SplitPlan.WeightPoints | src/V3SplitVar.cpp:912-915 | starts minus ends at or below bit b is the number of regions holding b |
| SplitPlan.RefcountIsCover | src/V3SplitVar.cpp:934-945 | in the gap after sorted point i the running refcount equals the number of regions holding any bit of the gap |
| SplitPlan.PlanShape | src/V3SplitVar.cpp:934-948 | the pieces are strictly ascending, pairwise disjoint and each at least one bit wide |
| SplitPlan.PlanPieceFromGap | src/V3SplitVar.cpp:936-947 | every piece is the gap after some sorted point, with a nonzero refcount |
| SplitPlan.PlanSound | src/V3SplitVar.cpp:934-948 | a bit in some piece is held by some region |
| SplitPlan.PlanComplete | src/V3SplitVar.cpp:934-948 | a bit held by some region is in some piece |
| SplitPlan.PlanCoversExactly | src/V3SplitVar.cpp:908-952 | a bit is in the plan iff some write (or added) region holds it |
| SplitPlan.PieceInsideOrOutside | src/V3SplitVar.cpp:913-950 | no piece boundary falls strictly inside a region: each piece lies wholly inside or wholly outside it |
| SplitPlan.RegionIsUnionOfPieces | src/V3SplitVar.cpp:913-950 | every bit of a region lies in a piece inside that region |
| SplitPlan.InsidePiecesConsecutive | src/V3SplitVar.cpp:934-948 | the pieces inside a region are consecutive in the plan |
| SplitPlan.PlanEmptyIff | src/V3SplitVar.cpp:934-948 | the plan is empty iff every region is empty |
| SplitPlan.PlanTiles | src/V3SplitVar.cpp:927-950 | when the regions hold exactly lo..lo+width−1 the pieces tile that range: first starts at lo, each ends where the next begins, the last ends at the top |
| SplitPlan.UpperBound | src/V3SplitVar.cpp:819-823 | std::upper_bound with Match: the first piece whose msb is at least the bit |
| SplitPlan.UpperBoundFindsPiece | src/V3SplitVar.cpp:811-823 | on an ascending plan the lookup lands on the piece holding the bit |
| SplitPlan.UpperBoundOfRegion | src/V3SplitVar.cpp:811-823 | the lookup for a nonempty region's lsb finds a piece that lies inside the region |
| SplitVar.FirstIndexMap | src/V3SplitVar.cpp:869-871 | the map sends every node to the index of its first entry (emplace keeps an existing key) |
| SplitVar.KeysInOrder | src/V3SplitVar.cpp:874 | the keys strictly ascending, exactly those of the map (std::map iteration order) |
| SplitVar.EmitInNodeOrder | src/V3SplitVar.cpp:872-875 | the entries the map points at, one per node, in node order |
| SplitVar.DedupRefs | src/V3SplitVar.cpp:867-876 | one entry per node, ascending by node, each the first entry the input held for that node |
| SplitVar.PackedVarRef.constructor | src/V3SplitVar.cpp:887-888 | both reference lists empty, dedup not yet done |
| SplitVar.PackedVarRef.Append | src/V3SplitVar.cpp:889-893 | only before dedup; writes go to lhs, reads to rhs, read-writes to both |
| SplitVar.PackedVarRef.Dedup | src/V3SplitVar.cpp:894-899 | only once; both lists deduplicated |
| SplitVar.PackedVarRef.Lhs | src/V3SplitVar.cpp:879-882 | readable only after dedup |
| SplitVar.PackedVarRef.Rhs | src/V3SplitVar.cpp:883-886 | readable only after dedup |
| SplitVar.PackedVarRef.SplitPlan | src/V3SplitVar.cpp:903-952 | after dedup; the plan is the sweep over the sorted points of the write regions plus the read envelope or the whole variable |
| SplitVar.PlanPoints | src/V3SplitVar.cpp:908-930 | the points pushed before sorting are those of the regions, in push order |
| SplitVar.WritePoints | src/V3SplitVar.cpp:910-913 | a start at lsb and an end at msb+1 per write reference |
| SplitVar.ReadBounds | src/V3SplitVar.cpp:917-922 | the min/max loop yields the read envelope |
| SplitVar.ScanPoints | src/V3SplitVar.cpp:934-948 | the refcount sweep yields one piece per covered nonempty gap |
| SplitVar.MinLsb | src/V3SplitVar.cpp:920 | the running minimum is a lower bound attained by the start value or some lsb |
| SplitVar.MaxMsb | src/V3SplitVar.cpp:921 | the running maximum is an upper bound attained by the start value or some msb |
| SplitVar.EnvelopeNonEmpty | src/V3SplitVar.cpp:923 | with at least one read the internal check lsb ≤ msb holds |
| SplitVar.EnvelopeExact | src/V3SplitVar.cpp:916-926 | the envelope holds every read and, with reads inside the variable, runs from the lowest lsb to the highest msb |
| SplitVar.PlanUnion | src/V3SplitVar.cpp:908-952 | a bit is in the plan iff it is written, or in the read envelope (skipUnused with reads), or in the variable (not skipUnused) |
| SplitVar.PlanPieces | src/V3SplitVar.cpp:934-948 | pieces are ascending, disjoint and have positive bitwidth |
| SplitVar.PlanTilesVariable | src/V3SplitVar.cpp:927-950 | keeping every bit, the pieces tile [bit_lo, bit_hi] with no gap |
| SplitVar.WritePieceInsideOrOutside | src/V3SplitVar.cpp:910-950 | every piece lies wholly inside or wholly outside each write reference |
| SplitVar.WriteBitInInsidePiece | src/V3SplitVar.cpp:910-950 | each write reference is the union of the pieces inside it |
| SplitVar.LookupOfWrite | src/V3SplitVar.cpp:811-823 | the lookup of a write's lsb finds a piece starting there and lying inside the write |
| SplitVar.SkipIffOnePiece | src/V3SplitVar.cpp:1165-1168 | for a traced variable the split is skipped iff the plan is a single full-width piece |
| SplitVar.PlanEmptyWhenUnused | src/V3SplitVar.cpp:1165 | the plan is empty iff nothing is written and no extra region is pushed |
| SplitVar.RangesOf | src/V3SplitVar.cpp:1256-1258 | one [lsb, lsb+width−1] range per constant select, in order |
| SplitVar.GatherRanges | src/V3SplitVar.cpp:1219-1259 | ineligible iff some reference is a function return, port, cross-referenced, not a select, or has a non-constant lsb; otherwise the ranges of all selects |
| SplitVar.SortRanges | src/V3SplitVar.cpp:1268-1272 | sorted by lo then hi, a permutation of the input |
| SplitVar.AdjacentPair | src/V3SplitVar.cpp:1274-1282 | on sorted ranges whose neighbours are compatible, every pair is equal or disjoint |
| SplitVar.AdjacentSuffices | src/V3SplitVar.cpp:1268-1285 | on sorted ranges, checking only neighbours decides whether every pair is compatible |
| SplitVar.SameMembersCompatible | src/V3SplitVar.cpp:1268 | compatibility does not depend on the order of the ranges |
| SplitVar.HasOverlap | src/V3SplitVar.cpp:1273-1283 | the neighbour loop finds an overlap iff two ranges overlap without being equal |
| SplitVar.FindCandidate | src/V3SplitVar.cpp:1219-1286 | user2 is left unset iff the variable has no references or is ineligible; otherwise it is true iff no two select ranges overlap without being equal |
| SplitVar.TaskReason | src/V3SplitVar.cpp:165-170 | prototype, then DPI import, then DPI open array; none iff no flag is set |
| SplitVar.VarTypeReason | src/V3SplitVar.cpp:143-149 | none iff the type is variable, wire, port or wreal |
| SplitVar.DirectionReason | src/V3SplitVar.cpp:151-155 | ref, then inout; none otherwise |
| SplitVar.ConnectedPortReason | src/V3SplitVar.cpp:157-163 | not connected without a module variable, otherwise the direction reason |
| SplitVar.CommonReason | src/V3SplitVar.cpp:172-187 | the returned reason fails and every reason earlier in the fixed order passes; none iff all pass |
| SplitVar.UnpackedReason | src/V3SplitVar.cpp:780-795 | an unpacked array with at least one unpacked dimension gets the common reason; anything else is refused |
| SplitVar.PackedReason | src/V3SplitVar.cpp:1317-1335 | refused for width ≤ 1 (or unpacked dimensions when checked), for non bit/logic, then the common reason |
| SplitVar.CanSplitPassesCommon | src/V3SplitVar.cpp:1356-1361 | a variable either splitter accepts passes every common check: not public, not forceable, not ref or inout |
| SplitVar.PackedCheckUnpackedStricter | src/V3SplitVar.cpp:1323-1324 | checking unpacked dimensions only refuses more variables |
| Dead.MightElimVar | src/V3Dead.cpp:370-375 | false for public, IO, class-member and sensitivity-interface variables; true for non-traced temporaries; otherwise the elimUserVars option |
| Dead.ElimUserVarsWidens | src/V3Dead.cpp:370-375 | allowing user variables only adds variables that are not non-traced temporaries |
| Dead.ShouldDeleteTypedef | src/V3Dead.cpp:337-342 | true iff cells may be removed, the typedef is not public, and it does not hold a referenced unpacked struct |
| Dead.TypedefDecisions | src/V3Dead.cpp:328-336 | one decision per typedef decided, the loop's decisions in order |
| Dead.TypedefDecisionsPrefix | src/V3Dead.cpp:328-336 | deciding later typedefs leaves the earlier decisions unchanged |
| Dead.TypedefDecisionsTurn | src/V3Dead.cpp:329-331 | a typedef is kept exactly when shouldDeleteTypedef refuses it under the counts with the dtypes of the kept typedefs before it added |
| Dead.TypedefDecisionsDecided | src/V3Dead.cpp:329-342 | only non-public typedefs go, only when cells may go, and none holding an unpacked struct referenced at the start |
| Dead.WorkSurvivorReferenced | src/V3Dead.cpp:377-394 | at a fixed point, a surviving entry whose count comes only from worklist references is referenced by another survivor |
| Dead.PassTurn | src/V3Dead.cpp:380-391 | one pass nulls an entry exactly when it is live and its count, after the decrements of the entries before it in the same pass, is zero; a kept entry is unchanged |
| Dead.PassWeakens | src/V3Dead.cpp:380-391 | a pass only nulls entries and keeps every node in range; a pass that nulls nothing changes no count |
| Dead.PassBalanced | src/V3Dead.cpp:380-391 | every decrement a pass makes is paid for by the references of an entry it nulls |
| Dead.PassShrinks | src/V3Dead.cpp:380-391 | a pass that nulls something leaves fewer live entries, so the retry loop ends |
| Dead.PassFixed | src/V3Dead.cpp:378-393 | a pass that nulls nothing found no live entry with a zero count |
| Dead.SweepFixes | src/V3Dead.cpp:378-393 | the passes repeated until one nulls nothing only null entries and end at a fixed point |
| Dead.SweepBalanced | src/V3Dead.cpp:378-393 | every decrement of the retry loop is paid for by an entry it nulls |
| Dead.SweepDeletesAtZero | src/V3Dead.cpp:378-393 | every entry the retry loop nulls was nulled in some pass at whose turn its count was zero |
| Dead.ModWalkTurn | src/V3Dead.cpp:351-366 | one walk deletes a module exactly when it is dead, or above level 2, unreferenced and not internal, under the counts the modules before it left |
| Dead.ModWalkKeeps | src/V3Dead.cpp:351-366 | the list a walk leaves is the old one with exactly the deleted modules taken out, in order |
| Dead.ModWalkSubseq | src/V3Dead.cpp:351-366 | the list a walk leaves is a subsequence still holding every never-deleted module |
| Dead.ModWalkBalanced | src/V3Dead.cpp:357-363 | counts minus still-linked cell references are the same before and after a walk |
| Dead.ModWalkFixed | src/V3Dead.cpp:348-368 | a walk that deletes nothing found no doomed module |
| Dead.ModFixDeletesDoomed | src/V3Dead.cpp:344-369 | every module deadCheckMod removes was deleted by one of its walks, at a turn where it was doomed under the counts of that moment |
| Dead.LiveCellModsMeaning | src/V3Dead.cpp:359-361 | a module is among those modp->foreach reaches exactly when some cell of it, with every node on its path still linked, instantiates it |
| Dead.UnlinkedCellNotCounted | src/V3Dead.cpp:359-361 | deleting a module takes nothing off module n's count exactly when it is dead or every cell of it instantiating n was unlinked earlier (by deadCheckCells, say), so no cell is decremented twice |
| Dead.SurvivorInstantiated | src/V3Dead.cpp:344-369 | after deadCheckMod, a surviving non-internal module below level 2 whose count comes only from cells is instantiated by a still-linked cell of another surviving live module |
| Dead.ScopeQueue | src/V3Dead.cpp:68 | one live worklist entry per collected scope |
| Dead.ClassQueue | src/V3Dead.cpp:70 | one live worklist entry per collected class |
| Dead.VarQueue | src/V3Dead.cpp:64 | the variables queued are those mightElimVar allows |
| Dead.CellStepMeaning | src/V3Dead.cpp:397-402 | one cell's turn: when its count is zero, every statement of its module is unlinked and the option is on, the cell is unlinked and its module loses one count; otherwise nothing changes |
| Dead.CellsRun | src/V3Dead.cpp:396-403 | the cell loop over the state each cell's predecessors leave keeps one count per node |
| Dead.CellsRunDeleted | src/V3Dead.cpp:396-403 | the loop unlinks exactly the cells it deletes |
| Dead.CellsRunCounts | src/V3Dead.cpp:396-403 | each count drops by the number of deleted cells instantiating that node, and nothing else changes |
| Dead.CellsRunDropped | src/V3Dead.cpp:396-403 | only listed cells go, only with the option on, each with a module whose statements are all unlinked; with the option off nothing changes |
| Dead.CellsRunTurn | src/V3Dead.cpp:398 | a deleted cell had a zero count at the start, when no cell is a module |
| Dead.CellsRunSound | src/V3Dead.cpp:398 | every deleted cell had a zero count at the start, when no cell is a module |
| Dead.CellsRunComplete | src/V3Dead.cpp:396-403 | with the option on, every unreferenced cell whose module's statements were already unlinked is deleted |
| Dead.EmptiedModuleCellGoes | src/V3Dead.cpp:396-403 | worked example of CellsRunComplete and CellsRunCounts on one input: a module whose only statement is a variable deleted earlier has no statements, so its unreferenced cell goes and the module's count drops to zero |
| Dead.DeadVisitor.constructor | src/V3Dead.cpp:60-72 | holds the counts, worklists, cells and top interface references the counting walk leaves, nothing deleted yet |
| Dead.DeadVisitor.AddAll | src/V3Dead.cpp:83-90 | user1Inc(delta) once per occurrence of each node in the list, nothing else changes |
| Dead.DeadVisitor.SweepPass | src/V3Dead.cpp:380-391 | the new entries and counts are exactly those of the pass function Pass over the old ones, so each entry is nulled exactly when its count at its turn is zero (PassTurn); exactly the nulled nodes join the unlinked set; retry iff some entry was nulled |
| Dead.DeadVisitor.RetrySweep | src/V3Dead.cpp:378-393 | the new entries and counts are those of Sweep, the passes repeated until one nulls nothing: entries are only nulled and unlinked, the result is a fixed point, and every decrement is paid for by a removed entry |
| Dead.DeadVisitor.DeadCheckScope | src/V3Dead.cpp:377-394 | the new state is AfterScopes of the old: the scope worklist and counts are Sweep's, each nulled scope is unlinked, having decremented its parent scope and dtype, and no live scope is left with a zero count |
| Dead.DeadVisitor.DeadCheckClasses | src/V3Dead.cpp:404-419 | the new state is AfterClasses of the old: the class worklist and counts are Sweep's, each nulled class is unlinked, having decremented its extends and package, to a fixed point |
| Dead.DeadVisitor.SinglePass | src/V3Dead.cpp:423-438 | the counts become AfterPass of the old ones: every zero-count varscope is unlinked with its assignments and decrements exactly what it referenced |
| Dead.DeadVisitor.DeadCheckCells | src/V3Dead.cpp:396-403 | the new counts and unlinked set are those of the cell loop in order, each cell tested against the live counts and its module's live statements |
| Dead.DeadVisitor.DeadDTypes | src/V3Dead.cpp:453-472 | deletes exactly the zero-count dtypes, keeping a struct or union with a referenced member |
| Dead.DeadVisitor.DeadCheckVar | src/V3Dead.cpp:421-474 | the new state is AfterVar of the old: zero-count varscopes go with their assignments, then the variable worklist is swept to Sweep's fixed point, then the removable dtypes at the final counts go, all added to the unlinked set; counts stay balanced |
| Dead.DeadVisitor.TypedefStep | src/V3Dead.cpp:329-334 | a typedef is deleted iff shouldDeleteTypedef, otherwise its dtypes are counted |
| Dead.DeadVisitor.TypedefLoop | src/V3Dead.cpp:328-336 | the decisions are exactly TypedefDecisions from the old counts, so each typedef is deleted iff shouldDeleteTypedef holds at its turn (TypedefDecisionsTurn); exactly the deleted ones join the unlinked set and the counts gain the dtypes of the kept ones |
| Dead.DeadVisitor.DeadCheckTypedefs | src/V3Dead.cpp:328-336 | the new state is AfterTypedefs of the old, whose decisions are TypedefDecisions over the collected typedefs: each typedef is kept iff shouldDeleteTypedef refuses it at its turn, only non-public typedefs go and only when cells may go, none holding an unpacked struct referenced at the start |
| Dead.DeadVisitor.DecrementCells | src/V3Dead.cpp:359-361 | each cell still linked in the module takes one off its module's count, nothing else changes |
| Dead.DeadVisitor.WalkModules | src/V3Dead.cpp:351-366 | the walk over the list, taking each next module before unlinking, leaves the list and counts of ModWalk; retry iff some module went |
| Dead.DeadVisitor.ModPass | src/V3Dead.cpp:350-365 | the new list and counts are those of ModWalk over the old ones, so a module goes exactly when it is doomed under the counts the modules before it left (ModWalkTurn), decrementing the modules of its still-linked cells if not already dead; no retry means no module is doomed |
| Dead.DeadVisitor.DeadCheckMod | src/V3Dead.cpp:344-369 | the new list and counts are those of ModFix, the walks repeated until one deletes nothing, so every removed module was doomed at its turn (ModFixDeletesDoomed); never-deleted modules survive, counts minus linked cell references are unchanged, so no count that covered its cell references goes negative |
| Dead.DeadVisitor.PreserveTopIfaces | src/V3Dead.cpp:476-510 | the new state is AfterTopIfaces of the old: an interface referenced by a still-linked cell-less interface variable of a top module gets count 1 when its count is zero; every other count is unchanged |
| Dead.DeadVisitor.EliminateDeclarations | src/V3Dead.cpp:534-539 | the new state is AfterDeclarations of the old, the composition typedefs (decided by TypedefDecisions from the old counts, which the returned decisions equal), then variables, then scopes when enabled, then cells when enabled; only adds to the unlinked set, leaves scopes alone when scope elimination is off |
| Dead.DeadVisitor.Eliminate | src/V3Dead.cpp:534-543 | the new state is AfterEliminate of the old, the whole elimination in constructor order (declarations with the typedef decisions of TypedefDecisions, classes, the top interfaces unless disabled, modules): no surviving module is doomed, every never-deleted module survives, worklists are only nulled |
| LinkParse.ExpandEnumRange | src/V3LinkParse.cpp:267-284 | \|left−right\|+1 items, the k-th named name + its index (counting down when left > right), with value original + k when the original had one |
| LinkParse.EnumIndicesCover | src/V3LinkParse.cpp:269-273 | the indices start at left, end at right, and cover exactly the integers between them |
| LinkParse.ExpandedNamesDistinct | src/V3LinkParse.cpp:274 | the expanded items have pairwise different names |
| LinkParse.VarLifetime | src/V3LinkParse.cpp:289-310 | a static variable with an initializer in a loop warns and becomes automatic; a non-port without lifetime takes the propagated lifetime when allowed, else static; a task/function port is automatic; any other unset lifetime becomes static |
| LinkParse.VarLifetimeSet | src/V3LinkParse.cpp:296-310 | a variable is left without a lifetime only when it inherits "none" |
| LinkParse.ModuleContext | src/V3LinkParse.cpp:627-631 | a module's declared lifetime propagates; with none it is automatic for a class and static otherwise; inheritance is allowed only in classes |
| LinkParse.ModuleVarsDefault | src/V3LinkParse.cpp:296-302 | a module-level variable without a lifetime is static in a module and automatic in a class (the module default at lines 627-631) |
| LinkParse.WalkCounters | src/V3LinkParse.cpp:679-756 | visiting a node restores m_genblkAbove and advances m_genblkNum by a count fixed by the tree |
| LinkParse.WalkListCounters | src/V3LinkParse.cpp:679-756 | the same for a list of siblings |
| LinkParse.GenforNameAt | src/V3LinkParse.cpp:689-698 | an unnamed generate-for block is named genblk<k> with k the incremented counter |
| LinkParse.GenforNamesDistinct | src/V3LinkParse.cpp:689-698 | two unnamed generate-for blocks in one list get different names |
| LinkParse.IfBranchTakesIfNumber | src/V3LinkParse.cpp:693-695 | an unnamed generate begin directly under a GenIf takes the if's own (incremented) number (the number the GenIf visit at lines 744-755 sets) |
| LinkParse.RenamedAppend | src/V3LinkParse.cpp:718-731 | renaming a concatenation of cell lists continues the numbering |
| LinkParse.WalkCells | src/V3LinkParse.cpp:718-731 | visiting renames the unnamed cells $unnamedudp<k> in order and advances m_anonUdpId by their number |
| LinkParse.WalkListCells | src/V3LinkParse.cpp:718-731 | the same for a list of siblings |
| LinkParse.RenamedAt | src/V3LinkParse.cpp:726-729 | the i-th unnamed cell takes the number after the counter plus the unnamed cells before it |
| LinkParse.UdpNamesDistinct | src/V3LinkParse.cpp:718-731 | two unnamed cells of one module never end with the same name (the counter starts per module at line 620) |
| LinkParse.LinkParseVisitor.constructor | src/V3LinkParse.cpp:620-623 | the counters start at zero with no messages |
| LinkParse.LinkParseVisitor.VisitNode | src/V3LinkParse.cpp:679-756 | the node and state after the visit are those Walk gives |
| LinkParse.LinkParseVisitor.VisitBegin | src/V3LinkParse.cpp:679-716 | visit(AstBegin) as Walk gives: genfor bumps and names, if/case branches take m_genblkAbove, a named block restarts the counters for its body |
| LinkParse.LinkParseVisitor.VisitGenIf | src/V3LinkParse.cpp:741-756 | visit(AstGenIf) as Walk gives: a nested if shares the number above, otherwise it bumps and restarts |
| LinkParse.LinkParseVisitor.VisitGenCase | src/V3LinkParse.cpp:732-740 | visit(AstGenCase) as Walk gives |
| LinkParse.LinkParseVisitor.VisitCell | src/V3LinkParse.cpp:718-731 | visit(AstCell) as Walk gives, with the must-be-named error for non-primitives |
| LinkParse.LinkParseVisitor.VisitList | src/V3LinkParse.cpp:679-756 | iterating siblings as WalkList gives |
| LinkParse.LinkParseVisitor.VisitModule | src/V3LinkParse.cpp:619-623 | the body is walked from zero counters, which are restored afterwards |
| LinkParse.BadDefaultSnoc | src/V3LinkParse.cpp:869-871 | a bad default (skew with a direction that is neither input nor output) appears exactly where such an item is |
| LinkParse.VisitClocking | src/V3LinkParse.cpp:844-905 | fatal iff a default item has a bad direction; otherwise the default items are removed, the others get their skews filled, and the errors are those of the two loops in order |
| LinkParse.CollectDefaults | src/V3LinkParse.cpp:849-874 | records the last default input and output skews and their errors, and keeps the non-default items |
| LinkParse.FillItems | src/V3LinkParse.cpp:879-905 | each remaining item gets the default skew, or 0 for outputs and 1step for inputs; a 1step output skew is an error |
| LinkParse.FilledHasSkew | src/V3LinkParse.cpp:879-905 | after the visit every input and output item has a skew, and an item that had one keeps it |
| LinkParse.DefaultInCounted | src/V3LinkParse.cpp:856-861 | a default input skew is recorded iff some default input item has a skew |
| LinkParse.MultipleInputIff | src/V3LinkParse.cpp:857-859 | "Multiple default input skews" is reported iff there are two or more |
| Fork.ClassNamesDistinct | src/V3Fork.cpp:253 | two dynamic-scope class names are equal exactly when their class ids are equal |
| Fork.HandleNamesDistinct | src/V3Fork.cpp:255-258 | for one procedure name (or ANON), two handle names are equal exactly when their frame ids are equal |
| Fork.TaskNamesDistinct | src/V3Fork.cpp:557-560 | for one node name and kind, two generated task names are equal exactly when their ids are equal |
| Fork.TaskNameShape | src/V3Fork.cpp:557-560 | a task name starts with "__V", is longer than the prefix and the kind, and ends in a decimal digit |
| Fork.NeedsDynScope | src/V3Fork.cpp:349-358 | a reference needs a dynamic scope exactly when its variable can escape (a function-local under a deeper fork) and is mutated or follows a timing control |
| Fork.NoDynScopeWithoutEscape | src/V3Fork.cpp:349-358 | no dynamic scope at the declaring fork depth or for a non-local; an escaping reference after a timing control, or an escaping write to a non-handle, always needs one; an unwritten class handle before any timing control never does |
| Fork.UnsupportedCapturedWrite | src/V3Fork.cpp:433-442 | the unsupported-write error is raised only for a write to a writable non-event variable after a timing control |
| Fork.UnsupportedOnlyWhenCaptured | src/V3Fork.cpp:425-446 | the unsupported-write error is raised only on a reference that is captured into the dynamic scope, and it is raised on every such write |
| Fork.DynScopeFrame.constructor | src/V3Fork.cpp:75-79 | a new frame records its procedure and both ids, captures nothing, and has no instance yet |
| Fork.DynScopeFrame.CreateInstancePrototype | src/V3Fork.cpp:81-82 | the instance may be created only once; afterwards the frame is instantiated |
| Fork.DynScopeFrame.CaptureVarInsert | src/V3Fork.cpp:101-104 | the variable joins the capture set, and is appended to the capture order only when it was not captured before |
| Fork.DynScopeFrame.Captured | src/V3Fork.cpp:105 | true exactly when the variable was ever inserted |
| Fork.CaptureOrderProperties | src/V3Fork.cpp:68-69 | the capture order has no duplicates, holds only inserted variables, and lists them in the order of their first insertion |
| Fork.DynScopeTable.constructor | src/V3Fork.cpp:296-298 | the table starts with no frames, no bindings, and both counters at zero |
| Fork.DynScopeTable.EnterModule | src/V3Fork.cpp:361-366 | frame ids restart at zero in every module; class ids keep counting |
| Fork.DynScopeTable.PushDynScopeFrame | src/V3Fork.cpp:314-321 | a procedure not yet bound gets a new frame numbered by both counters; both counters go up by one; the procedure is bound to the frame and appended to the order |
| Fork.DynScopeTable.BindNode | src/V3Fork.cpp:344-347 | the first binding of a node wins and appends the node to the order; a later binding changes nothing |
| Fork.DynScopeTable.FrameOf | src/V3Fork.cpp:302-306 | finds a frame exactly for bound nodes, and that frame is one of the table's frames |
| Fork.FrameClassNamesDistinct | src/V3Fork.cpp:253 | any two frames of the table have different class names |
| Fork.FrameHandleNamesDistinct | src/V3Fork.cpp:255-258 | two frames of one module whose procedures share a name have different handle names |
| Fork.ForkCaptures.constructor | src/V3Fork.cpp:523-527 | starts with no capture variables, no call arguments, and task id zero |
| Fork.ForkCaptures.ClearCaptures | src/V3Fork.cpp:577-578 | a new taskifiable process starts with no captures |
| Fork.ForkCaptures.CaptureRef | src/V3Fork.cpp:531-549 | returns the capture with the reference's name; when one exists nothing changes, and otherwise a variable and its call argument are appended together |
| Fork.ForkCaptures.GenerateTaskName | src/V3Fork.cpp:557-560 | the name is built from the current id, and the id goes up by one |
| Fork.ForkCaptures.EnterModule | src/V3Fork.cpp:681-687 | task ids restart at zero in every module |
| Fork.CaptureTwice | src/V3Fork.cpp:531-549 | capturing the same name twice returns the same variable both times and adds at most one variable |
| Fork.TaskifyChoice | src/V3Fork.cpp:562-603 | a node outside a new process, or a created call, is only iterated; a process with no fork locals, no captures and no taskify-all stays in place; any other process is moved into a task of its kind |
| Fork.CapturesForceTask | src/V3Fork.cpp:584-586 | a new process with a fork local, a capture or taskify-all is always moved into a task |
| DfgExtract.WriteIsImpure | src/V3DfgOptimizer.cpp:205-210 | an expression that writes any variable is impure |
| DfgExtract.ReadsMeansRead | src/V3DfgOptimizer.cpp:211-214 | a variable is in an expression's read list exactly when a read reference to it occurs in the expression |
| DfgExtract.ReadsListMeansRead | src/V3DfgOptimizer.cpp:211-214 | a variable is in a list's read list exactly when one of the expressions reads it |
| DfgExtract.RootCandidates | src/V3DfgOptimizer.cpp:63-93 | a root expression becomes a candidate exactly when a candidate list is set up and it is extractable (not a reference or constant, pure, reading some variable); the candidate carries all its reads |
| DfgExtract.CandidatesAreExtractable | src/V3DfgOptimizer.cpp:76-92 | every collected candidate is an extractable expression paired with exactly the variables it reads |
| DfgExtract.NoCandidatesOutsideModules | src/V3DfgOptimizer.cpp:153-162 | with no candidate list set up and outside a proper module, a statement contributes no candidates even through nested always blocks |
| DfgExtract.SequentialAlwaysNoRoots | src/V3DfgOptimizer.cpp:156-161 | an always block with a sensitivity list or the always_ff keyword collects nothing itself; its body is visited with no candidate list |
| DfgExtract.Extracted | src/V3DfgOptimizer.cpp:108-128 | the replaced candidates are exactly those of the list that read only continuously driven, never forced variables |
| DfgExtract.HasBadVar | src/V3DfgOptimizer.cpp:118-128 | the flag is set exactly when some read variable is forced or released, or is not continuously driven |
| DfgExtract.ExtractModule | src/V3DfgOptimizer.cpp:108-143 | the loop over one module's candidates picks exactly the extracted candidates, in order |
| DfgExtract.DataflowExtractVisitor.constructor | src/V3DfgOptimizer.cpp:49-58 | no candidates, no marks, no candidate list and not under a force or release |
| DfgExtract.DataflowExtractVisitor.VisitExpr | src/V3DfgOptimizer.cpp:203-223 | one expression's reads are appended in order; impurity is set by any write or unhandled node; writes under a force or release left side are marked forced |
| DfgExtract.DataflowExtractVisitor.VisitExprs | src/V3DfgOptimizer.cpp:203-223 | the same, over a list of expressions in order |
| DfgExtract.DataflowExtractVisitor.IterateCandidate | src/V3DfgOptimizer.cpp:63-93 | the candidate list grows by the root's candidate, if any; forced marks are still collected |
| DfgExtract.DataflowExtractVisitor.VisitStmt | src/V3DfgOptimizer.cpp:153-201 | a statement adds its candidates, forced variables and continuously driven variables; the candidate-list state is restored afterwards |
| DfgExtract.DataflowExtractVisitor.VisitAssign | src/V3DfgOptimizer.cpp:172-180 | the right-hand side is a candidate root and the left side is visited for marks |
| DfgExtract.DataflowExtractVisitor.VisitAssignW | src/V3DfgOptimizer.cpp:165-170 | a plain variable on the left is marked as continuously driven; both sides are visited |
| DfgExtract.DataflowExtractVisitor.VisitIf | src/V3DfgOptimizer.cpp:182-186 | the condition is a candidate root, then both branches are visited |
| DfgExtract.DataflowExtractVisitor.VisitAlways | src/V3DfgOptimizer.cpp:153-163 | the body collects candidates only for a combinational block of a proper module, and the previous list is restored |
| DfgExtract.DataflowExtractVisitor.VisitStmts | src/V3DfgOptimizer.cpp:153-201 | a statement list adds the candidates and marks of its statements in order |
| DfgExtract.DataflowExtractVisitor.VisitModule | src/V3DfgOptimizer.cpp:147-151 | a module appends its own candidate list and adds its forced and driven variables |
| DfgExtract.DataflowExtractVisitor.VisitNetlist | src/V3DfgOptimizer.cpp:97-145 | all modules are collected first; then the good candidates of proper modules are extracted, module by module |
| DfgExtract.ExtractAll | src/V3DfgOptimizer.cpp:103-144 | the loop over modules extracts from proper modules only |
| DfgExtract.ExtractedMeaning | src/V3DfgOptimizer.cpp:103-128 | a candidate is extracted exactly when it belongs to a proper module and reads only continuously driven, never forced variables |
| VlcRead.SecSpace | src/VlcTop.cpp:49-52 | the name ends at the first quote followed by a space at or after index 3, or at the end of the line when there is none |
| VlcRead.ScanSecSpace | src/VlcTop.cpp:49-52 | the index loop of the reader stops where SecSpace says |
| VlcRead.ParseLine | src/VlcTop.cpp:48-56 | as written: a line is a point line exactly when it starts with 'C'; a 'C' line shorter than 3 characters makes the name extraction throw; a kept point matches the type filter and its count fits 64 bits; a filtered name fails the filter |
| VlcRead.ParseLineChecked | src/VlcTop.cpp:48-56 | the reader with its two failure modes turned into skipped lines never throws or reads past the text |
| VlcRead.CheckedAgrees | src/VlcTop.cpp:48-56 | the checked reader gives the same result as the reader on every line the reader handles, and skips exactly the lines where it fails |
| VlcRead.ShortPointLineThrows | src/VlcTop.cpp:53 | the one-character line "C" makes the name extraction start past the end of the line |
| VlcRead.UnterminatedNameReadsPastEnd | src/VlcTop.cpp:49-56 | a 'C' line with no closing quote-space makes the count read start past the end of the text |
| VlcRead.Wrap64 | src/VlcTop.cpp:56 | the conversion to uint64_t lands below 2^64 and keeps every value that already fits |
| VlcRead.ReadLine | src/VlcTop.cpp:48-56 | one line is read as the checked reader says |
| VlcRead.ReadCoverage | src/VlcTop.cpp:45-67 | the points handed to the table are the point lines that pass the filter, in order; when ranking, the test's buckets are exactly the names hit at least the sufficient count, and otherwise there are none |
| VlcRead.WriteCoverage | src/VlcTop.cpp:79-83 | a data file is the header line, then one point line per point, in the order of the points |
| VlcRead.CountRoundTrip | src/VlcTop.cpp:56 | a count written as a space and its decimal digits reads back as the same count when it fits a long long |
| VlcRead.FormatPointSecSpace | src/VlcTop.cpp:82 | in a written point line whose name holds no quote-space, the first quote-space is the one closing the name |
| VlcRead.PointLineRoundTrip | src/VlcTop.cpp:82 | a written point line reads back as the same point when its type is selected, and as filtered out otherwise |
| VlcRead.HeaderIsNotPoint | src/VlcTop.cpp:79 | the header line is not read as a point |
| VlcRead.CoverageRoundTrip | src/VlcTop.cpp:79-83 | reading a written data file gives back exactly the selected points, in order |
| VlcRead.SufficientNamesMeaning | src/VlcTop.cpp:60-64 | a name is covered exactly when some selected point of that name has at least the sufficient count |
| VlcRead.CoveringRoundTrip | src/VlcTop.cpp:60-64 | reading a written data file while ranking covers exactly the selected points with sufficient counts |
| VlcRank.BeforeStrictWeakOrder | src/VlcTop.cpp:149-156 | the comparator is irreflexive, asymmetric and transitive, and incomparability is transitive, as std::sort requires |
| VlcRank.BeforeTies | src/VlcTop.cpp:149-156 | two tests are unordered exactly when they tie on computrons and on the number of points covered |
| VlcRank.InsertSortedByTime | src/VlcTop.cpp:169 | inserting a test into a sorted vector keeps it sorted |
| VlcRank.SortByTime | src/VlcTop.cpp:169 | the sorted vector is a permutation of its input and no test in it comes before an earlier one |
| VlcRank.CollectByTime | src/VlcTop.cpp:163-168 | the collected tests are exactly those covering at least one point, each once, in increasing order |
| VlcRank.AllPointsMeaning | src/VlcTop.cpp:171-176 | a point is remaining before the first pick exactly when some test covers it |
| VlcRank.CoveredMeaning | src/VlcTop.cpp:198-201 | a point is covered by the picks exactly when one of the picked tests covers it |
| VlcRank.FindBest | src/VlcTop.cpp:187-197 | when found, the pick is an unranked test covering some remaining point, covering no fewer than any other unranked test and more than every earlier one; when not found, no unranked test covers a remaining point |
| VlcRank.PopShrinks | src/VlcTop.cpp:201 | a pick covering some remaining point leaves fewer remaining points |
| VlcRank.GreedySnoc | src/VlcTop.cpp:187-201 | appending the best pick keeps the record of picks greedy |
| VlcRank.RanksSnoc | src/VlcTop.cpp:199 | ranking a new test with the next rank keeps ranks equal to places in the order, 0 for the unranked |
| VlcRank.PointsSnoc | src/VlcTop.cpp:200 | a new pick's rankPoints is the number of remaining points it covers |
| VlcRank.Rank | src/VlcTop.cpp:158-206 | the sorted vector holds each covering test once; every pick was the best given the earlier picks, and picking stops only when no unranked test helps; ranks and rankPoints match the order; the ranked tests together cover every point any test covers |
| VlcRank.RankLoop | src/VlcTop.cpp:182-205 | the greedy loop ends with greedy picks, nothing left to gain, and matching ranks and rankPoints |
| VlcRank.Pick | src/VlcTop.cpp:198-201 | one pick appends the test, ranks it, records its new points, and removes them from the remaining points, which shrink |
| VlcRank.SortedCovering | src/VlcTop.cpp:163-169 | the vector holds each covering test exactly once, sorted by the comparator |
| VlcRank.RankStep | src/VlcTop.cpp:201 | a pick adds its points to the covered points and removes them from the remaining ones |
| VlcRank.RankCoversAll | src/VlcTop.cpp:182-205 | when the loop stops, the ranked tests cover every point any test covers |
| VlcRank.RankedCover | src/VlcTop.cpp:192-199 | every ranked test covers some point, and no test is ranked twice |
| VlcRank.ContributedTotal | src/VlcTop.cpp:198-201 | the new points of the first n picks plus the points still remaining equal all points |
| VlcRank.RankPointsContributed | src/VlcTop.cpp:200 | the rankPoints of the first n ranked tests add up to their contributions |
| VlcRank.RankPointsTotal | src/VlcTop.cpp:182-205 | the rankPoints of all ranked tests add up to the number of points any test covers |
| VlcAnnotate.EmitMeaning | src/VlcTop.cpp:228-231 | an ending entry inserts exactly the lines start..end, and none when start is 0 |
| VlcAnnotate.EmitLines | src/VlcTop.cpp:229-231 | the insertion loop produces the lines of the entry |
| VlcAnnotate.SkipDigits | src/VlcTop.cpp:239-241 | the scan stops right after the digit run |
| VlcAnnotate.TokensAt | src/VlcTop.cpp:228-237 | a comma and a dash are tokens of their own; any other non-digit is skipped |
| VlcAnnotate.TokensDigits | src/VlcTop.cpp:238-244 | a digit run is one number token with the run's decimal value |
| VlcAnnotate.RunCons | src/VlcTop.cpp:227-245 | a comma emits the entry and resets the state; a dash starts a range; a number sets the start unless in a range, and always sets the end |
| VlcAnnotate.ParseLinesCov | src/VlcTop.cpp:223-245 | the character loop inserts exactly the lines the state machine gives for the text |
| VlcAnnotate.ParseStep | src/VlcTop.cpp:227-245 | one pass of the loop advances and emits what the state machine emits for the tokens it consumed |
| VlcAnnotate.TokensDecimal | src/VlcTop.cpp:238-244 | a written number followed by a non-digit reads as that number |
| VlcAnnotate.LinesCovRendered | src/VlcTop.cpp:223-245 | a linescov text of lines and ranges joined by commas inserts exactly the lines of its entries, in order |
| VlcAnnotate.RangeThenLine | src/VlcTop.cpp:223-245 | "a-b,c" inserts the lines a..b, then c |
| VlcAnnotate.LeadingDashAddsNothing | src/VlcTop.cpp:229 | an entry with no start, such as "-5", inserts nothing |
| VlcAnnotate.UnplacedPointsOnNoLine | src/VlcTop.cpp:216 | a point with no file name or no line number is on no line |
| VlcAnnotate.PlacedPointOnOwnLine | src/VlcTop.cpp:221 | a placed point is always on its own line |
| VlcAnnotate.AnnotateCalc | src/VlcTop.cpp:210-248 | a point is in the set of a (file, line) exactly when it is on that line; every set present is non-empty and holds only point indices |
| VlcAnnotate.InsertPoint | src/VlcTop.cpp:221-230 | the point joins the set of every given line of the file; nothing else changes |
| VlcAnnotate.Marker | src/VlcTop.cpp:315-323 | a space when the minimum count passes, '~' when only the maximum does, '%' when neither does |
| VlcAnnotate.Pad6 | src/VlcTop.cpp:324 | the count is written in decimal, zero-padded to at least six digits, and reads back as the same count |
| VlcAnnotate.LeadingZerosValue | src/VlcTop.cpp:324 | leading zeros do not change the value of a digit string |
| VlcAnnotate.AnnotationNoPoints | src/VlcTop.cpp:300-330 | without point annotation the output has one line per source line, annotated when its line number has counts and indented by eight spaces otherwise |
| VlcAnnotate.AnnotationPoints | src/VlcTop.cpp:324-328 | with point annotation, an annotated line is followed by exactly the lines its points dump, before the next source line |
| VlcAnnotate.AnnotateLine | src/VlcTop.cpp:309-329 | one turn of the line loop appends the line's block: its counts and, when asked, its point lines, or the indented line |
| VlcAnnotate.AnnotateLines | src/VlcTop.cpp:302-330 | the line loop writes the blocks of all source lines in order, line numbers counted from 1 |
| VlcAnnotate.AnnotateOutput | src/VlcTop.cpp:300-330 | the output is the header, then the blocks of all source lines; without point annotation, exactly one line per source line, so the header plus the source in order |
| VlcAnnotate.SourceNeeded | src/VlcTop.cpp:256-269 | one source gives a case per line and an ok case per line whose minimum count passes; it is needed exactly when all sources are annotated or some line fails |
| VlcAnnotate.AnnotateCalcNeeded | src/VlcTop.cpp:250-275 | each source is needed exactly as SourceNeeded says; the totals agree, so no "%00" hint is printed, exactly when every line of every source passes |
| VlcAnnotate.AnnotateOutputFiles | src/VlcTop.cpp:277-332 | an output is produced for exactly the needed sources, each the annotation of that source's text |
| VlcAnnotate.AnnotatedLineShape | src/VlcTop.cpp:310-324 | both kinds of line keep the source text unchanged after the prefix; an annotated line holds the maximum count; for counts below a million the source text starts in column 8 either way |
| VlcAnnotate.DecimalLength | src/VlcTop.cpp:324 | a number below 10^k has at most k decimal digits |
| VlcInfo.LineCounts | src/VlcTop.cpp:123-139 | one line's records hold one DA record and as many BRDA records as the line's found branches, and as many passing ones as its hit branches |
| VlcInfo.HitAtMostFound | src/VlcTop.cpp:136 | the hit branch records are never more than the found ones |
| VlcInfo.WriteLine | src/VlcTop.cpp:124-138 | a line gives its DA record and, unless it has exactly one point, one BRDA record per point with the branch counts |
| VlcInfo.WriteInfoSource | src/VlcTop.cpp:119-143 | one source gives SF, its lines' records, then BRF and BRH with the found and hit counts, then end_of_record |
| VlcInfo.SinglePointNoBranches | src/VlcTop.cpp:126-127 | a line with exactly one point gets a DA record and no BRDA record |
| VlcInfo.BranchesNumbered | src/VlcTop.cpp:129-138 | the BRDA records of a line number its points 0, 1, ... in block 0, each with its count |
| VlcInfo.SourceRecordsShape | src/VlcTop.cpp:119-143 | BRF counts the source's BRDA records and BRH those passing the count test, never more; there is one DA record per line |
| VlcInfo.LinesCountDA | src/VlcTop.cpp:125 | the records of a source's lines hold exactly one DA record per line |
| VlcInfo.WriteInfo | src/VlcTop.cpp:116-145 | the output is the test-name record, then the records of every source in turn |
| VpiAccess.WordBits | include/verilated_vpi.cpp:2476 | a storage word has 8, 16, 32 or 64 bits, and a wide variable's word has 32 |
| VpiAccess.Count | include/verilated_vpi.cpp:2477-2483 | the bit count is clamped so the field never runs past the end of the variable, and stays positive when the offset is inside |
| VpiAccess.Masks | include/verilated_vpi.cpp:2487-2517 | the masks exist exactly when the field fits (at most one 32-bit word for a wide variable, inside the word otherwise), and then the low mask selects the field bits of the first word and the high mask those of the next word, non-zero exactly when the field straddles |
| VpiAccess.AccessInfoOf | include/verilated_vpi.cpp:2469-2519 | an offset at or past the end of the variable fails; otherwise the clamped field gives the word offset, the bit offset and the selecting masks, or the error of the failed assertion |
| VpiAccess.ReadMaskedBits | include/verilated_vpi.cpp:2525-2530 | the two-word read moves the selected bits of both words down to bit 0 |
| VpiAccess.ReadFieldBits | include/verilated_vpi.cpp:2522-2531 | the masked read at the field's word offset yields the field's storage bits, with zeros above |
| VpiAccess.GetWordGen | include/verilated_vpi.cpp:2522-2531 | the read succeeds exactly when every access assertion holds; bit j of the result is storage bit base+j for j below the clamped count and 0 above |
| VpiAccess.GetWord | include/verilated_vpi.cpp:2550-2562 | a non-integral storage type is an unsupported type; otherwise the field is read as GetWordGen reads it and zero-extended to 64 bits |
| VpiAccess.WriteMaskedBits | include/verilated_vpi.cpp:2538-2545 | the two word writes take the field bits from the shifted word and keep every other bit |
| VpiAccess.WordsWritten | include/verilated_vpi.cpp:2534-2546 | the writes stay inside the storage, store the field from the word's low bits, and change no other bit |
| VpiAccess.WriteField | include/verilated_vpi.cpp:2538-2545 | the two in-place word writes store the field and change no other bit of the array |
| VpiAccess.PutWordGen | include/verilated_vpi.cpp:2534-2546 | the write happens exactly when every access assertion holds; on failure the storage is unchanged, and otherwise the field holds the word's low bits and nothing else changes |
| VpiAccess.PutWord | include/verilated_vpi.cpp:2567-2578 | a non-integral storage type is an unsupported type and writes nothing; otherwise the 64-bit word is cut to the word type and written as PutWordGen writes it |
| VpiAccess.GetAfterPut | include/verilated_vpi.cpp:2522-2546 | reading a field back after writing it gives the written word restricted to the clamped count |
| VpiAccess.GetDisjointAfterPut | include/verilated_vpi.cpp:2522-2546 | a write does not change what a field that does not overlap it reads |
| VpiText.FieldSlice | include/verilated_vpi.cpp:2628-2629 | a slice of the value holds, in order, the value's bits from the given offset on |
| VpiText.GroupStartsInside | include/verilated_vpi.cpp:2635 | group i of g bits starts inside an n-bit value exactly when i is below the group count, the digit count of the octal, hexadecimal and string formats |
| VpiText.GroupWidth | include/verilated_vpi.cpp:2483 | a group that starts inside the value is read with between 1 and g bits, fewer only when it reaches the end of the value |
| VpiText.GetWordInside | include/verilated_vpi.cpp:2477-2509 | a read inside the value of at most 32 bits of a wide variable, or inside the word of a narrow one, passes every access assertion and stays inside the value |
| VpiText.GetWordField | include/verilated_vpi.cpp:2550-2562 | such a read succeeds and its 64-bit result is the number the field's bits spell |
| VpiText.GroupValue | include/verilated_vpi.cpp:2638 | a group's number is below 2 to the power of its width, and below 2^g |
| VpiText.GroupValueIsGetWord | include/verilated_vpi.cpp:2638 | reading g bits at offset g*i succeeds and gives the number of group i |
| VpiText.Digits | include/verilated_vpi.cpp:2635-2640 | one digit per group that starts inside the value, digit i being group i's number |
| VpiText.DigitsValue | include/verilated_vpi.cpp:2634-2667 | the digits in base 2^g, least significant first, spell the value |
| VpiText.PutGroups | include/verilated_vpi.cpp:2792-2805 | a loop writing one g-bit group per number succeeds exactly when no group starts past the end of the value; it fails on the offset assertion, and in both cases the groups written before stop are in place and nothing else changes |
| VpiText.GroupReadBack | include/verilated_vpi.cpp:2792-2805 | a written group reads back as its number cut to the group's width |
| VpiText.GroupUntouched | include/verilated_vpi.cpp:2792-2805 | a group past the written ones reads as before |
| VpiText.DigitsAfterPut | include/verilated_vpi.cpp:2792-2805 | after the writes, every written digit is its number cut to its group and every other digit is unchanged |
| VpiText.DigitsWritten | include/verilated_vpi.cpp:2792-2805 | writing one number per group, each fitting its group, makes those numbers exactly the digits |
| VpiText.CStr | include/verilated_vpi.cpp:2780 | strlen stops at the first NUL: the C string is the longest NUL-free prefix of the text |
| VpiText.CStrPlain | include/verilated_vpi.cpp:2780 | a text without NUL is its own C string |
| VpiText.BitUpdatedField | include/verilated_vpi.cpp:2784-2789 | updating one storage bit inside the field changes exactly that bit of the value and nothing outside the value |
| VpiText.SetStorageBit | include/verilated_vpi.cpp:2786-2789 | the in-place byte update sets or clears exactly one storage bit |
| VpiText.GetBinStr | include/verilated_vpi.cpp:2624-2633 | the text has one '0' or '1' per bit of the value, most significant first |
| VpiText.PutBinStr | include/verilated_vpi.cpp:2779-2791 | every bit of the value is set from the matching character of the C string counted from its end (bits past its length are cleared), and nothing outside the value changes |
| VpiText.BinRoundTrip | include/verilated_vpi.cpp:2624-2633 | reading back a value written from a binary string of exactly the value's width gives that string |
| VpiValue.GetDigitStr | include/verilated_vpi.cpp:2635-2640 | the loop puts the alphabet character of group i at position chars-1-i, so the text spells the digits most significant first |
| VpiValue.OctText | include/verilated_vpi.cpp:2634-2642 | the octal text has (bitSize + 2) / 3 characters, each '0'..'7' |
| VpiValue.OctChar | include/verilated_vpi.cpp:2639 | every octal digit is written as a character that reads back as that digit |
| VpiValue.GetOctStr | include/verilated_vpi.cpp:2634-2642 | the text returned is the octal text of the value |
| VpiValue.OctDigit | include/verilated_vpi.cpp:2795-2803 | a character '0'..'7' reads as its digit; any other character reads as 0 |
| VpiValue.PutOctStr | include/verilated_vpi.cpp:2792-2806 | as written: one 3-bit group per character of the C string; the put fails on the offset assertion exactly when the text has more characters than the value has octal digits; otherwise it warns exactly when a character is not octal; the groups before any failure are written and nothing else changes |
| VpiValue.OctDecodeText | include/verilated_vpi.cpp:2634-2642 | reading the octal text back digit by digit gives the value's octal digits |
| VpiValue.OctDecode | include/verilated_vpi.cpp:2639 | octal digits written as text read back as the same digits |
| VpiValue.OctRoundTrip | include/verilated_vpi.cpp:2634-2642 | after a put of octal text with exactly one character per octal digit, whose leading digit fits, the get returns that text |
| VpiValue.OctEncode | include/verilated_vpi.cpp:2795 | the digits of octal text, written back as text, give the text |
| VpiValue.OctRewrite | include/verilated_vpi.cpp:2634-2642 | octal text read from any value writes back to a value that reads as the same text |
| VpiValue.FillFull | include/verilated_vpi.cpp:2835-2853 | filling digits to their own length changes nothing |
| VpiValue.Used | include/verilated_vpi.cpp:2835-2836 | the characters a put looks at are the last Min(len, digit count) characters of the text |
| VpiValue.PutOctStrFixed | include/verilated_vpi.cpp:2792-2806 | corrected octal put: one group per octal digit of the value, taken from the end of the text and 0 where the text is shorter; warns exactly when a used character is not octal |
| VpiValue.OctFillText | include/verilated_vpi.cpp:2634-2642 | zero-filled digits of octal text, written back as text, give the text padded with '0' |
| VpiValue.OctFixedRoundTrip | include/verilated_vpi.cpp:2634-2642 | after the corrected put of octal text no longer than the value's digit count, whose leading digit fits, the get returns the text padded with '0' on the left |
| VpiValue.OctWrittenText | include/verilated_vpi.cpp:2634-2642 | after a put of digits that fit, the octal text spells those digits |
| VpiValue.OctOverlongFails | include/verilated_vpi.cpp:2793-2804 | the text "017" denotes 15, which fits a 4-bit value, yet the put as written fails because the text has more characters than the value's two octal digits |
| VpiValue.OctShortKeepsHigh | include/verilated_vpi.cpp:2793-2804 | a short octal text leaves the old value's high digits in place, unlike the hexadecimal and string puts, which clear them |
| VpiValue.HexText | include/verilated_vpi.cpp:2659-2667 | the hexadecimal text has (bitSize + 3) >> 2 characters, each a lower-case hexadecimal digit |
| VpiValue.HexChar | include/verilated_vpi.cpp:2664 | every hexadecimal digit is written as a lower-case character that reads back as that digit |
| VpiValue.GetHexStr | include/verilated_vpi.cpp:2659-2667 | the text returned is the hexadecimal text of the value |
| VpiValue.HexDigit | include/verilated_vpi.cpp:2837-2850 | digits of either case read as their value, upper-case letters like lower-case ones, and any other character reads as 0 |
| VpiValue.SkipHexPrefix | include/verilated_vpi.cpp:2830 | a leading "0x" or "0X" is dropped and any other text is kept |
| VpiValue.PutHexStr | include/verilated_vpi.cpp:2826-2857 | after an optional prefix, one 4-bit group per hexadecimal digit of the value, from the end of the text and 0 where it is shorter; warns exactly when a used character is not hexadecimal; nothing outside the value changes |
| VpiValue.HexFillText | include/verilated_vpi.cpp:2659-2667 | zero-filled digits of lower-case hexadecimal text, written back as text, give the text padded with '0' |
| VpiValue.NoHexPrefix | include/verilated_vpi.cpp:2830 | lower-case hexadecimal digits never start a "0x" prefix |
| VpiValue.HexRoundTrip | include/verilated_vpi.cpp:2826-2857 | after a put of lower-case hexadecimal text no longer than the value's digit count, whose leading digit fits, the get returns the text padded with '0' on the left |
| VpiValue.HexWrittenText | include/verilated_vpi.cpp:2659-2667 | after a put of digits that fit, the hexadecimal text spells those digits |
| VpiValue.HexPrefixIgnored | include/verilated_vpi.cpp:2830 | putting "0x" in front of the text changes nothing |
| VpiValue.HexRewrite | include/verilated_vpi.cpp:2659-2667 | hexadecimal text read from any value writes back to a value that reads as the same text |
| VpiValue.HexDecodeText | include/verilated_vpi.cpp:2659-2667 | reading the hexadecimal text back digit by digit gives the value's digits, which fit |
| VpiValue.HexDecode | include/verilated_vpi.cpp:2664 | hexadecimal digits written as text read back as the same digits |
| VpiValue.ByteChar | include/verilated_vpi.cpp:2684 | a byte is shown as itself, and a zero byte as a space |
| VpiValue.StrText | include/verilated_vpi.cpp:2678-2688 | the string text of an integral value has one character per byte, never NUL |
| VpiValue.GetStrBytes | include/verilated_vpi.cpp:2678-2688 | the text returned is the string text of the value |
| VpiValue.ByteVals | include/verilated_vpi.cpp:2867 | a character is put as the low 8 bits of its code, last character first |
| VpiValue.PutStrBytes | include/verilated_vpi.cpp:2862-2870 | byte i of the value is character len-1-i of the C string, and 0 where the text is shorter; nothing outside the value changes |
| VpiValue.StrFillText | include/verilated_vpi.cpp:2678-2688 | bytes of text with characters 1..255, zero-filled and written back as text, give the text padded with spaces |
| VpiValue.StrRoundTrip | include/verilated_vpi.cpp:2862-2870 | after a put of text with characters 1..255, at most one per byte and with a leading byte that fits, the get returns the text padded with spaces on the left |
| VpiValue.StrZeroByteNotKept | include/verilated_vpi.cpp:2684 | a zero byte reads as a space, and a space writes back as byte 32, not 0 |
| VpiValue.DigitText | include/verilated_vpi.cpp:2637-2639 | digits are written most significant first: character k is the digit of weight n-1-k |
| VpiValue.OctVals | include/verilated_vpi.cpp:2793-2803 | the digit of 3-bit group i is read from character len-1-i of the text |
| VpiValue.HexVals | include/verilated_vpi.cpp:2834-2850 | the digit of 4-bit group i is read from character len-1-i of the text |
| VpiValue.Fill | include/verilated_vpi.cpp:2835-2853 | digits are taken where the text has them and are 0 where it is shorter |
| VpiNumber.DigitsNumberBit | include/verilated_vpi.cpp:2767-2768 | bit k of the number that digits of g bits spell is bit k mod g of digit k div g |
| VpiNumber.DigitsUnique | include/verilated_vpi.cpp:2606-2609 | digits of the same width that spell the same number are the same digits |
| VpiNumber.FieldValueBound | include/verilated_vpi.cpp:2589 | a value of bitSize bits is below 2^bitSize |
| VpiNumber.ValueWrittenRead | include/verilated_vpi.cpp:2763-2778 | a value written with n reads back as n modulo 2^bitSize |
| VpiNumber.GroupsAsValue | include/verilated_vpi.cpp:2767-2768 | groups that cover the whole value, each below 2^g, write the number they spell and leave the rest of the storage alone |
| VpiNumber.WordAsValue | include/verilated_vpi.cpp:2773 | one put of the whole value with the count clamped to bitSize writes the number x |
| VpiNumber.Signed32 | include/verilated_vpi.cpp:2690 | a 32-bit pattern read as PLI_INT32 is the one integer in the int32 range congruent to it modulo 2^32 |
| VpiNumber.Signed32Of | include/verilated_vpi.cpp:2690 | every PLI_INT32 is the two's complement reading of its own low 32 bits |
| VpiNumber.LowWord | include/verilated_vpi.cpp:2690 | a 32-bit read at offset 0 gives the low 32 bits of the value |
| VpiNumber.GetInt | include/verilated_vpi.cpp:2689-2691 | vpiIntVal get: fails exactly on an empty value, with the offset error; otherwise the low 32 bits of the value as PLI_INT32 |
| VpiNumber.PutInt | include/verilated_vpi.cpp:2872-2874 | as written: the integer is put with a count of 64, so the put succeeds exactly when the value is not empty and is not a wide value of more than 32 bits; on success the value becomes the integer modulo 2^bitSize, on failure nothing changes |
| VpiNumber.SignWords | include/verilated_vpi.cpp:2873 | the words of x sign-extended to n 32-bit words are n words below 2^32 |
| VpiNumber.SignWordsNumber | include/verilated_vpi.cpp:2873 | those words spell x modulo 2^(32 n) |
| VpiNumber.PutIntFixed | include/verilated_vpi.cpp:2872-2874 | corrected vpiIntVal put: succeeds exactly on a non-empty value, which becomes the integer modulo 2^bitSize, sign-extended; on failure nothing changes |
| VpiNumber.IntWideFails | include/verilated_vpi.cpp:2873 | on a wide variable of more than 32 bits a put of 64 bits at offset 0 is refused by the access checks |
| VpiNumber.IntRoundTrip | include/verilated_vpi.cpp:2689-2691 | get after put of an integer succeeds; a value of 32 bits or more gives the integer back, a narrower one its low bitSize bits |
| VpiNumber.GetWideVector | include/verilated_vpi.cpp:2606-2609 | the loop over a wide value gives its 32-bit groups, least significant first, with no x/z bits |
| VpiNumber.WideEntriesDigits | include/verilated_vpi.cpp:2606-2609 | entry i of a wide value is its i-th 32-bit group, with bval 0 |
| VpiNumber.WholeWord | include/verilated_vpi.cpp:2613 | a 64-bit read of a QData value reads the whole value |
| VpiNumber.QuadBound | include/verilated_vpi.cpp:2612 | a QData value is below 2^64 |
| VpiNumber.QuadEntries | include/verilated_vpi.cpp:2614-2617 | a 64-bit number is split into two entries, low word first, that spell it |
| VpiNumber.GetQuadVector | include/verilated_vpi.cpp:2612-2618 | a QData value of more than 32 bits is read as two entries that spell the value |
| VpiNumber.QuadVectorReadsWord | include/verilated_vpi.cpp:2613-2617 | those entries are the 64-bit read split into its two halves |
| VpiNumber.GetNarrowVector | include/verilated_vpi.cpp:2619-2622 | a value of at most 32 bits is read as one entry equal to the value |
| VpiNumber.NarrowWord | include/verilated_vpi.cpp:2620 | the one 32-bit read of a value of at most 32 bits is the whole value |
| VpiNumber.GetVector | include/verilated_vpi.cpp:2593-2623 | vpiVectorVal get: refused exactly for a wide value of VL_VALUE_STRING_MAX_WORDS words or more; otherwise entries with no x/z bits that spell the value |
| VpiNumber.PutWideVector | include/verilated_vpi.cpp:2765-2769 | the loop over a wide value writes the number the aval words spell |
| VpiNumber.PutQuadVector | include/verilated_vpi.cpp:2770-2774 | a QData value of more than 32 bits becomes high * 2^32 + low |
| VpiNumber.PutNarrowVector | include/verilated_vpi.cpp:2775-2778 | a narrow value becomes the first aval word; an empty value fails with nothing changed |
| VpiNumber.PutVector | include/verilated_vpi.cpp:2763-2778 | vpiVectorVal put: a null vector fails with nothing changed; otherwise it fails exactly on an empty narrow value, and on success the value becomes the number the first entries' aval words spell |
| VpiNumber.VectorRoundTrip | include/verilated_vpi.cpp:2593-2623 | get after put of a vector whose number fits the value returns the aval words that were put |
| VpiStrings.Bounded | include/verilated_vpi.cpp:1243-1244 | a bounded table lookup: the entry at the code when the code is inside the table, entry 0 otherwise, so always a name from the table |
| VpiStrings.StrFromVpiVal | include/verilated_vpi.cpp:1219-1245 | a known value format gets its own name; a negative or too large code gets "*undefined*" |
| VpiStrings.StrFromVpiObjType | include/verilated_vpi.cpp:1246-1498 | codes of the IEEE 1364 table and of the SystemVerilog table starting at vpiPackage get their names; every other code gets entry 0 |
| VpiStrings.StrFromVpiMethod | include/verilated_vpi.cpp:1499-1540 | codes from vpiCondition to vpiStmt get their names, offset by vpiCondition; any other code gets "*undefined*" |
| VpiStrings.StrFromVpiCallbackReason | include/verilated_vpi.cpp:1542-1581 | a known callback reason gets its own name; a negative or too large code gets "*undefined*" |
| VpiStrings.StrFromVpiConstType | include/verilated_vpi.cpp:1666-1682 | a known constant type gets its own name; a negative or too large code gets "*undefined*" |
| VpiStrings.StrFromVpiPropAsWritten | include/verilated_vpi.cpp:1583-1665 | as written: the lookup is outside the table exactly for codes below vpiUndefined, which have no guard |
| VpiStrings.PropNegativeReadsOutside | include/verilated_vpi.cpp:1663-1664 | property code -2 reads the entry before the start of the table |
| VpiStrings.StrFromVpiProp | include/verilated_vpi.cpp:1583-1665 | corrected: vpiUndefined is named "vpiUndefined", every other code gets a name from the table, and wherever the code as written stays inside the table the two agree |
| VpiFormat.CheckFormat | include/verilated_vpi.cpp:2375-2435 | the check passes exactly when it records no error, and a failure records "Unsupported format" for the variable; vector, binary, octal, hexadecimal and integer formats need an integral type, decimal an integral type other than WDATA, string an integral type or a string that is read or is not a parameter, real a real, suppress always passes and any other format fails |
| VpiFormat.StringParamReadOnly | include/verilated_vpi.cpp:2403-2410 | a string parameter can be read as a string but not written as one |
| VpiFormat.DirectionMatters | include/verilated_vpi.cpp:2375-2435 | a get and a put of the same format disagree only for a string-format access to a string parameter |
| VpiFormat.CanInertialDelay | include/verilated_vpi.cpp:831-853 | an inertial-delay put can be queued only for the string, scalar, integer, real and vector formats; a string or vector format needs its value storage set |
| VpiCallbacks.ReasonCodes | include/verilated_vpi.cpp:869 | the reason codes the scheduler uses name the callback reasons of the name table, and CB_ENUM_MAX_VALUE is the table's length |
| VpiCallbacks.EmplaceContents | include/verilated_vpi.cpp:910-911 | an emplace adds nothing but the new entry and loses no entry |
| VpiCallbacks.EmplaceOrdered | include/verilated_vpi.cpp:856-864 | an emplace keeps the map in VerilatedVpiTimedCbsCmp order, by time and then by id, each key once |
| VpiCallbacks.EmplaceAdds | include/verilated_vpi.cpp:910-911 | an emplace adds the entry exactly when its key is new, and leaves the map as it was otherwise |
| VpiCallbacks.EmplaceReasons | include/verilated_vpi.cpp:905-919 | every entry of the map still carries a valid reason after the emplace |
| VpiCallbacks.Find | include/verilated_vpi.cpp:939-950 | std::map::find gives the index of the entry with the key, and nothing exactly when no entry has it |
| VpiCallbacks.FirstId | include/verilated_vpi.cpp:924-936 | the search of a list stops at the first holder with the id, and finds none exactly when no holder has it |
| VpiCallbacks.Valids | include/verilated_vpi.cpp:999-1000 | the holders not invalidated, in order, drawn from the list |
| VpiCallbacks.Select | include/verilated_vpi.cpp:958-979 | the holders a move takes for one reason are valid and have that reason |
| VpiCallbacks.RouteSelect | include/verilated_vpi.cpp:958-979 | moving entries appends to each reason's list exactly that reason's valid holders, in key order |
| VpiCallbacks.DueCount | include/verilated_vpi.cpp:958-959 | the loops of moveFutureCbs take the leading entries that are due and stop at the first one that is not |
| VpiCallbacks.RestNotDue | include/verilated_vpi.cpp:958-979 | in a map ordered by key, no entry after the first one not due is due |
| VpiCallbacks.Move | include/verilated_vpi.cpp:953-980 | moveFutureCbs keeps the scheduler well formed and leaves the call list alone |
| VpiCallbacks.MoveNotDue | include/verilated_vpi.cpp:958-979 | after the move every entry of m_futureCbs is after now and every entry of m_nextCbs is at or after now |
| VpiCallbacks.MoveSplits | include/verilated_vpi.cpp:958-979 | the move takes a prefix of each map and leaves the rest in order |
| VpiCallbacks.MoveAppends | include/verilated_vpi.cpp:953-980 | each reason's current list gains that reason's valid due holders, those of m_futureCbs first, each in key order |
| VpiCallbacks.InvalidateTimedOk | include/verilated_vpi.cpp:941 | invalidating an entry of a map keeps its keys and their order |
| VpiCallbacks.Remove | include/verilated_vpi.cpp:921-952 | cbReasonRemove keeps the scheduler well formed, keeps every list's length and every map's keys, and at most invalidates holders |
| VpiCallbacks.RemoveUnknown | include/verilated_vpi.cpp:921-952 | an id found nowhere under the handle's reason and key changes nothing |
| VpiCallbacks.RemoveFirstHit | include/verilated_vpi.cpp:926-929 | a holder found in the reason's current list is invalidated, and the call list and both maps are left alone |
| VpiCallbacks.SetQii | include/verilated_vpi.cpp:1993-1995 | VL_SET_QII gives a 64-bit time |
| VpiCallbacks.SupportedBound | include/verilated_vpi.cpp:1982-2024 | every reason vpi_register_cb supports is a code of the reason table other than 0 |
| VpiCallbacks.AbsTime | include/verilated_vpi.cpp:1988-1997 | the absolute time of a timed callback is a 64-bit time |
| VpiCallbacks.Append | include/verilated_vpi.cpp:894-904 | appending a holder keeps one list per reason |
| VpiCallbacks.Register | include/verilated_vpi.cpp:1982-2025 | placing a new callback keeps the scheduler well formed and leaves the call list alone |
| VpiCallbacks.NextSimTimeRemoveMissed | include/verilated_vpi.cpp:2007-2013 | as written: a cbNextSimTime callback registered at time 5 is keyed (5, id) in m_nextCbs, but its handle carries time 0, so vpi_remove_cb with that handle finds nothing and changes nothing |
| VpiCallbacks.NextSimTimeRemoveMisses | include/verilated_vpi.cpp:2007-2013 | as written, in general: from any well-formed state with a fresh id and at any time other than 0, vpi_remove_cb with the handle vpi_register_cb returns for a cbNextSimTime callback leaves the scheduler unchanged |
| VpiCallbacks.HandleTimeAgrees | include/verilated_vpi.cpp:1999-2025 | the handle as written and the corrected handle differ only for cbNextSimTime, where the written one has time 0 and the corrected one the current time |
| VpiCallbacks.IdsBelowFresh | include/verilated_vpi.cpp:892 | an id above every id held by a holder or a key is fresh |
| VpiCallbacks.IdsBelowRemove | include/verilated_vpi.cpp:921-952 | removal keeps every id within the ids handed out |
| VpiCallbacks.IdsBelowMove | include/verilated_vpi.cpp:953-980 | the move keeps every id within the ids handed out |
| VpiCallbacks.IdsBelowRegister | include/verilated_vpi.cpp:1998-2027 | registering with the next id keeps every id within the ids handed out, now one more |
| VpiCallbacks.FirstIdAppended | include/verilated_vpi.cpp:924-930 | a holder appended to a list with no holder of its id is the one the search finds |
| VpiCallbacks.EmplaceFound | include/verilated_vpi.cpp:939-950 | an entry with a fresh id, once emplaced, is found by its key, and every other entry has another id |
| VpiCallbacks.RemoveAppended | include/verilated_vpi.cpp:926-929 | removing a callback just appended to its current list leaves no valid holder with its id |
| VpiCallbacks.RemoveEmplacedFuture | include/verilated_vpi.cpp:939-943 | removing a timed callback just put in m_futureCbs, by its key, leaves no valid holder with its id |
| VpiCallbacks.RemoveEmplacedNext | include/verilated_vpi.cpp:946-950 | removing a cbNextSimTime callback just put in m_nextCbs, by its key, leaves no valid holder with its id |
| VpiCallbacks.RemoveAfterRegister | include/verilated_vpi.cpp:1970-2038 | corrected: with the handle's time equal to the key m_nextCbs uses, vpi_remove_cb right after vpi_register_cb leaves no valid holder with the callback's id, wherever the callback was put |
| VpiCallbacks.RemoveInPass | include/verilated_vpi.cpp:932-935 | a removal during callCbs invalidates a holder of the call list not yet called, so its turn calls nothing, and the current lists are left alone |
| VpiCallbacks.FindHolder | include/verilated_vpi.cpp:924-936 | the search loops find the first holder with the id |
| VpiCallbacks.Changed | include/verilated_vpi.cpp:1036-1044 | the callbacks called are holders of the list whose object changed |
| VpiCallbacks.MoveDue | include/verilated_vpi.cpp:958-979 | one loop of moveFutureCbs routes the leading due entries to the current lists and leaves the rest of the map |
| VpiCallbacks.Scheduler.constructor | include/verilated_vpi.cpp:870-884 | all lists and maps start empty, the id counter at 1, with no puts pending and no call under way |
| VpiCallbacks.Scheduler.NextCallbackId | include/verilated_vpi.cpp:892 | the counter is incremented before use, so ids start at 2, are never the invalid id 0, and no holder or key of the scheduler carries the new id |
| VpiCallbacks.Scheduler.CbCurrentAdd | include/verilated_vpi.cpp:894-904 | the holder is appended to its reason's current list |
| VpiCallbacks.Scheduler.CbFutureAdd | include/verilated_vpi.cpp:905-912 | the holder is emplaced in m_futureCbs at key (time, id) |
| VpiCallbacks.Scheduler.CbNextAdd | include/verilated_vpi.cpp:913-920 | the holder is emplaced in m_nextCbs at key (time, id) |
| VpiCallbacks.Scheduler.RegisterCb | include/verilated_vpi.cpp:1970-2031 | a null cb_data and an unsupported reason warn, return no handle and change nothing; a supported reason takes the next id, which was fresh, places the callback and returns the handle as written (time 0 for cbNextSimTime) |
| VpiCallbacks.Scheduler.CbReasonRemove | include/verilated_vpi.cpp:921-952 | the scheduler becomes Remove of its old state |
| VpiCallbacks.Scheduler.RemoveCb | include/verilated_vpi.cpp:2033-2039 | a null handle returns 0 and changes nothing; otherwise the callback is removed and 1 returned |
| VpiCallbacks.Scheduler.MoveFutureCbs | include/verilated_vpi.cpp:953-980 | the scheduler becomes Move of its old state |
| VpiCallbacks.Scheduler.CbNextDeadline | include/verilated_vpi.cpp:981-985 | the time of an entry of m_futureCbs, or the largest 64-bit time when there is none |
| VpiCallbacks.Scheduler.HasCbs | include/verilated_vpi.cpp:986-988 | false only when the reason's list holds no valid holder |
| VpiCallbacks.Scheduler.StartCall | include/verilated_vpi.cpp:992-995 | after the move, an empty list ends the call; a non-empty one is swapped with the call list and the reason's list left empty |
| VpiCallbacks.Scheduler.TakeCurrent | include/verilated_vpi.cpp:993-995 | a non-empty current list of the reason is swapped with the empty call list, so the call list holds it and the reason's list is left empty; an empty list changes nothing |
| VpiCallbacks.Scheduler.CallStep | include/verilated_vpi.cpp:997-1005 | a valid holder is invalidated, since timed callbacks fire once, and called; an invalidated one is skipped |
| VpiCallbacks.Scheduler.FinishCall | include/verilated_vpi.cpp:1006-1007 | the call list is cleared and whether anything was called is returned |
| VpiCallbacks.Scheduler.CallLoop | include/verilated_vpi.cpp:997-1005 | the loop over the call list calls exactly its valid holders, in order, and records whether it called any |
| VpiCallbacks.Scheduler.CallCbs | include/verilated_vpi.cpp:989-1009 | after the move, the valid holders of the reason's list are called in order, the result says whether any was, and the list is left empty |
| VpiCallbacks.Scheduler.CallValueCbs | include/verilated_vpi.cpp:1010-1051 | invalidated cbValueChange holders are erased, the valid ones whose object changed are called in order, and the result says whether any was |
| VpiCallbacks.Scheduler.InertialDelay | include/verilated_vpi.cpp:1053-1055 | the put is queued at the end |
| VpiCallbacks.Scheduler.DoInertialPuts | include/verilated_vpi.cpp:1056-1061 | the queued puts are applied in order and the queue is cleared |
| VpiArray.NextIndex | include/verilated_vpi.cpp:2954-2956 | the next storage position stays inside the array: one up, wrapping from the last to 0, when the left bound is the low one, one down, wrapping from 0 to the last, otherwise |
| VpiArray.Visit | include/verilated_vpi.cpp:2952-2957 | the i-th position the loops reach is inside the array |
| VpiArray.VisitNext | include/verilated_vpi.cpp:2952-2957 | each turn of the loops moves from one position to the next |
| VpiArray.VisitClosed | include/verilated_vpi.cpp:2952-2957 | the i-th position is index + i modulo the size going up, and index - i modulo the size going down |
| VpiArray.VisitDistinct | include/verilated_vpi.cpp:2952-2957 | no position is reached twice within size steps, so no element is read or written twice |
| VpiArray.StartIndex | include/verilated_vpi.cpp:3123-3125 | the requested index's distance from the left bound is a storage position inside the array, and that position holds the requested index |
| VpiArray.StepIsNextElement | include/verilated_vpi.cpp:2954-2956 | whichever way the range runs, one step moves to the next higher index, wrapping from the high bound to the low one |
| VpiArray.VisitsAscending | include/verilated_vpi.cpp:3123-3125 | the i-th element read or written is the one i indices above the requested index, wrapping around, in both orientations of the range |
| VpiArray.GetElements | include/verilated_vpi.cpp:2948-2958 | num elements are read, the i-th from the i-th position reached |
| VpiArray.Scatter | include/verilated_vpi.cpp:2961-2977 | writing elements keeps the number of elements |
| VpiArray.PutElements | include/verilated_vpi.cpp:2961-2977 | in place: the array becomes the old one with the values written one by one from the requested position |
| VpiArray.ScatterOutside | include/verilated_vpi.cpp:2971-2976 | a position no step reaches keeps its element |
| VpiArray.ScatterAt | include/verilated_vpi.cpp:2971-2976 | with at most size values, the i-th value is found at the i-th position |
| VpiArray.PutThenGet | include/verilated_vpi.cpp:2948-2977 | writing values and reading as many back from the same index gives the values written |
| VpiArray.IntegralMaskedBytes | include/verilated_vpi.cpp:2967-2972 | an integral put keeps the element's whole bytes of the value: the value modulo 256 to the element's byte count |
| VpiArray.IntegralMaskKeepsByte | include/verilated_vpi.cpp:2967-2972 | the mask is by bytes, not bits: a 3-bit element written with 255 holds 255, more than 3 bits can hold |
| VpiArray.Words | include/verilated_vpi.cpp:2997-3003 | an element is read as its n 32-bit words |
| VpiArray.WordsRoundTrip | include/verilated_vpi.cpp:2997-3003 | an element's words, put back together, give the element when it fits them |
| VpiArray.QuadJoinWords | include/verilated_vpi.cpp:3019-3030 | the 64-bit put keeps the element's bytes of the low and high words |
| VpiArray.Bytes | include/verilated_vpi.cpp:3060-3069 | an element is read as its n bytes |
| VpiArray.BytesOfSetLow | include/verilated_vpi.cpp:3086-3100 | bytes written into an element read back as those bytes |
| VpiArray.RawChunk | include/verilated_vpi.cpp:3060-3073 | each element gives its bytes, followed in the four-state layout by as many zero bytes |
| VpiArray.RawChunks | include/verilated_vpi.cpp:3060-3077 | the chunks of the elements, one per element |
| VpiArray.FlattenAt | include/verilated_vpi.cpp:3059-3072 | in chunks of one length, the i-th chunk starts at i times that length |
| VpiArray.RawLayout | include/verilated_vpi.cpp:3052-3105 | the put loop reads the i-th element's bytes where the get loop wrote them, in both the two-state and four-state layouts |
| VpiArray.GetValueArray | include/verilated_vpi.cpp:3315-3329 | tested in the source's order, an index outside the range, the vpiUserAllocFlag request and (in vl_get_value_array, 3116-3121) more elements than the array holds are errors, and nothing else is; otherwise num values are read and the i-th is the element i indices above the requested one, wrapping around |
| VpiArray.PutValueArray | include/verilated_vpi.cpp:3496-3518 | tested in the source's order, an index outside the range, a variable that is not public read-write, the vpiPropagateOff or vpiOneValue flags and (in vl_put_value_array, 3339-3345) more values than the array holds are errors, and nothing else is, each leaving the array unchanged; otherwise the values are written one by one from the requested index and the i-th value is found at the element i indices above it |
| VpiArray.AsSigned | include/verilated_vpi.cpp:3134-3142 | an element read into shortints or integers is its two's complement reading: in the signed range of the output and equal to the element modulo the output's range |
| VpiArray.ShortIntNegative | include/verilated_vpi.cpp:3134-3142 | a 16-bit element 0xFFFF reads as the shortint -1, while 0x7FFF stays positive |
| VpiArray.MaskedWordsValue | include/verilated_vpi.cpp:3032-3047 | the word-by-word put of a vector element keeps the element's bytes of the value and nothing above them |
| VpiArray.VectorWordsRoundTrip | include/verilated_vpi.cpp:2996-3047 | an element read as its words and put back from those words is stored unchanged |
| VpiNames.Scan | include/verilated_vpi.cpp:2088-2105 | a separator the scan records lies inside the name |
| VpiNames.Escaped | include/verilated_vpi.cpp:2090-2092 | inside an escaped identifier no separator is recorded before the closing space |
| VpiNames.Plain | include/verilated_vpi.cpp:2093-2103 | a separator found in a plain stretch lies inside the name |
| VpiNames.ScanSeparators | include/verilated_vpi.cpp:2088-2105 | the index-by-index loops compute what the scan over the name describes: the last separator, the one before it and the package flag |
| VpiNames.SplitName | include/verilated_vpi.cpp:2107-2116 | a name with no separator is all base name, with an empty scope, and the TOP ports are searched first |
| VpiNames.SplitHandleName | include/verilated_vpi.cpp:2083-2116 | the split vpi_handle_by_name computes with its loop is the split as written |
| VpiNames.IsToplevel | include/verilated_vpi.cpp:550-563 | a module is toplevel exactly when its full name has no '.' outside an escaped identifier |
| VpiNames.ScopeFullName | include/verilated_vpi.cpp:331 | a leading "TOP." is dropped from the full name and any other name is kept |
| VpiNames.PlainOverId | include/verilated_vpi.cpp:2094-2098 | the scan passes over a plain identifier without recording anything |
| VpiNames.EscapedOverBody | include/verilated_vpi.cpp:2090-2092 | the scan passes over an escaped identifier and its space without recording anything, even across '.' and ':' |
| VpiNames.ScanOverId | include/verilated_vpi.cpp:2089-2105 | the scan passes over an identifier of either kind to the separator or the end that follows it |
| VpiNames.ScanLastId | include/verilated_vpi.cpp:2089-2105 | an identifier that ends the name leaves the scan state as it was |
| VpiNames.ScanIdSep | include/verilated_vpi.cpp:2099-2103 | an identifier followed by a separator records that separator and goes on after it |
| VpiNames.JoinSnoc | include/verilated_vpi.cpp:2107-2109 | a path is the path of all but its last identifier, the last separator and the last identifier |
| VpiNames.ScanJoin | include/verilated_vpi.cpp:2088-2105 | scanning a path of identifiers records the position of its last separator and of the one before it; the corrected scan records whether the last separator is "::" |
| VpiNames.SplitPath | include/verilated_vpi.cpp:2107-2116 | corrected: a path of two or more identifiers is split at its last separator, whatever mix of '.' and "::" it uses, into the scope before it ("$unit" renamed) and the last identifier; the TOP ports are searched first exactly when there is one separator |
| VpiNames.SplitSingle | include/verilated_vpi.cpp:2107-2116 | a single identifier, plain or escaped, is all base name |
| VpiNames.SplitDotPath | include/verilated_vpi.cpp:2107-2116 | as written: a path using only '.' is split at its last '.' into the scope and the last identifier |
| VpiNames.ToplevelPath | include/verilated_vpi.cpp:550-563 | a module whose full name is a dot-separated path is toplevel exactly when that path has one identifier |
| VpiNames.PackageThenDotLosesBase | include/verilated_vpi.cpp:2102-2108 | as written: in "p::a.b" the "::" makes the flag stick, so the split after the final '.' skips two characters and the base name is "" rather than "b" |
| VpiIter.Increment | include/verilated_vpi.cpp:533 | the step of a range is +1 or -1 |
| VpiIter.DigitInRange | include/verilated_vpi.cpp:532-539 | an index lies in its range exactly when it is fewer steps from the right bound than the range has elements; one step adds one, and the right bound is 0 steps away |
| VpiIter.ProductPositive | include/verilated_vpi.cpp:206-210 | a product of element counts is at least 1 |
| VpiIter.ProductSplit | include/verilated_vpi.cpp:206-210 | the product over consecutive dimensions splits at any dimension between them |
| VpiIter.SizeIsChunks | include/verilated_vpi.cpp:205-211 | a handle's size is the next dimension's element count times the chunk each of its indices spans, which is at least 1 |
| VpiIter.ComputeSize | include/verilated_vpi.cpp:205-211 | size() multiplies the element counts of the dimensions after the indexed one, stopping at the unpacked/packed boundary |
| VpiIter.WithIndex | include/verilated_vpi.cpp:390-408 | withIndex gives no handle exactly when every dimension is already indexed; otherwise a handle of the same variable with one more indexed dimension and the index appended |
| VpiIter.ComputeChunkSize | include/verilated_vpi.cpp:397-399 | the chunk-size loop multiplies the element counts from the maximum dimension down to the one after the next |
| VpiIter.WithIndexLoop | include/verilated_vpi.cpp:390-408 | withIndex with its loop computes the handle WithIndex describes |
| VpiIter.WithIndexInside | include/verilated_vpi.cpp:401-405 | an index in range selects a chunk inside the handle's data: in bytes for an unpacked dimension, in bits for a packed one |
| VpiIter.WithIndexDistinct | include/verilated_vpi.cpp:401-405 | distinct indices select distinct data starts, or distinct bit offsets for a packed dimension |
| VpiIter.WithIndices | include/verilated_vpi.cpp:529 | indexing with each index of a tuple in turn gives a handle while dimensions remain, with the tuple appended to the indices |
| VpiIter.ValueBelowProduct | include/verilated_vpi.cpp:521-526 | the counter of the indices is below the number of elements exactly when the leading index is still within its range |
| VpiIter.Carry | include/verilated_vpi.cpp:532-539 | the carry loop keeps the number of indices |
| VpiIter.CarryKeepsLater | include/verilated_vpi.cpp:532-539 | the carry leaves the positions after the one it starts at alone |
| VpiIter.CarryAddsOne | include/verilated_vpi.cpp:532-539 | the carry adds one to the counter, as if the dimensions were flattened, and keeps every index but the leading one within its range |
| VpiIter.ZeroValue | include/verilated_vpi.cpp:508 | indices all at their right bound have counter 0 |
| VpiIter.OdometerEnd | include/verilated_vpi.cpp:521-526 | the iterator has tuples left exactly while fewer have been handed out than there are elements |
| VpiIter.OdometerDistinct | include/verilated_vpi.cpp:528-539 | no index tuple is handed out twice |
| VpiIter.OdometerStep | include/verilated_vpi.cpp:528-539 | handing out the current tuple and carrying keeps the iterator's invariant |
| VpiIter.OdometerStart | include/verilated_vpi.cpp:503-509 | the start, every index at its right bound and nothing handed out, satisfies the invariant |
| VpiIter.RegIter.constructor | include/verilated_vpi.cpp:503-509 | the iterator takes the unpacked dimensions after the indexed ones and starts each index at its right bound |
| VpiIter.RegIter.Advance | include/verilated_vpi.cpp:532-539 | the indices become the carried indices |
| VpiIter.RegIter.Scan | include/verilated_vpi.cpp:515-542 | dovpi_scan returns null, releasing the iterator, exactly when no unpacked dimension is left or all elements have been handed out; otherwise the handle of the current index tuple, which is recorded as handed out |

## Left out

- Test scripts (`test_regress/t/*.py`) and the test main (`test_regress/t/t_x_assign.cpp`): they run external programs and compare files, which is process control and I/O.
- The AST framework: tree surgery (`replaceWith`, `unlinkFrBack`, `cloneTree`, `addNextHere`), visitor dispatch, `V3Stats` counters, `UINFO` and messages. Each pass's decisions are modelled over records and node numbers. Messages are modelled as flags or lists only where a property is about them.
- Methods that `src/V3AstNodeDType.h` declares but does not define (`skipRefIterp`, `dimensions`, `cType`, `widthAlignBytes` of basic types): their bodies are not part of this model. The element byte size of an array is a parameter.
- `include/verilatedos.h`: compiler attributes, thread-safety annotations, inline `asm`, platform blocks, `VL_TRUNC`/`VL_ROUND` (floating point), and the clock, environment and OS calls.
- `include/verilated_vpi.cpp`:
  - excluded as memory management and C++ typing: the free-list `operator new`/`delete`, `dynamic_cast` handle resolution, `thread_local` output buffers and `VerilatedAssertOneThread`;
  - `Verilated::threadContextp()`, `scopeFind` and `hierarchyMap` lookups are foreign, so the model starts from the variable or scope they would find;
  - `vpi_mcd_*`, `vpi_printf`, `vpi_flush` and `vpi_control` are I/O and process exit;
  - `vpi_get_time` real time and the `vpiRealVal` paths are floating point;
  - decimal value text uses `sscanf`/`vl_strprintf`, which is libc formatting;
  - value-change detection is `memcmp`/`memcpy` over raw bytes, so it is given as the set of changed callbacks;
  - the callback functions themselves are foreign code, and dispatch records which callbacks are called and in what order;
  - the read-only check of `vpi_put_value` (2742-2748), the inertial queue's copies of the value, and `vpiTimeVal`/`vpiStrengthVal`/`vpiSuppressVal` are outside the word model;
  - in the value arrays, the `VL_FATAL_MT` raised when a read would overflow the `thread_local` output buffer (`VL_VALUE_STRING_MAX_WORDS`, lines 3127-3132 and after) is not modelled, and neither are the format checks of `vl_check_array_format`: elements are their values;
  - the `VLVT_STRING` branches of the `vpiStringVal` get and put (2669-2677, 2859-2861), which copy a `std::string` variable as a whole rather than bit by bit, are not modelled: every variable is a vector of bits;
  - `VerilatedRange` is not part of this model: a range is its left and right bound, with increment +1 when left >= right and -1 otherwise.
- `src/V3DfgOptimizer.cpp`:
  - `process()`/`optimize()` call `V3DfgPasses` (graph building, cycle breaking, `dfgToAst`), which is not part of this model;
  - the expression model has no `VarXRef`, so the `VN_CAST(lhsp, VarRef)` test of line 167 is modelled as the `Ref?` test, which a cross-module reference would also pass;
  - `AssignDly` is folded into `Assign`: both make their right-hand side a candidate root.
- `src/V3Fork.cpp`: `linkNodes`, `populateClass` and `replaceWithMemberSel` build AST through `VMemberMap`.
- `src/V3LinkParse.cpp`: `checkIndent` reads source text and columns, and `cleanFileline` compares object addresses. The `V3Control::apply*` and global option hooks are parameters or left out.
- `src/V3SplitVar.cpp`: the `UASSERT` that the sweep's refcount never goes negative is not modelled. Points are kept as weights and the proofs show the cover they stand for. The creation of the new variables and the rewriting of their references is AST surgery.
- `src/V3Dead.cpp`:
  - the counting walk, the `dpiExportTriggerp` increments (524-527) and the `m_dtypePkgsp` increments (530-532) are summarised by the initial counts and worklists;
  - nodes are numbers, and a node's subtree goes with it: the model records only what later phases look at, namely the unlinked candidates, the top-level statements of each cell's module, and the path from a module's statement down to each of its cells;
  - the type table cache (`clearCache`/`repairCache`), messages and statistics are not modelled.
- `src/VlcTop.cpp`:
  - stream and directory I/O: files are sequences of lines;
  - the floating-point percentage of `annotateCalcNeeded` and the printing of the totals;
  - in `annotateOutputFiles`, a source that cannot be read or an output that cannot be written ends the whole loop (289-297), and two sources with the same base name write the same file; files are given as their text, so every needed source gets its own output;
  - a source file is the sequence of lines `V3Os::getline` returns while `!is.eof()`, so a file ending in a newline gives a last, empty line, which the model takes as part of the given text;
  - the lines a point writes for `opt.annotatePoints()` come from `VlcPoint::dumpAnnotate`, which is not part of this model: they are the parameter pointLines;
  - the internals of `VlcBuckets`/`VlcPoint`/`VlcSource`: buckets are finite sets of point numbers, and `sufficient()` and `countOk` are parameters;
  - `std::sort` is modelled as a stable insertion sort under the same comparison, so tests that compare equal keep their input order, where `std::sort` may order them either way;
  - `atoll` is modelled without `long long` overflow, and the result's conversion to `uint64_t` wraps modulo 2^64;
  - `std::atoi` in the `linescov` parser of `annotateCalc` (242-243) is modelled without `int` overflow: a digit run reads as its exact decimal value, where a run beyond 2^31-1 is undefined behaviour in C;
  - `remaining.orData(...)` (src/VlcTop.cpp:201) is modelled as removing the picked test's points from the set of remaining points; the `VlcBuckets` code is not part of this model.
- Expand.RedAndWordsMeaning: the meaning (true iff every bit below widthMin is set) is stated only when widthMin ends in the value's top word (`WordsI(widthMin) == WordsI(width)`), which is the case for every node whose minimum width the width pass left consistent.
- Expand.WordizeRedAnd: its meaning (true iff every bit below widthMin is set) carries the same premise `WordsI(widthMin) == WordsI(width)`. When widthMin ends in a lower word, only the top word is masked, so the result also depends on bits above widthMin. The lowering itself is modelled for every widthMin.
- DTypes.NodeDType.WidthBroken: `v3Global.widthMinUsage()` (src/V3Global.h) is not part of this model; whether it is `VWidthMinUsage::VERILOG_WIDTH` is the parameter verilogWidth.
- Fork.ForkCaptures.EnterModule: the restore of `m_id` when the module visit returns (`VL_RESTORER(m_id)`, src/V3Fork.cpp:683) is not modelled, so after a nested module visit the task ids of the enclosing module are not put back. Names stay distinct within each module visit.
- Fork.DynScopeTable.EnterModule: the model has no `m_modp`, so the rule that a class does not replace it (src/V3Fork.cpp:362) is not modelled. `m_modp` is used only by `linkNodes`, which is left out above; every module visit, a class's included, restarts the frame ids as the source's `m_id = 0` does.
- VpiCallbacks.Scheduler.CallCbs: the callbacks are modelled as not re-entering the scheduler during a pass. Removal during a pass is covered separately by RemoveInPass and CallStep.

## Findings

| source | as written | input that shows it | evidently intended | confidence | as-written member | corrected member |
|---|---|---|---|---|---|---|
| include/verilated_vpi.cpp:2792-2806 | `vpiOctStrVal` put writes one 3-bit group per character of the text, whatever the variable's width, so a text longer than ceil(varBits/3) reaches an offset at or past varBits and the assertion at line 2482 fails | the text "017" put into a 4-bit variable (the third character is at offset 6 > 4) | write at most ceil(varBits/3) groups, from the least significant character | not executed | VpiValue.OctOverlongFails | VpiValue.OctFixedRoundTrip |
| include/verilated_vpi.cpp:2873 | `vpiIntVal` put calls `vl_vpi_put_word` with a bit count of 64; for a wide variable (32-bit words) with more than 32 bits the clamped count stays above 32 and the assertion `bitCount <= wordBits` at line 2489 fails | any int put into a 40-bit `VLVT_WDATA` variable | write the 32-bit integer, sign-extended, word by word | not executed | VpiNumber.IntWideFails | VpiNumber.IntRoundTrip |
| include/verilated_vpi.cpp:1663-1664 | `strFromVpiProp` guards only the upper end of its table; a code below `vpiUndefined` indexes before the array | `strFromVpiProp(-2)` | return the name at index 0 for a negative code, as the `vpiVal < 0` guard of the other lookups (lines 1243, 1579, 1680) does | not executed | VpiStrings.PropNegativeReadsOutside | VpiStrings.StrFromVpiProp |
| include/verilated_vpi.cpp:2007-2013 | the `cbNextSimTime` handle is created with time 0, while `cbNextAdd` keys the entry by the current time; `vpi_remove_cb` searches by the handle's (time, id), so it misses the entry whenever the current time is not 0 | register `cbNextSimTime` at time 5, then remove it | give the handle the time the entry is keyed by | not executed | VpiCallbacks.NextSimTimeRemoveMisses | VpiCallbacks.RemoveAfterRegister |
| include/verilated_vpi.cpp:2102-2108 | `isPackage` is set by any "::" separator and never cleared, so a later '.' separator still skips two characters and the base name loses its first character | "p::a.b" yields the base name "" instead of "b" | skip the length of the last separator only | not executed | VpiNames.PackageThenDotLosesBase | VpiNames.SplitPath |
| src/VlcTop.cpp:48-56 | a 'C' line shorter than 3 characters makes `substr(3)` throw; a 'C' line without "' " after index 3 makes `atoll` read past the string's end | the lines "C" and "C 'abc" | ignore point lines too short or without the closing "' " | not executed | VlcRead.ShortPointLineThrows | VlcRead.CheckedAgrees |
