/** The kind tag of a copy abstract value in the copy/alias dataflow analysis:
    a datatype with five constructors, the predicate `IsKnown` and the
    function `MergeIfBothKnown`.
 */
module CopyAbstractValueKinds {

  /** What a copy abstract value asserts about the entities it groups. */
  datatype CopyAbstractValueKind =
    | NotApplicable       // no copy information is tracked
    | KnownReferenceCopy  // the entities share one reference
    | KnownValueCopy      // the entities share one value
    | Unknown             // the copy may or may not be shared
    | Invalid             // an unreachable path, as found by predicate analysis

  /** True only for the two kinds that carry a positive copy claim. */
  predicate IsKnown(kind: CopyAbstractValueKind): (b: bool)
    ensures b <==> kind.KnownValueCopy? || kind.KnownReferenceCopy?
    ensures !b <==> kind == NotApplicable || kind == Unknown || kind == Invalid
  {
    match kind
    case KnownValueCopy => true
    case KnownReferenceCopy => true
    case _ => false
  }

  /** Combines two kinds when both are known; otherwise hands back the first
      operand unchanged and ignores the second. A reference copy survives
      only when both sides are reference copies. */
  function MergeIfBothKnown(kind: CopyAbstractValueKind, kindToMerge: CopyAbstractValueKind): (r: CopyAbstractValueKind)
    // the not-known case: the first operand passes through
    ensures !IsKnown(kind) || !IsKnown(kindToMerge) ==> r == kind
    // the known case: known result, value copy exactly when either side is one
    ensures IsKnown(kind) && IsKnown(kindToMerge) ==> IsKnown(r)
    ensures IsKnown(kind) && IsKnown(kindToMerge) ==>
              (r == KnownValueCopy <==> kind == KnownValueCopy || kindToMerge == KnownValueCopy)
    ensures IsKnown(kind) && IsKnown(kindToMerge) ==>
              (r == KnownReferenceCopy <==> kind == KnownReferenceCopy && kindToMerge == KnownReferenceCopy)
    // no tag is invented
    ensures r == kind || r == KnownValueCopy
  {
    if !IsKnown(kind) || !IsKnown(kindToMerge) then
      kind
    else if kind == KnownValueCopy || kindToMerge == KnownValueCopy then
      KnownValueCopy
    else
      KnownReferenceCopy
  }
}
