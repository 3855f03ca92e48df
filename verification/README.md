# Copy abstract value kinds

This project models the kind tag of the copy/alias dataflow analysis. A copy
abstract value groups analysis entities (variables, fields, array slots) that
are proven to hold the same reference or the same value. Its kind says which
claim it makes:

- `NotApplicable`
- `KnownReferenceCopy`
- `KnownValueCopy`
- `Unknown`
- `Invalid`, which marks a path that predicate analysis found unreachable.

Two helpers work on the kind:

- `IsKnown` picks out the two kinds that make a positive claim.
- `MergeIfBothKnown` combines two known kinds. It keeps a reference copy only
  when both sides are reference copies, and otherwise gives a value copy. When
  either operand is not known, it returns the first operand unchanged.

The merge is deliberately asymmetric, and the model keeps that exactly.

Files:

- `copy_abstract_value_kind.dfy`, module `CopyAbstractValueKinds`: the enum as
  a datatype with five nullary constructors, and the two helpers as top-level
  functions.
- `copy_kind_lattice.dfy`, module `CopyKindLattice`: properties of the merge.
  - `Entails` is an independent order on claim strength: a reference copy
    entails a value copy. The merge of two known kinds is the strongest claim
    that both operands entail.
  - Idempotence; commutativity and associativity on known kinds; witnesses
    that both laws fail once a not-known kind takes part.
  - `MergeAll` is a left fold of `MergeIfBothKnown` over a sequence of kinds.
    It is a derived definition with no counterpart in the modelled file, used
    to state what repeated merges do.

## Model

| member | source | states |
|---|---|---|
| `CopyAbstractValueKinds.IsKnown` | src/Utilities/FlowAnalysis/Analysis/CopyAnalysis/CopyAbstractValueKind.cs:38-49 | true exactly for `KnownValueCopy` and `KnownReferenceCopy`; false exactly for `NotApplicable`, `Unknown` and `Invalid` |
| `CopyAbstractValueKinds.MergeIfBothKnown` | src/Utilities/FlowAnalysis/Analysis/CopyAnalysis/CopyAbstractValueKind.cs:51-63 | if either operand is not known, the result is the first operand. If both are known, the result is known. It is `KnownValueCopy` iff either operand is one, and `KnownReferenceCopy` iff both are. The result is always the first operand or `KnownValueCopy` |
| `CopyKindLattice.EntailsIsPartialOrder` | src/Utilities/FlowAnalysis/Analysis/CopyAnalysis/CopyAbstractValueKind.cs:15-23 | claim entailment on known kinds is reflexive, antisymmetric and transitive. A reference copy is the strongest claim and a value copy the weakest |
| `CopyKindLattice.MergeIsStrongestCommonClaim` | src/Utilities/FlowAnalysis/Analysis/CopyAnalysis/CopyAbstractValueKind.cs:59-62 | for two known operands, each operand entails the merge. A claim is entailed by both operands iff it is entailed by the merge, so the merge is their greatest lower bound in claim strength |
| `CopyKindLattice.MergeIdempotent` | src/Utilities/FlowAnalysis/Analysis/CopyAnalysis/CopyAbstractValueKind.cs:53-62 | merging any of the five kinds with itself returns it |
| `CopyKindLattice.MergeCommutativeAssociativeOnKnown` | src/Utilities/FlowAnalysis/Analysis/CopyAnalysis/CopyAbstractValueKind.cs:59-62 | restricted to known kinds, the merge is commutative and associative |
| `CopyKindLattice.MergeNotCommutativeNorAssociative` | src/Utilities/FlowAnalysis/Analysis/CopyAnalysis/CopyAbstractValueKind.cs:53-57 | over all kinds, the merge is not commutative: (`KnownReferenceCopy`, `Unknown`) gives `KnownReferenceCopy`, and the swapped pair gives `Unknown`. Nor is it associative: grouping `KnownReferenceCopy`, `Unknown`, `KnownValueCopy` differently gives `KnownValueCopy` or `KnownReferenceCopy` |
| `CopyKindLattice.MergeAll` | src/Utilities/FlowAnalysis/Analysis/CopyAnalysis/CopyAbstractValueKind.cs:51-63 | repeated merging never invents a tag. The result is the starting kind or `KnownValueCopy` |
| `CopyKindLattice.MergeAllFromNotKnown` | src/Utilities/FlowAnalysis/Analysis/CopyAnalysis/CopyAbstractValueKind.cs:53-57 | a not-known starting kind survives any number of further merges unchanged |
| `CopyKindLattice.MergeAllOfKnown` | src/Utilities/FlowAnalysis/Analysis/CopyAnalysis/CopyAbstractValueKind.cs:59-62 | when all merged kinds are known, the result is known. It is `KnownValueCopy` iff some merged kind is `KnownValueCopy` |
| `CopyKindLattice.MergeAllSkipsNotKnown` | src/Utilities/FlowAnalysis/Analysis/CopyAnalysis/CopyAbstractValueKind.cs:53-56 | a not-known kind after the starting one has no effect: removing it from the sequence leaves the result unchanged |

## Left out

- `CopyAbstractValue` (the kind together with its set of entities), `AnalysisEntity`, the per-program-point analysis state, the transfer functions, the fixed-point driver and the predicate analysis are not part of this model. They belong to other parts of the analysis; this model covers only the kind enum and its two helpers.
- C# extension-method syntax, `internal` visibility and the enum's underlying integer values are surface details. The kinds are plain datatype constructors and the helpers are top-level functions.
- MergeAll: is not the analysis's join over several incoming paths. Callers deal with a not-known operand before merging, typically by demoting the merged value to `Unknown`, and that caller logic is not part of this model. The fold only states what repeated calls of `MergeIfBothKnown` do.
