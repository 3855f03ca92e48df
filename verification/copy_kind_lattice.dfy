/** Algebraic properties of `MergeIfBothKnown`: how it relates to the strength
    of the copy claims, which laws it obeys on known kinds, which it breaks on
    the rest, and what a left fold of the merge over a sequence of kinds
    produces.
 */
module CopyKindLattice {
  import opened CopyAbstractValueKinds

  /** Claim `a` guarantees claim `b`. Only known kinds make a claim; sharing a
      reference implies sharing a value, not the other way round. This is an
      independent reading of the two known kinds, used as the reference
      definition for the merge. */
  predicate Entails(a: CopyAbstractValueKind, b: CopyAbstractValueKind)
  {
    IsKnown(a) && IsKnown(b) && (a == b || (a == KnownReferenceCopy && b == KnownValueCopy))
  }

  /** On the known kinds, `Entails` is a partial order in which a reference
      copy is the strongest claim and a value copy the weakest. */
  lemma EntailsIsPartialOrder(a: CopyAbstractValueKind, b: CopyAbstractValueKind, c: CopyAbstractValueKind)
    ensures IsKnown(a) ==> Entails(a, a)
    ensures Entails(a, b) && Entails(b, a) ==> a == b
    ensures Entails(a, b) && Entails(b, c) ==> Entails(a, c)
    ensures IsKnown(a) ==> Entails(KnownReferenceCopy, a) && Entails(a, KnownValueCopy)
  {
  }

  /** Merging two known kinds yields exactly the strongest claim that both
      operands guarantee: the result is entailed by each operand, and every
      claim entailed by both operands is entailed by the result. */
  lemma MergeIsStrongestCommonClaim(a: CopyAbstractValueKind, b: CopyAbstractValueKind, c: CopyAbstractValueKind)
    requires IsKnown(a) && IsKnown(b)
    ensures Entails(a, MergeIfBothKnown(a, b)) && Entails(b, MergeIfBothKnown(a, b))
    ensures Entails(a, c) && Entails(b, c) <==> Entails(MergeIfBothKnown(a, b), c)
  {
  }

  /** Merging any kind with itself returns it. */
  lemma MergeIdempotent(k: CopyAbstractValueKind)
    ensures MergeIfBothKnown(k, k) == k
  {
  }

  /** On known kinds the merge is commutative and associative. */
  lemma MergeCommutativeAssociativeOnKnown(a: CopyAbstractValueKind, b: CopyAbstractValueKind, c: CopyAbstractValueKind)
    requires IsKnown(a) && IsKnown(b) && IsKnown(c)
    ensures MergeIfBothKnown(a, b) == MergeIfBothKnown(b, a)
    ensures MergeIfBothKnown(MergeIfBothKnown(a, b), c) == MergeIfBothKnown(a, MergeIfBothKnown(b, c))
  {
  }

  /** Over all five kinds the merge is neither commutative nor associative:
      a not-known second operand is ignored, a not-known first one is kept. */
  lemma MergeNotCommutativeNorAssociative()
    ensures MergeIfBothKnown(KnownReferenceCopy, Unknown) == KnownReferenceCopy
    ensures MergeIfBothKnown(Unknown, KnownReferenceCopy) == Unknown
    ensures MergeIfBothKnown(MergeIfBothKnown(KnownReferenceCopy, Unknown), KnownValueCopy) == KnownValueCopy
    ensures MergeIfBothKnown(KnownReferenceCopy, MergeIfBothKnown(Unknown, KnownValueCopy)) == KnownReferenceCopy
  {
  }

  /** Left fold of `MergeIfBothKnown` over `kinds`, starting from `kind`.
      This is a derived definition for reasoning about repeated merges; it is
      not the analysis's join, whose callers deal with not-known operands
      before merging. */
  function MergeAll(kind: CopyAbstractValueKind, kinds: seq<CopyAbstractValueKind>): (r: CopyAbstractValueKind)
    ensures r == kind || r == KnownValueCopy
    decreases |kinds|
  {
    if kinds == [] then kind else MergeAll(MergeIfBothKnown(kind, kinds[0]), kinds[1..])
  }

  /** A not-known starting kind is never changed by further merges. */
  lemma {:induction false} MergeAllFromNotKnown(kind: CopyAbstractValueKind, kinds: seq<CopyAbstractValueKind>)
    requires !IsKnown(kind)
    ensures MergeAll(kind, kinds) == kind
    decreases |kinds|
  {
    if kinds != [] {
      MergeAllFromNotKnown(kind, kinds[1..]);
    }
  }

  /** When every kind is known the result is known, and it is a value copy
      exactly when some kind in the merge is a value copy. */
  lemma {:induction false} MergeAllOfKnown(kind: CopyAbstractValueKind, kinds: seq<CopyAbstractValueKind>)
    requires IsKnown(kind)
    requires forall i :: 0 <= i < |kinds| ==> IsKnown(kinds[i])
    ensures IsKnown(MergeAll(kind, kinds))
    ensures MergeAll(kind, kinds) == KnownValueCopy <==> kind == KnownValueCopy || KnownValueCopy in kinds
    decreases |kinds|
  {
    if kinds != [] {
      MergeAllOfKnown(MergeIfBothKnown(kind, kinds[0]), kinds[1..]);
      assert kinds == [kinds[0]] + kinds[1..];
    }
  }

  /** A not-known kind in the folded sequence is skipped: dropping the one at
      position `i` leaves the result unchanged. */
  lemma {:induction false} MergeAllSkipsNotKnown(kind: CopyAbstractValueKind, kinds: seq<CopyAbstractValueKind>, i: nat)
    requires i < |kinds| && !IsKnown(kinds[i])
    ensures MergeAll(kind, kinds[..i] + kinds[i + 1..]) == MergeAll(kind, kinds)
    decreases i
  {
    var rest := kinds[..i] + kinds[i + 1..];
    if i == 0 {
      assert rest == kinds[1..];
    } else {
      MergeAllSkipsNotKnown(MergeIfBothKnown(kind, kinds[0]), kinds[1..], i - 1);
      assert rest[0] == kinds[0];
      assert rest[1..] == kinds[1..][..i - 1] + kinds[1..][i..];
    }
  }
}
