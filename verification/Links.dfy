/** Linked lists whose pointers are indices, as the sequence of what following the links visits. */
module Links {
  const NULL: int := -1

  /** The pointer to place i of a list, null at its end. */
  function At(chain: seq<nat>, i: nat): int { if i < |chain| then chain[i] else NULL }

  predicate Distinct(chain: seq<nat>) {
    forall i, j :: 0 <= i < j < |chain| ==> chain[i] != chain[j]
  }
}
