/** Finite pools under a strict partial order: undominated members always exist. */
module PartialOrder {

  ghost predicate StrictOrderOn<T(!new)>(pool: set<T>, beats: (T, T) -> bool) {
    && (forall x | x in pool :: !beats(x, x))
    && (forall x, y, z | x in pool && y in pool && z in pool :: beats(x, y) && beats(y, z) ==> beats(x, z))
  }

  ghost predicate Undominated<T(!new)>(pool: set<T>, beats: (T, T) -> bool, x: T) {
    x in pool && forall y | y in pool :: !beats(y, x)
  }

  /** Every member is undominated or is beaten by an undominated member. */
  lemma {:induction false} DominatedBySurvivor<T(!new)>(pool: set<T>, beats: (T, T) -> bool, x: T) returns (survivor: T)
    requires StrictOrderOn(pool, beats) && x in pool
    ensures Undominated(pool, beats, survivor)
    ensures survivor == x || beats(survivor, x)
    decreases set y | y in pool && beats(y, x)
  {
    if Undominated(pool, beats, x) {
      survivor := x;
    } else {
      var y :| y in pool && beats(y, x);
      var above := set z | z in pool && beats(z, y);
      var here := set z | z in pool && beats(z, x);
      assert y in here && y !in above;
      assert above < here;
      survivor := DominatedBySurvivor(pool, beats, y);
    }
  }
}
