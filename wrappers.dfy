/** Definitions shared by the three components: the optional result that
    stands for Python's `None` beside a real value, and a few small facts
    about integers and sets. */
module Wrappers {

  datatype Option<+T> = None | Some(value: T)

  /** Python's built-in max and min on two integers. */
  function Max(x: int, y: int): int { if x < y then y else x }
  function Min(x: int, y: int): int { if x < y then x else y }

  /** A subset is no larger than its superset. */
  lemma SubsetCard<T>(a: set<T>, b: set<T>)
    requires a <= b
    ensures |a| <= |b|
  {
    assert b == a + (b - a);
  }
}
