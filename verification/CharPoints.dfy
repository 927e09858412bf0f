/** Sets of code points as lists of points, p0 <= p1 <= ..., standing for the union of the
    intervals [p0, p1), [p2, p3), ... */
module CharPoints {

  predicate Rising(s: seq<nat>) {
    forall i, j :: 0 <= i < j < |s| ==> s[i] <= s[j]
  }

  /** The canonical form: no interval is empty or touches the next one. */
  predicate Strict(s: seq<nat>) {
    forall i, j :: 0 <= i < j < |s| ==> s[i] < s[j]
  }

  predicate Even(s: seq<nat>) {
    |s| % 2 == 0
  }

  predicate Ranges(s: seq<nat>) {
    Rising(s) && Even(s)
  }

  predicate Canonical(s: seq<nat>) {
    Strict(s) && Even(s)
  }

  /** The set that a list stands for. */
  predicate Contains(s: seq<nat>, c: nat) {
    exists i :: 0 <= i < |s| - 1 && i % 2 == 0 && s[i] <= c < s[i + 1]
  }
}
