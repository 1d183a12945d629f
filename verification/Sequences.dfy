/** Sequence notions that several modules share. */
module Sequences {
  /** No element is there twice. */
  ghost predicate Distinct<T>(s: seq<T>) {
    forall i, j :: 0 <= i < j < |s| ==> s[i] != s[j]
  }

  /** All parts one after another. */
  function Flatten<T>(parts: seq<seq<T>>): seq<T> {
    if parts == [] then [] else Flatten(parts[..|parts| - 1]) + parts[|parts| - 1]
  }

  /** The same from the front. */
  lemma {:induction false} FlattenCons<T>(parts: seq<seq<T>>)
    requires parts != []
    ensures Flatten(parts) == parts[0] + Flatten(parts[1..])
    decreases |parts|
  {
    if |parts| > 1 {
      var n := |parts| - 1;
      FlattenCons(parts[..n]);
      assert parts[..n][1..] == parts[1..][..n - 1];
      assert parts[0] + (Flatten(parts[1..][..n - 1]) + parts[n]) == parts[0] + Flatten(parts[1..][..n - 1]) + parts[n];
    }
  }
}
