/**
 The theory behind the Knuth-Morris-Pratt matcher: borders, failure tables and the scan they drive.
 Everything here is about plain sequences, so it serves both the case-sensitive matcher and the
 case-folding one, which runs on folded bytes with a table built from the unfolded pattern.
 */
module Borders {

  /** The first k elements of p are the last k elements of t[..i]. */
  ghost predicate SuffixMatch<T>(p: seq<T>, t: seq<T>, i: nat, k: nat) {
    k <= |p| && k <= i <= |t| && p[..k] == t[i - k..i]
  }

  /** k is the length of a proper border of p[..n]. */
  ghost predicate IsBorder<T>(p: seq<T>, n: nat, k: nat) {
    k < n && SuffixMatch(p, p, n, k)
  }

  /** p occurs in t at index s. */
  ghost predicate OccursAt<T>(p: seq<T>, t: seq<T>, s: int) {
    0 <= s && s + |p| <= |t| && t[s..s + |p|] == p
  }

  /** r is the smallest index at which p occurs in t, or -1 when p does not occur. */
  ghost predicate IsFirstOccurrence<T>(p: seq<T>, t: seq<T>, r: int) {
    (r == -1 || OccursAt(p, t, r)) &&
    forall s :: OccursAt(p, t, s) ==> 0 <= r <= s
  }

  /** b is the length of the longest proper border of p[..n]. */
  ghost predicate IsLongestBorder<T>(p: seq<T>, n: nat, b: nat) {
    IsBorder(p, n, b) && forall k: nat :: IsBorder(p, n, k) ==> k <= b
  }

  /** Every entry is the length of some proper border. */
  ghost predicate SoundTable<T>(p: seq<T>, table: seq<nat>) {
    |table| == |p| && forall j :: 0 <= j < |p| ==> IsBorder(p, j + 1, table[j])
  }

  /** Every entry is the length of the longest proper border. */
  ghost predicate ExactTable<T>(p: seq<T>, table: seq<nat>) {
    SoundTable(p, table) && forall j :: 0 <= j < |p| ==> IsLongestBorder(p, j + 1, table[j])
  }

  /** The failure loop: fall back through the table until c extends the match or nothing is left. */
  function Fall<T(==)>(p: seq<T>, table: seq<nat>, q: nat, c: T): (r: nat)
    requires SoundTable(p, table) && q < |p|
    ensures r <= q
    ensures r > 0 ==> p[r] == c
  {
    if q > 0 && p[q] != c then
      assert IsBorder(p, q - 1 + 1, table[q - 1]);
      Fall(p, table, table[q - 1], c)
    else q
  }

  /** Every entry is at most its index, as in any sound table and any part of one: falling back gets somewhere. */
  ghost predicate Descending(table: seq<nat>) {
    forall j :: 0 <= j < |table| ==> table[j] <= j
  }

  lemma SoundDescends<T>(p: seq<T>, table: seq<nat>)
    requires SoundTable(p, table)
    ensures Descending(table)
  {
    forall j | 0 <= j < |table| ensures table[j] <= j {
      assert IsBorder(p, j + 1, table[j]);
    }
  }

  /** How many times the failure loop runs. */
  ghost function FallCount<T>(p: seq<T>, table: seq<nat>, q: nat, c: T): nat
    requires Descending(table) && q <= |table| && q < |p|
    decreases q
  {
    if q > 0 && p[q] != c then 1 + FallCount(p, table, table[q - 1], c) else 0
  }

  /** Failure-loop iterations of building a table: each entry is found by falling back through those before it. */
  ghost function BuildFalls<T>(p: seq<T>, table: seq<nat>): nat
    requires Descending(table) && |table| <= |p|
    decreases |table|
  {
    if |table| <= 1 then 0
    else
      var n := |table| - 1;
      BuildFalls(p, table[..n]) + FallCount(p, table[..n], table[n - 1], p[n])
  }

  /** The matcher's state after reading c in state q. */
  function Step<T(==)>(p: seq<T>, table: seq<nat>, q: nat, c: T): (r: nat)
    requires SoundTable(p, table) && q < |p|
    ensures r <= q + 1
  {
    var f := Fall(p, table, q, c);
    if p[f] == c then f + 1 else f
  }

  /** The matcher: read t from index i in state q, stop at the first full match. */
  function Scan<T(==)>(p: seq<T>, table: seq<nat>, t: seq<T>, i: nat, q: nat): int
    requires SoundTable(p, table) && q < |p| && i <= |t|
    decreases |t| - i
  {
    if i == |t| then -1
    else
      var q' := Step(p, table, q, t[i]);
      if q' == |p| then i + 1 - |p| else Scan(p, table, t, i + 1, q')
  }

  /** Failure-loop iterations over the whole scan. */
  ghost function ScanFalls<T>(p: seq<T>, table: seq<nat>, t: seq<T>, i: nat, q: nat): nat
    requires SoundTable(p, table) && q < |p| && i <= |t|
    decreases |t| - i
  {
    SoundDescends(p, table);
    if i == |t| then 0
    else
      var q' := Step(p, table, q, t[i]);
      FallCount(p, table, q, t[i]) +
      if q' == |p| then 0 else ScanFalls(p, table, t, i + 1, q')
  }

  // ----- one step -----

  /** A suffix match of a suffix match is one. */
  lemma SuffixOfSuffix<T>(p: seq<T>, t: seq<T>, i: nat, q: nat, k: nat)
    requires SuffixMatch(p, t, i, q) && k <= q
    ensures SuffixMatch(p, t, i, k) <==> SuffixMatch(p, p, q, k)
  {
  }

  /** A match of length k + 1 is a match of length k followed by the next element. */
  lemma SuffixExtend<T>(p: seq<T>, t: seq<T>, i: nat, k: nat)
    requires k < |p| && k <= i < |t|
    ensures SuffixMatch(p, t, i + 1, k + 1) <==> SuffixMatch(p, t, i, k) && p[k] == t[i]
  {
    assert p[..k + 1] == p[..k] + [p[k]];
    assert t[i - k..i + 1] == t[i - k..i] + [t[i]];
    if SuffixMatch(p, t, i + 1, k + 1) {
      assert t[i + 1 - (k + 1)..i + 1] == t[i - k..i] + [t[i]];
      assert (p[..k] + [p[k]])[k] == (t[i - k..i] + [t[i]])[k];
      assert (p[..k] + [p[k]])[..k] == (t[i - k..i] + [t[i]])[..k];
    }
  }

  /** Falling back keeps a match, and with an exact table it skips no match that c would extend. */
  lemma {:induction false} FallKeeps<T>(p: seq<T>, table: seq<nat>, t: seq<T>, i: nat, q: nat, c: T)
    requires SoundTable(p, table) && q < |p| && SuffixMatch(p, t, i, q)
    ensures SuffixMatch(p, t, i, Fall(p, table, q, c))
    ensures ExactTable(p, table) ==>
              forall k: nat :: k <= q && SuffixMatch(p, t, i, k) && p[k] == c ==> k <= Fall(p, table, q, c)
    decreases q
  {
    if q > 0 && p[q] != c {
      var b := table[q - 1];
      assert IsBorder(p, q - 1 + 1, b);
      SuffixOfSuffix(p, t, i, q, b);
      FallKeeps(p, table, t, i, b, c);
      forall k: nat | ExactTable(p, table) && k <= q && SuffixMatch(p, t, i, k) && p[k] == c
        ensures k <= Fall(p, table, q, c)
      {
        SuffixOfSuffix(p, t, i, q, k);
        assert IsLongestBorder(p, q - 1 + 1, b);
        assert IsBorder(p, q - 1 + 1, k);
      }
    }
  }

  /** With a sound table the state is always the length of a match. */
  lemma StepSound<T>(p: seq<T>, table: seq<nat>, t: seq<T>, i: nat, q: nat)
    requires SoundTable(p, table) && q < |p| && i < |t| && SuffixMatch(p, t, i, q)
    ensures SuffixMatch(p, t, i + 1, Step(p, table, q, t[i]))
  {
    FallKeeps(p, table, t, i, q, t[i]);
    SuffixExtend(p, t, i, Fall(p, table, q, t[i]));
  }

  /** q is the length of the longest prefix of p that ends at t[..i]. */
  ghost predicate LongestMatch<T>(p: seq<T>, t: seq<T>, i: nat, q: nat) {
    SuffixMatch(p, t, i, q) && forall k: nat :: SuffixMatch(p, t, i, k) ==> k <= q
  }

  /** With an exact table the state is always the length of the longest match. */
  lemma StepExact<T>(p: seq<T>, table: seq<nat>, t: seq<T>, i: nat, q: nat)
    requires ExactTable(p, table) && q < |p| && i < |t| && LongestMatch(p, t, i, q)
    ensures LongestMatch(p, t, i + 1, Step(p, table, q, t[i]))
  {
    StepSound(p, table, t, i, q);
    FallKeeps(p, table, t, i, q, t[i]);
    var n := i + 1;
    forall k: nat | SuffixMatch(p, t, n, k) ensures k <= Step(p, table, q, t[i]) {
      if k > 0 {
        SuffixExtend(p, t, i, k - 1);
      }
    }
  }

  // ----- the whole scan -----

  /** An occurrence is a full match ending |p| later. */
  lemma OccurrenceIsMatch<T>(p: seq<T>, t: seq<T>, s: nat)
    requires s + |p| <= |t|
    ensures OccursAt(p, t, s) <==> SuffixMatch(p, t, s + |p|, |p|)
  {
  }

  lemma FullMatch<T>(p: seq<T>, t: seq<T>, i: nat)
    requires SuffixMatch(p, t, i, |p|)
    ensures |p| <= i && OccursAt(p, t, i - |p|)
  {
  }

  /** No occurrence ends at or before i. */
  ghost predicate NoneEndsBy<T>(p: seq<T>, t: seq<T>, i: nat) {
    forall s :: OccursAt(p, t, s) ==> i < s + |p|
  }

  lemma NoneEndsByNext<T>(p: seq<T>, t: seq<T>, i: nat, q: nat)
    requires NoneEndsBy(p, t, i) && LongestMatch(p, t, i + 1, q) && q < |p|
    ensures NoneEndsBy(p, t, i + 1)
  {
    forall s | OccursAt(p, t, s) ensures i + 1 < s + |p| {
      OccurrenceIsMatch(p, t, s);
    }
  }

  lemma FirstFullMatch<T>(p: seq<T>, t: seq<T>, i: nat)
    requires NoneEndsBy(p, t, i) && SuffixMatch(p, t, i + 1, |p|)
    ensures IsFirstOccurrence(p, t, i + 1 - |p|)
  {
  }

  /** With a sound table, whatever index the scan reports is an occurrence. */
  lemma {:induction false} ScanSound<T>(p: seq<T>, table: seq<nat>, t: seq<T>, i: nat, q: nat)
    requires SoundTable(p, table) && q < |p| && i <= |t| && SuffixMatch(p, t, i, q)
    ensures var r := Scan(p, table, t, i, q); r == -1 || OccursAt(p, t, r)
    decreases |t| - i
  {
    hide SoundTable, SuffixMatch, OccursAt, Step;
    if i < |t| {
      StepSound(p, table, t, i, q);
      var q' := Step(p, table, q, t[i]);
      if q' == |p| {
        FullMatch(p, t, i + 1);
      } else {
        ScanSound(p, table, t, i + 1, q');
      }
    }
  }

  /** With an exact table the scan reports the first occurrence ending after i, and -1 only when there is none. */
  lemma {:induction false} ScanExact<T>(p: seq<T>, table: seq<nat>, t: seq<T>, i: nat, q: nat)
    requires ExactTable(p, table) && q < |p| && i <= |t| && LongestMatch(p, t, i, q)
    requires NoneEndsBy(p, t, i)
    ensures IsFirstOccurrence(p, t, Scan(p, table, t, i, q))
    decreases |t| - i
  {
    assert i == |t| ==> IsFirstOccurrence(p, t, -1);
    hide SoundTable, SuffixMatch, OccursAt, Step, IsFirstOccurrence, NoneEndsBy, IsLongestBorder;
    if i < |t| {
      StepExact(p, table, t, i, q);
      var q' := Step(p, table, q, t[i]);
      if q' == |p| {
        FirstFullMatch(p, t, i);
      } else {
        NoneEndsByNext(p, t, i, q');
        ScanExact(p, table, t, i + 1, q');
      }
    }
  }

  /** The whole scan of a text, from the empty match. */
  lemma ScanFindsFirst<T>(p: seq<T>, table: seq<nat>, t: seq<T>)
    requires p != [] && ExactTable(p, table)
    ensures IsFirstOccurrence(p, t, Scan(p, table, t, 0, 0))
  {
    ScanExact(p, table, t, 0, 0);
  }

  /** Each fallback loses at least one matched element: the potential argument for one step. */
  lemma {:induction false} FallCountBound<T>(p: seq<T>, table: seq<nat>, q: nat, c: T)
    requires SoundTable(p, table) && q < |p|
    ensures Descending(table) && FallCount(p, table, q, c) + Fall(p, table, q, c) <= q
    decreases q
  {
    SoundDescends(p, table);
    if q > 0 && p[q] != c {
      assert IsBorder(p, q - 1 + 1, table[q - 1]);
      FallCountBound(p, table, table[q - 1], c);
    }
  }

  /** All fallbacks of a scan together are no more than the elements read plus the initial match. */
  lemma {:induction false} ScanLinear<T>(p: seq<T>, table: seq<nat>, t: seq<T>, i: nat, q: nat)
    requires SoundTable(p, table) && q < |p| && i <= |t|
    ensures ScanFalls(p, table, t, i, q) <= |t| - i + q
    decreases |t| - i
  {
    if i < |t| {
      FallCountBound(p, table, q, t[i]);
      var q' := Step(p, table, q, t[i]);
      if q' != |p| {
        ScanLinear(p, table, t, i + 1, q');
      }
    }
  }

  // ----- scanning with a table that is sound but not exact -----

  /** The two tables drive the matcher identically on every element of the pattern. */
  ghost predicate StepsAgree<T>(p: seq<T>, table: seq<nat>, best: seq<nat>)
    requires SoundTable(p, table) && SoundTable(p, best)
  {
    forall q, x :: 0 <= q < |p| && 0 <= x < |p| ==> Step(p, table, q, p[x]) == Step(p, best, q, p[x])
  }

  /** Elements foreign to the pattern reset the state under any sound table. */
  lemma {:induction false} StepForeign<T>(p: seq<T>, table: seq<nat>, q: nat, c: T)
    requires SoundTable(p, table) && q < |p| && c !in p
    ensures Step(p, table, q, c) == 0
    decreases q
  {
  }

  /** Tables that agree step by step give the same scans. */
  lemma {:induction false} AgreeingScans<T>(p: seq<T>, table: seq<nat>, best: seq<nat>, t: seq<T>, i: nat, q: nat)
    requires SoundTable(p, table) && SoundTable(p, best) && q < |p| && i <= |t|
    requires StepsAgree(p, table, best)
    ensures Scan(p, table, t, i, q) == Scan(p, best, t, i, q)
    decreases |t| - i
  {
    if i < |t| {
      if t[i] in p {
        var x :| 0 <= x < |p| && p[x] == t[i];
        assert Step(p, table, q, p[x]) == Step(p, best, q, p[x]);
      } else {
        StepForeign(p, table, q, t[i]);
        StepForeign(p, best, q, t[i]);
      }
      var q' := Step(p, table, q, t[i]);
      if q' != |p| {
        AgreeingScans(p, table, best, t, i + 1, q');
      }
    }
  }

  /** While fewer than |p| - q elements remain, a scan in state q cannot report anything. */
  lemma {:induction false} TooShort<T>(p: seq<T>, table: seq<nat>, t: seq<T>, i: nat, q: nat)
    requires SoundTable(p, table) && q < |p| && i <= |t|
    requires q + (|t| - i) < |p|
    ensures Scan(p, table, t, i, q) == -1
    decreases |t| - i
  {
    if i < |t| {
      TooShort(p, table, t, i + 1, Step(p, table, q, t[i]));
    }
  }

  /** Reading the pattern's own elements keeps the state in step with the index. */
  lemma {:induction false} ScanOwnPrefix<T>(p: seq<T>, table: seq<nat>, t: seq<T>, i: nat, q: nat)
    requires SoundTable(p, table) && i <= q < |p| && q <= |t| && forall x :: i <= x < q ==> t[x] == p[x]
    ensures Scan(p, table, t, i, i) == Scan(p, table, t, q, q)
    decreases q - i
  {
    hide SoundTable;
    if i < q {
      ScanOwnPrefix(p, table, t, i + 1, q);
    }
  }

  /** The text that shows a disagreement: the pattern up to q, the element read, the rest of the better match. */
  function Witness<T(==)>(p: seq<T>, best: seq<nat>, q: nat, c: T): seq<T>
    requires SoundTable(p, best) && q < |p|
  {
    p[..q] + [c] + p[Step(p, best, q, c)..]
  }

  /** The witness uses no element that the pattern does not. */
  lemma WitnessElements<T>(p: seq<T>, best: seq<nat>, q: nat, c: T)
    requires SoundTable(p, best) && q < |p| && c in p
    ensures forall x :: x in Witness(p, best, q, c) ==> x in p
  {
  }

  /** A match of length b followed by the rest of p is an occurrence. */
  lemma MatchThenRest<T>(p: seq<T>, t: seq<T>, n: nat, b: nat)
    requires SuffixMatch(p, t, n, b) && t[n..] == p[b..]
    ensures OccursAt(p, t, n - b)
  {
  }

  /** The witness holds the pattern, ending with it. */
  lemma WitnessOccurs<T>(p: seq<T>, best: seq<nat>, q: nat, c: T)
    requires SoundTable(p, best) && q < |p|
    ensures var t := Witness(p, best, q, c);
            |t| >= |p| && OccursAt(p, t, |t| - |p|)
  {
    var t := Witness(p, best, q, c);
    assert t[..q] == p[..q] && t[q] == c;
    StepSound(p, best, t, q, q);
    var b := Step(p, best, q, c);
    assert t[q + 1..] == p[b..];
    MatchThenRest(p, t, q + 1, b);
  }

  /** With a sound table the state never exceeds the one an exact table gives. */
  lemma StepBelow<T>(p: seq<T>, table: seq<nat>, best: seq<nat>, q: nat, c: T)
    requires SoundTable(p, table) && ExactTable(p, best) && q < |p|
    ensures Step(p, table, q, c) <= Step(p, best, q, c)
  {
    var t := p[..q] + [c];
    assert t[..q] == p[..q];
    StepSound(p, table, t, q, q);
    StepExact(p, best, t, q, q);
  }

  /** Where the tables disagree, the witness contains the pattern and the scan misses it. */
  lemma DisagreementMisses<T>(p: seq<T>, table: seq<nat>, best: seq<nat>, q: nat, c: T)
    requires SoundTable(p, table) && ExactTable(p, best) && q < |p|
    requires Step(p, table, q, c) != Step(p, best, q, c)
    ensures var t := Witness(p, best, q, c);
            Scan(p, table, t, 0, 0) == -1 && OccursAt(p, t, |t| - |p|)
  {
    StepBelow(p, table, best, q, c);
    WitnessOccurs(p, best, q, c);
    var t := Witness(p, best, q, c);
    assert t[..q] == p[..q] && t[q] == c;
    ScanOwnPrefix(p, table, t, 0, q);
    TooShort(p, table, t, q + 1, Step(p, table, q, c));
  }
}
