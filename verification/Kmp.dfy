/**
 String search (aostr.c 402-504): the prefix-table builder, the two matchers that use a given table,
 and the two wrappers. The case-folding wrapper builds its table from the unfolded pattern.
 Every loop carries a ghost count of failure-loop iterations, bounded by the outer iterations.
 */
module Kmp {
  import opened Bytes
  import opened Borders
  import opened AoString

  /** The bytes a matcher can see: the contents up to the first NUL. */
  ghost function Visible(buf: AoStr): seq<byte>
    reads buf, buf.data
    requires buf.Valid()
  {
    CString(buf.Contents())
  }

  /** One more element: the fallback loop has stopped at k, the longest border that can grow or 0. */
  lemma NextBorder(p: seq<byte>, i: nat, k: nat)
    requires 0 < i < |p| && IsBorder(p, i, k)
    requires forall b: nat :: IsBorder(p, i, b) && p[b] == p[i] ==> b <= k
    requires p[k] == p[i] || k == 0
    ensures IsLongestBorder(p, i + 1, if p[k] == p[i] then k + 1 else k)
  {
    SuffixExtend(p, p, i, k);
    var n := i + 1;
    forall b: nat | IsBorder(p, n, b) ensures b <= if p[k] == p[i] then k + 1 else k {
      if b > 0 {
        SuffixExtend(p, p, i, b - 1);
        assert IsBorder(p, i, b - 1);
      }
    }
  }

  /** The entries found so far. */
  ghost predicate Built(p: seq<byte>, table: seq<nat>) {
    |table| <= |p| && forall j :: 0 <= j < |table| ==> IsLongestBorder(p, j + 1, table[j])
  }

  /** k is a border of p[..i], and at least as long as any that the next element would extend. */
  ghost predicate Candidate(p: seq<byte>, i: nat, k: nat) {
    0 < i < |p| && IsBorder(p, i, k) && forall b: nat :: IsBorder(p, i, b) && p[b] == p[i] ==> b <= k
  }

  lemma BuiltFirst(p: seq<byte>)
    requires p != []
    ensures Built(p, [0])
  {
    assert IsBorder(p, 1, 0);
  }

  /** The search for an entry begins at the one before it. */
  lemma BuiltStart(p: seq<byte>, table: seq<nat>)
    requires Built(p, table) && 0 < |table| < |p|
    ensures Descending(table) && Candidate(p, |table|, table[|table| - 1])
  {
    var i := |table|;
    assert IsLongestBorder(p, i - 1 + 1, table[i - 1]);
    forall j | 0 <= j < i ensures table[j] <= j {
      assert IsBorder(p, j + 1, table[j]);
    }
  }

  lemma CandidateBelow(p: seq<byte>, i: nat, k: nat)
    requires Candidate(p, i, k)
    ensures k < i < |p|
  {
  }

  /** Falling back loses no border that the next element would extend. */
  lemma CandidateFalls(p: seq<byte>, table: seq<nat>, k: nat)
    requires Built(p, table) && Candidate(p, |table|, k) && k > 0 && p[k] != p[|table|]
    ensures table[k - 1] < k && Candidate(p, |table|, table[k - 1])
  {
    var i, next := |table|, table[k - 1];
    assert IsLongestBorder(p, k - 1 + 1, next);
    forall b: nat | IsBorder(p, i, b) && p[b] == p[i] ensures b <= next {
      SuffixOfSuffix(p, p, i, k, b);
      assert IsBorder(p, k, b);
    }
    SuffixOfSuffix(p, p, i, k, next);
  }

  /** Where the search stops is the next entry. */
  lemma BuiltNext(p: seq<byte>, table: seq<nat>, k: nat, more: seq<nat>)
    requires Built(p, table) && Candidate(p, |table|, k) && (k == 0 || p[k] == p[|table|])
    requires more == table + [if p[k] == p[|table|] then k + 1 else k]
    ensures Built(p, more)
  {
    NextBorder(p, |table|, k);
  }

  lemma BuiltAll(p: seq<byte>, table: seq<nat>)
    requires Built(p, table) && |table| == |p|
    ensures ExactTable(p, table) && Descending(table)
  {
    forall j | 0 <= j < |p| ensures IsBorder(p, j + 1, table[j]) {
      assert IsLongestBorder(p, j + 1, table[j]);
    }
    SoundDescends(p, table);
  }

  /** aoStrComputePrefixTable */
  method ComputePrefixTable(pattern: seq<byte>) returns (table: array<nat>, ghost falls: nat)
    requires pattern != []
    ensures fresh(table)
    ensures ExactTable(pattern, table[..])
    ensures Descending(table[..]) && falls == BuildFalls(pattern, table[..]) < |pattern|
  {
    hide Built, Candidate, ExactTable, Descending;
    table := new nat[|pattern|];
    table[0] := 0;
    falls := 0;
    var k: nat := 0;
    BuiltFirst(pattern);
    BuildFirst(pattern);
    assert table[..1] == [0];
    for i := 1 to |pattern|
      invariant Built(pattern, table[..i]) && k == table[i - 1]
      invariant Descending(table[..i]) && falls == BuildFalls(pattern, table[..i])
      invariant falls + k < i
    {
      ghost var done, sofar := table[..i], falls;
      BuiltStart(pattern, done);
      CandidateBelow(pattern, i, k);
      while k > 0 && pattern[k] != pattern[i]
        invariant k < i && Candidate(pattern, i, k)
        invariant falls + FallCount(pattern, done, k, pattern[i]) == sofar + FallCount(pattern, done, done[i - 1], pattern[i])
        invariant falls + k < i
        decreases k
        modifies {}
      {
        CandidateFalls(pattern, done, k);
        k := table[k - 1];
        falls := falls + 1;
      }
      BuiltNext(pattern, done, k, done + [if pattern[k] == pattern[i] then k + 1 else k]);
      if pattern[k] == pattern[i] {
        k := k + 1;
      }
      table[i] := k;
      assert table[..i + 1] == done + [k];
      BuildNext(pattern, done, done + [k], falls - sofar);
    }
    assert table[..|pattern|] == table[..];
    BuiltAll(pattern, table[..]);
  }

  lemma BuildFirst(p: seq<byte>)
    requires p != []
    ensures Descending([0]) && BuildFalls(p, [0]) == 0
  {
  }

  /** The count over one more entry. */
  lemma BuildNext(pattern: seq<byte>, done: seq<nat>, more: seq<nat>, falls: int)
    requires 0 < |done| < |pattern| && Descending(done)
    requires |more| == |done| + 1 && more[..|done|] == done && more[|done|] <= |done|
    requires falls == FallCount(pattern, done, done[|done| - 1], pattern[|done|])
    ensures Descending(more) && BuildFalls(pattern, more) == BuildFalls(pattern, done) + falls
  {
    forall j | 0 <= j < |more| ensures more[j] <= j {
      if j < |done| {
        assert more[j] == done[j];
      }
    }
  }

  /** aoStrContainsPatternWithTable */
  method ContainsPatternWithTable(buf: AoStr, table: array<nat>, pattern: seq<byte>) returns (r: int, ghost falls: nat)
    requires buf.Valid() && SoundTable(pattern, table[..])
    ensures pattern == [] ==> r == -1
    ensures pattern != [] ==> r == Scan(pattern, table[..], Visible(buf), 0, 0)
    ensures falls == (if pattern == [] then 0 else ScanFalls(pattern, table[..], Visible(buf), 0, 0)) <= buf.len
    ensures pattern != [] && ExactTable(pattern, table[..]) ==> IsFirstOccurrence(pattern, Visible(buf), r)
  {
    hide ExactTable, IsFirstOccurrence, CString, SuffixMatch;
    r, falls := -1, 0;
    if |pattern| == 0 {
      return;
    }
    ghost var text, tab := Visible(buf), table[..];
    if ExactTable(pattern, tab) {
      ScanFindsFirst(pattern, tab, text);
    }
    ScanLinear(pattern, tab, text, 0, 0);
    SoundDescends(pattern, tab);
    var q: nat := 0;
    for i := 0 to buf.len
      invariant i <= |text| && q < |pattern|
      invariant r == -1 && Scan(pattern, tab, text, 0, 0) == Scan(pattern, tab, text, i, q)
      invariant ScanFalls(pattern, tab, text, 0, 0) == falls + ScanFalls(pattern, tab, text, i, q)
    {
      if buf.data[i] == NUL {
        assert i == |text|;
        break;
      }
      assert text[i] == buf.data[i];
      ghost var q0, sofar := q, falls;
      while q > 0 && pattern[q] != buf.data[i]
        invariant q < |pattern|
        invariant Fall(pattern, tab, q, text[i]) == Fall(pattern, tab, q0, text[i])
        invariant falls + FallCount(pattern, tab, q, text[i]) == sofar + FallCount(pattern, tab, q0, text[i])
        decreases q
      {
        assert IsBorder(pattern, q - 1 + 1, tab[q - 1]);
        q := table[q - 1];
        falls := falls + 1;
      }
      if pattern[q] == buf.data[i] {
        q := q + 1;
      }
      assert q == Step(pattern, tab, q0, text[i]);
      if q == |pattern| {
        r := i - |pattern| + 1;
        break;
      }
    }
  }

  /** aoStrContainsPattern: the first occurrence, or -1 exactly when there is none. */
  method ContainsPattern(buf: AoStr, pattern: seq<byte>) returns (r: int, ghost falls: nat, ghost table: seq<nat>)
    requires buf.Valid() && pattern != []
    ensures IsFirstOccurrence(pattern, Visible(buf), r)
    ensures ExactTable(pattern, table) && Descending(table)
    ensures falls == BuildFalls(pattern, table) + ScanFalls(pattern, table, Visible(buf), 0, 0) < buf.len + |pattern|
  {
    var tab, built := ComputePrefixTable(pattern);
    table := tab[..];
    r, falls := ContainsPatternWithTable(buf, tab, pattern);
    falls := falls + built;
  }

  /** aoStrContainsCasePatternWithTable: the table may be any sound one for the folded pattern. */
  method ContainsCasePatternWithTable(buf: AoStr, table: array<nat>, pattern: seq<byte>)
    returns (r: int, ghost falls: nat)
    requires buf.Valid() && SoundTable(Lowered(pattern), table[..])
    ensures pattern == [] ==> r == -1
    ensures pattern != [] ==> r == Scan(Lowered(pattern), table[..], Lowered(Visible(buf)), 0, 0)
    ensures falls == (if pattern == [] then 0
                      else ScanFalls(Lowered(pattern), table[..], Lowered(Visible(buf)), 0, 0)) <= buf.len
  {
    r, falls := -1, 0;
    var q: nat := 0;
    if |pattern| == 0 {
      return;
    }
    ghost var p, text, tab := Lowered(pattern), Lowered(Visible(buf)), table[..];
    ScanLinear(p, tab, text, 0, 0);
    SoundDescends(p, tab);
    for i := 0 to buf.len
      invariant i <= |text| && q < |p|
      invariant r == -1 && Scan(p, tab, text, 0, 0) == Scan(p, tab, text, i, q)
      invariant ScanFalls(p, tab, text, 0, 0) == falls + ScanFalls(p, tab, text, i, q)
    {
      if buf.data[i] == NUL {
        assert i == |text|;
        break;
      }
      assert text[i] == ToLower(buf.data[i]);
      ghost var q0, sofar := q, falls;
      while q > 0 && ToLower(pattern[q]) != ToLower(buf.data[i])
        invariant q < |p|
        invariant Fall(p, tab, q, text[i]) == Fall(p, tab, q0, text[i])
        invariant falls + FallCount(p, tab, q, text[i]) == sofar + FallCount(p, tab, q0, text[i])
        decreases q
      {
        assert IsBorder(p, q - 1 + 1, tab[q - 1]);
        q := table[q - 1];
        falls := falls + 1;
      }
      if ToLower(pattern[q]) == ToLower(buf.data[i]) {
        q := q + 1;
      }
      assert q == Step(p, tab, q0, text[i]);
      if q == |pattern| {
        r := i - |pattern| + 1;
        break;
      }
    }
  }

  /** What aoStrContainsCasePattern computes on a text, given the exact table of the unfolded pattern. */
  ghost function CaseSearch(pattern: seq<byte>, table: seq<nat>, text: seq<byte>): int
    requires pattern != [] && ExactTable(pattern, table)
  {
    FoldedTableSound(pattern, table);
    Scan(Lowered(pattern), table, Lowered(text), 0, 0)
  }

  /** aoStrContainsCasePattern: sound for every pattern; first and complete when case never distinguishes two letters. */
  method ContainsCasePattern(buf: AoStr, pattern: seq<byte>) returns (r: int, ghost falls: nat, ghost table: seq<nat>)
    requires buf.Valid() && pattern != []
    ensures ExactTable(pattern, table) && r == CaseSearch(pattern, table, Visible(buf))
    ensures r == -1 || OccursAt(Lowered(pattern), Lowered(Visible(buf)), r)
    ensures NoCaseClash(pattern) ==> IsFirstOccurrence(Lowered(pattern), Lowered(Visible(buf)), r)
    ensures Descending(table) && SoundTable(Lowered(pattern), table)
    ensures falls == BuildFalls(pattern, table) + ScanFalls(Lowered(pattern), table, Lowered(Visible(buf)), 0, 0) <
            buf.len + |pattern|
  {
    var tab, built := ComputePrefixTable(pattern);
    table := tab[..];
    FoldedTableSound(pattern, table);
    r, falls := ContainsCasePatternWithTable(buf, tab, pattern);
    falls := falls + built;
    ScanSound(Lowered(pattern), table, Lowered(Visible(buf)), 0, 0);
    if NoCaseClash(pattern) {
      FoldedTableExact(pattern, table);
      ScanFindsFirst(Lowered(pattern), table, Lowered(Visible(buf)));
    }
  }

  // ----- the folded pattern under the unfolded table -----

  /** No two elements of the pattern differ only in case. */
  ghost predicate NoCaseClash(p: seq<byte>) {
    forall i, j :: 0 <= i < |p| && 0 <= j < |p| && ToLower(p[i]) == ToLower(p[j]) ==> p[i] == p[j]
  }

  /** Folding keeps borders. */
  lemma FoldedBorder(p: seq<byte>, n: nat, k: nat)
    requires n <= |p|
    ensures IsBorder(p, n, k) ==> IsBorder(Lowered(p), n, k)
    ensures NoCaseClash(p) && IsBorder(Lowered(p), n, k) ==> IsBorder(p, n, k)
  {
    var f := Lowered(p);
    if IsBorder(p, n, k) {
      forall x | 0 <= x < k ensures f[..k][x] == f[n - k..n][x] {
        assert p[..k][x] == p[n - k..n][x];
      }
    }
    if NoCaseClash(p) && IsBorder(f, n, k) {
      forall x | 0 <= x < k ensures p[..k][x] == p[n - k..n][x] {
        assert f[..k][x] == f[n - k..n][x];
      }
    }
  }

  /** The unfolded table is sound for the folded pattern. */
  lemma FoldedTableSound(p: seq<byte>, table: seq<nat>)
    requires ExactTable(p, table)
    ensures SoundTable(Lowered(p), table)
  {
  }

  /** Without a case clash the unfolded and folded tables are the same table. */
  lemma FoldedTableExact(p: seq<byte>, table: seq<nat>)
    requires ExactTable(p, table) && NoCaseClash(p)
    ensures ExactTable(Lowered(p), table)
  {
    forall j | 0 <= j < |p| ensures IsLongestBorder(Lowered(p), j + 1, table[j]) {
      assert IsLongestBorder(p, j + 1, table[j]);
      FoldedBorder(p, j + 1, table[j]);
      var n := j + 1;
      forall k: nat | IsBorder(Lowered(p), n, k) ensures k <= table[j] {
        FoldedBorder(p, n, k);
      }
    }
  }

  /** The search is right on a text whenever the two tables move the matcher alike. */
  lemma AgreeingCaseSearch(p: seq<byte>, table: seq<nat>, folded: seq<nat>, text: seq<byte>)
    requires p != [] && ExactTable(p, table) && ExactTable(Lowered(p), folded)
    requires SoundTable(Lowered(p), table) && StepsAgree(Lowered(p), table, folded)
    ensures IsFirstOccurrence(Lowered(p), Lowered(text), CaseSearch(p, table, text))
  {
    AgreeingScans(Lowered(p), table, folded, Lowered(text), 0, 0);
    ScanFindsFirst(Lowered(p), folded, Lowered(text));
  }

  /** Folding leaves a text made of folded elements alone. */
  lemma LoweredTwice(p: seq<byte>, text: seq<byte>)
    requires forall b :: b in text ==> b in Lowered(p)
    ensures Lowered(text) == text
  {
    forall i | 0 <= i < |text| ensures Lowered(text)[i] == text[i] {
      assert text[i] in Lowered(p);
    }
  }

  /** Where the tables disagree there is a text, one the matcher can see whole, on which the search is wrong. */
  lemma DisagreeingCaseSearch(p: seq<byte>, table: seq<nat>, folded: seq<nat>) returns (text: seq<byte>)
    requires p != [] && NUL !in p && ExactTable(p, table) && ExactTable(Lowered(p), folded)
    requires SoundTable(Lowered(p), table) && !StepsAgree(Lowered(p), table, folded)
    ensures NUL !in text && CaseSearch(p, table, text) == -1
    ensures exists s :: OccursAt(Lowered(p), Lowered(text), s)
  {
    hide Step, Witness, OccursAt, Scan, Fall, ToLower, Lowered, SuffixMatch;
    var f := Lowered(p);
    var q, x :| 0 <= q < |f| && 0 <= x < |f| && Step(f, table, q, f[x]) != Step(f, folded, q, f[x]);
    DisagreementMisses(f, table, folded, q, f[x]);
    text := Witness(f, folded, q, f[x]);
    WitnessElements(f, folded, q, f[x]);
    LoweredTwice(p, text);
    LoweredNul(p);
    assert OccursAt(f, Lowered(text), |text| - |f|);
  }

  /** Folding makes no NUL and loses none. */
  lemma LoweredNul(s: seq<byte>)
    ensures NUL in Lowered(s) <==> NUL in s
  {
    forall i | 0 <= i < |s| ensures Lowered(s)[i] == NUL <==> s[i] == NUL {
    }
  }

  lemma OccursElement(p: seq<byte>, t: seq<byte>, s: int, k: nat)
    requires k < |p|
    ensures OccursAt(p, t, s) ==> p[k] in t
  {
    if OccursAt(p, t, s) {
      assert t[s..s + |p|][k] == t[s + k];
    }
  }

  /** A pattern with a NUL in it is in no text the matcher can see, and the search says so. */
  lemma NulCaseSearch(p: seq<byte>, table: seq<nat>, text: seq<byte>)
    requires p != [] && NUL in p && NUL !in text && ExactTable(p, table)
    ensures IsFirstOccurrence(Lowered(p), Lowered(text), CaseSearch(p, table, text))
  {
    var f, t := Lowered(p), Lowered(text);
    FoldedTableSound(p, table);
    LoweredNul(p);
    LoweredNul(text);
    var k :| 0 <= k < |f| && f[k] == NUL;
    forall s ensures !OccursAt(f, t, s) {
      OccursElement(f, t, s, k);
    }
    ScanSound(f, table, t, 0, 0);
  }

  /**
   Exactly when the case-folding search is right: it reports the first folded occurrence in every text
   the matcher can see if and only if the pattern has a NUL in it, and so occurs nowhere, or the
   unfolded and folded tables move the matcher alike on the pattern's letters.
   */
  lemma CaseSearchRightIff(p: seq<byte>, table: seq<nat>, folded: seq<nat>)
    requires p != [] && ExactTable(p, table) && ExactTable(Lowered(p), folded)
    requires SoundTable(Lowered(p), table)
    ensures (forall text: seq<byte> :: NUL !in text ==>
               IsFirstOccurrence(Lowered(p), Lowered(text), CaseSearch(p, table, text)))
            <==> NUL in p || StepsAgree(Lowered(p), table, folded)
  {
    if NUL in p || StepsAgree(Lowered(p), table, folded) {
      forall text: seq<byte> | NUL !in text
        ensures IsFirstOccurrence(Lowered(p), Lowered(text), CaseSearch(p, table, text))
      {
        if NUL in p {
          NulCaseSearch(p, table, text);
        } else {
          AgreeingCaseSearch(p, table, folded, text);
        }
      }
    } else {
      var text := DisagreeingCaseSearch(p, table, folded);
      assert !IsFirstOccurrence(Lowered(p), Lowered(text), CaseSearch(p, table, text));
    }
  }

  /** A pattern for which the search goes wrong: "aAb" is in "aAAb" but is not found. */
  lemma CaseSearchMisses()
    ensures var p, t := Ascii("aAb"), Ascii("aAAb");
            ExactTable(p, [0, 0, 0]) &&
            CaseSearch(p, [0, 0, 0], t) == -1 && OccursAt(Lowered(p), Lowered(t), 1)
  {
    var p, t := Ascii("aAb"), Ascii("aAAb");
    var f := Lowered(p);
    var table: seq<nat> := [0, 0, 0];
    assert p[..1][0] != p[1..2][0] && p[..1][0] != p[2..3][0] && p[..2][1] != p[1..3][1];
    assert IsLongestBorder(p, 1, table[0]) && IsLongestBorder(p, 2, table[1]) && IsLongestBorder(p, 3, table[2]);
    FoldedTableSound(p, table);
    assert f == Ascii("aab") && Lowered(t) == Ascii("aaab");
    assert Step(f, table, 0, 'a' as int) == 1;
    assert Step(f, table, 1, 'a' as int) == 2;
    assert Step(f, table, 2, 'a' as int) == 1;
    assert Step(f, table, 1, 'b' as int) == 0;
    var u := Lowered(t);
    assert Scan(f, table, u, 3, 1) == -1;
    assert Scan(f, table, u, 2, 2) == -1;
    assert Scan(f, table, u, 1, 1) == -1;
    assert u[1..4] == f;
  }
}
