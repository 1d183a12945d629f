/**
 The sort of the scraped definitions (htmlgrep.c 81-99). Its comparator runs memcmp on the two string
 structs, not on their text, over as many bytes as the shorter text has; past the end of a struct that
 is whatever memory follows. The order it leaves is an order of those bytes, and says nothing of the text.
 */
module Matches {
  import opened Bytes
  import opened QuickSort
  import opened Ring
  import opened Wrappers

  /** A string as the comparator sees it: the memory from its struct on, and the length the struct records. */
  datatype Str = Str(image: seq<byte>, len: nat)

  /** There is memory for as many bytes as the comparator may look at. */
  type Scraped = s: Str | s.len <= |s.image|
    witness Str([], 0)

  /** memcmp */
  function MemCmp(a: seq<byte>, b: seq<byte>, n: nat): int
    requires n <= |a| && n <= |b|
    decreases n
  {
    if n == 0 then 0
    else if a[0] != b[0] then a[0] - b[0]
    else MemCmp(a[1..], b[1..], n - 1)
  }

  /** sortstring */
  function SortString(x: Scraped, y: Scraped): int {
    MemCmp(x.image, y.image, if x.len > y.len then y.len else x.len)
  }

  /** Cutting the memory to the recorded lengths first gives the comparison of prefixes. */
  lemma {:induction false} MemCmpIsPrefix(a: seq<byte>, b: seq<byte>, m: nat, n: nat)
    requires m <= |a| && n <= |b|
    ensures MemCmp(a, b, if m > n then n else m) == PrefixCompare(a[..m], b[..n])
    decreases m
  {
    if m > 0 && n > 0 {
      MemCmpIsPrefix(a[1..], b[1..], m - 1, n - 1);
      assert a[..m][1..] == a[1..][..m - 1] && b[..n][1..] == b[1..][..n - 1];
    }
  }

  /**
   What the comparator computes, memory byte by memory byte: nothing if the two agree as far as the shorter
   length goes, and otherwise the difference at the first place where they do not.
   */
  lemma SortStringMeans(x: Scraped, y: Scraped)
    ensures SortString(x, y) == PrefixCompare(x.image[..x.len], y.image[..y.len])
    ensures (forall k :: 0 <= k < x.len && k < y.len ==> x.image[k] == y.image[k]) ==> SortString(x, y) == 0
    ensures forall k :: 0 <= k < x.len && k < y.len && x.image[k] != y.image[k] &&
                        (forall j :: 0 <= j < k ==> x.image[j] == y.image[j]) ==>
              SortString(x, y) == x.image[k] as int - y.image[k] as int
  {
    var a, b := x.image[..x.len], y.image[..y.len];
    MemCmpIsPrefix(x.image, y.image, x.len, y.len);
    PrefixCompareMeans(a, b);
    assert forall k :: 0 <= k < x.len ==> a[k] == x.image[k];
    assert forall k :: 0 <= k < y.len ==> b[k] == y.image[k];
  }

  /** So it separates any strings, whatever memory they lie in. */
  lemma SortStringSeparates(s: seq<Scraped>)
    ensures Separates(SortString, s)
  {
    forall x: Scraped ensures AtMost(SortString, x, x) {
      MemCmpIsPrefix(x.image, x.image, x.len, x.len);
      PrefixCompareSelf(x.image[..x.len]);
    }
    forall x: Scraped, y: Scraped, z: Scraped | AtMost(SortString, x, y) && !AtMost(SortString, z, y)
      ensures AtMost(SortString, x, z)
    {
      MemCmpIsPrefix(x.image, y.image, x.len, y.len);
      MemCmpIsPrefix(z.image, y.image, z.len, y.len);
      MemCmpIsPrefix(x.image, z.image, x.len, z.len);
      PrefixCompareSeparates(x.image[..x.len], y.image[..y.len], z.image[..z.len]);
    }
  }

  /** It is not transitive: a string without text is level with every other. */
  lemma SortStringNotTransitive()
    ensures var x: Scraped, y: Scraped, z: Scraped := Str([2], 1), Str([], 0), Str([1], 1);
            SortString(x, y) < 1 && SortString(y, z) < 1 && SortString(x, z) >= 1
  {
  }

  /** htmlGetMatches, on the list the parser made: the same strings, every two of them in the comparator's order. */
  method SortMatches(l: List<Scraped>)
    requires l.Valid()
    modifies l`contents, l.nodes`data
    ensures l.Valid() && multiset(l.contents) == multiset(old(l.contents))
    ensures SortedBy(l.contents, SortString)
    ensures forall i, j :: 0 <= i < j < |l.contents| ==>
              PrefixCompare(l.contents[i].image[..l.contents[i].len], l.contents[j].image[..l.contents[j].len]) <= 0
  {
    SortStringSeparates(l.contents);
    hide Separates, Sorted, SortedBy, PrefixCompare;
    QSort(l, Some(SortString));
    forall i, j | 0 <= i < j < |l.contents|
      ensures PrefixCompare(l.contents[i].image[..l.contents[i].len], l.contents[j].image[..l.contents[j].len]) <= 0
    {
      SortStringMeans(l.contents[i], l.contents[j]);
    }
  }
}
