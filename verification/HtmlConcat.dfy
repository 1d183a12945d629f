/**
 The concatenation of the scraped definitions (htmlgrep.c 101-122): one walk round the ring, by
 count, that ends every string with two newlines and gathers them into a new one.
 */
module HtmlConcat {
  import opened Bytes
  import opened AoString
  import opened Ring
  import opened Sequences
  import opened Split

  const NEWLINE: byte := 10

  /** The texts, each ended by two newlines. */
  function Ended(t: seq<seq<byte>>): (e: seq<seq<byte>>)
    ensures |e| == |t| && forall i :: 0 <= i < |t| ==> e[i] == t[i] + [NEWLINE, NEWLINE]
  {
    seq(|t|, i requires 0 <= i < |t| => t[i] + [NEWLINE, NEWLINE])
  }

  /** What the page is: each text and two newline characters, one after the other. */
  lemma {:induction false} PageMeans(t: seq<seq<byte>>)
    ensures Flatten(Ended([])) == []
    ensures t != [] ==> Flatten(Ended(t)) == t[0] + Ascii("\n\n") + Flatten(Ended(t[1..]))
  {
    if t != [] {
      FlattenCons(Ended(t));
      assert Ended(t)[1..] == Ended(t[1..]);
      assert Ascii("\n\n") == [NEWLINE, NEWLINE];
    }
  }

  // ----- reading the page back -----

  /** The lines of a page: each text, and the empty line after it. */
  function Lines(t: seq<seq<byte>>): (r: seq<seq<byte>>)
    ensures r != []
  {
    if t == [] then [[]] else [t[0], []] + Lines(t[1..])
  }

  lemma {:induction false} JoinLines(t: seq<seq<byte>>)
    ensures Join(Lines(t), NEWLINE) == Flatten(Ended(t))
  {
    if t != [] {
      JoinLines(t[1..]);
      FlattenCons(Ended(t));
      assert Ended(t)[1..] == Ended(t[1..]);
      var rest := Lines(t[1..]);
      assert ([t[0], []] + rest)[1..] == [[]] + rest && ([[]] + rest)[1..] == rest;
    }
  }

  lemma {:induction false} LinesFree(t: seq<seq<byte>>)
    requires Free(t, NEWLINE)
    ensures Free(Lines(t), NEWLINE)
  {
    if t != [] {
      LinesFree(t[1..]);
    }
  }

  /** Texts without newlines come back, in order, from the page they were concatenated into. */
  lemma PageKeepsTexts(t: seq<seq<byte>>)
    requires Free(t, NEWLINE)
    ensures Pieces(Flatten(Ended(t)), NEWLINE) == Lines(t)
  {
    LinesFree(t);
    JoinLines(t);
    PiecesJoin(Lines(t), NEWLINE);
  }

  /** Two pages are the same only if their texts are. */
  lemma {:induction false} LinesInjective(t: seq<seq<byte>>, u: seq<seq<byte>>)
    requires Lines(t) == Lines(u)
    ensures t == u
  {
    assert |t| > 0 ==> |Lines(t)| > 1;
    assert |u| > 0 ==> |Lines(u)| > 1;
    if t != [] && u != [] {
      assert Lines(t)[0] == t[0] && Lines(u)[0] == u[0];
      assert Lines(t)[2..] == Lines(t[1..]) && Lines(u)[2..] == Lines(u[1..]);
      LinesInjective(t[1..], u[1..]);
      assert t == [t[0]] + t[1..] && u == [u[0]] + u[1..];
    }
  }

  // ----- the walk -----

  /** Separate strings, holding the texts. */
  ghost predicate Holding(strings: seq<AoStr>, texts: seq<seq<byte>>)
    reads strings, set i | 0 <= i < |strings| :: strings[i].data
  {
    |strings| == |texts| &&
    (forall i, j :: 0 <= i < j < |strings| ==> strings[i] != strings[j] && strings[i].data != strings[j].data) &&
    (forall i :: 0 <= i < |strings| ==> strings[i].Valid() && strings[i].Contents() == texts[i])
  }

  /** A string that shares nothing with any of the others. */
  ghost predicate Apart(page: AoStr, strings: seq<AoStr>)
    reads page, strings
  {
    forall i :: 0 <= i < |strings| ==> strings[i] != page && strings[i].data != page.data
  }

  /** One string is ended, then copied to the page. */
  method EndAndAdd(data: AoStr, page: AoStr)
    requires data.Valid() && page.Valid() && page.len < page.capacity && data.len + 2 < 0x1_0000_0000
    requires data != page && data.data != page.data
    modifies data, data.data, page, page.data
    ensures data.Valid() && page.Valid() && page.len < page.capacity && data.data != page.data
    ensures data.Contents() == old(data.Contents()) + [NEWLINE, NEWLINE]
    ensures page.Contents() == old(page.Contents()) + (old(data.Contents()) + [NEWLINE, NEWLINE])
    ensures data.data == old(data.data) || fresh(data.data)
    ensures page.data == old(page.data) || fresh(page.data)
  {
    data.PutChar(NEWLINE);
    data.PutChar(NEWLINE);
    page.CatLen(data.data[..data.len]);
  }

  /** The same among the strings of a list: only that string changes. */
  method Round(data: AoStr, page: AoStr, ghost strings: seq<AoStr>, ghost held: seq<seq<byte>>, ghost k: nat)
    requires Holding(strings, held) && k < |strings| && data == strings[k] && |held[k]| + 2 < 0x1_0000_0000
    requires Apart(page, strings) && page.Valid() && page.len < page.capacity
    modifies data, data.data, page, page.data
    ensures Holding(strings, held[k := held[k] + [NEWLINE, NEWLINE]])
    ensures Apart(page, strings) && page.Valid() && page.len < page.capacity
    ensures page.Contents() == old(page.Contents()) + (held[k] + [NEWLINE, NEWLINE])
    ensures data.data == old(data.data) || fresh(data.data)
    ensures page.data == old(page.data) || fresh(page.data)
  {
    EndAndAdd(data, page);
  }

  /** The texts after k rounds. */
  function EndedTo(t: seq<seq<byte>>, k: nat): (r: seq<seq<byte>>)
    requires k <= |t|
    ensures |r| == |t| && r[..k] == Ended(t)[..k] && r[k..] == t[k..]
  {
    Ended(t)[..k] + t[k..]
  }

  lemma EndedNext(t: seq<seq<byte>>, k: nat)
    requires k < |t|
    ensures EndedTo(t, k)[k] == t[k] && EndedTo(t, k)[k := t[k] + [NEWLINE, NEWLINE]] == EndedTo(t, k + 1)
    ensures Flatten(Ended(t)[..k + 1]) == Flatten(Ended(t)[..k]) + (t[k] + [NEWLINE, NEWLINE])
  {
    assert EndedTo(t, k)[k] == t[k..][0];
    assert Ended(t)[..k + 1][..k] == Ended(t)[..k];
  }

  lemma EndedEnds(t: seq<seq<byte>>)
    ensures EndedTo(t, 0) == t && EndedTo(t, |t|) == Ended(t)
    ensures Flatten(Ended(t)[..0]) == [] && Ended(t)[..|t|] == Ended(t)
  {
  }

  /** htmlConcatList: nothing for an empty list; otherwise the page, and every string of the list has its newlines. */
  method ConcatList(l: List<AoStr>, ghost texts: seq<seq<byte>>) returns (page: AoStr?)
    requires l.Valid() && Holding(l.contents, texts)
    requires forall i :: 0 <= i < |texts| ==> |texts[i]| + 2 < 0x1_0000_0000
    modifies l.contents, set i | 0 <= i < |l.contents| :: l.contents[i].data
    ensures l.Valid() && Holding(l.contents, Ended(texts))
    ensures l.len == 0 ==> page == null
    ensures l.len > 0 ==> page != null && fresh(page) && page.Valid() && page.Contents() == Flatten(Ended(texts))
  {
    hide Holding, Apart, Ended, EndedTo, Flatten, List.Valid;
    NodeAt(l, 0);
    EndedEnds(texts);
    SameCount(l.contents, texts);
    if l.len == 0 {
      return null;
    }
    var result := new AoStr(512);
    IsApart(result, l.contents);
    var ln := l.root;
    var count := l.len;
    ghost var k := 0;
    while true
      invariant k + count == l.len && count > 0 && k < |texts| == |l.nodes| == |l.contents| && ln == l.nodes[k]
      invariant l.Valid()
      invariant Holding(l.contents, EndedTo(texts, k))
      invariant forall i :: 0 <= i < |l.contents| ==> l.contents[i].data == old(l.contents[i].data) || fresh(l.contents[i].data)
      invariant fresh(result) && fresh(result.data) && result.Valid() && result.len < result.capacity
      invariant Apart(result, l.contents)
      invariant result.Contents() == Flatten(Ended(texts)[..k])
      decreases count
    {
      EndedNext(texts, k);
      NodeAt(l, k);
      Round(ln.data, result, l.contents, EndedTo(texts, k), k);
      ln := ln.next;
      count := count - 1;
      k := k + 1;
      if count == 0 {
        break;
      }
    }
    page := result;
  }

  lemma IsApart(page: AoStr, strings: seq<AoStr>)
    requires forall i {:trigger strings[i]} :: 0 <= i < |strings| ==> strings[i] != page && strings[i].data != page.data
    ensures Apart(page, strings)
  {
  }

  lemma SameCount(strings: seq<AoStr>, texts: seq<seq<byte>>)
    requires Holding(strings, texts)
    ensures |strings| == |texts|
  {
  }

  /** The node k steps from the root. */
  lemma NodeAt<T>(l: List<T>, k: nat)
    requires l.Valid()
    ensures l.len == |l.nodes| == |l.contents| && (l.len > 0 ==> l.root == l.nodes[0])
    ensures k < l.len ==> l.nodes[k].data == l.contents[k] && l.nodes[k].next == l.nodes[if k + 1 < l.len then k + 1 else 0]
  {
  }
}
