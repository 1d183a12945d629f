/**
 Splitting a C string on a delimiter (aostr.c 517-568). One delimiter at the very front is dropped
 first; after that every delimiter ends a piece, so empty pieces are kept.
 */
module Split {
  import opened Bytes
  import opened AoString

  /** The pieces between delimiters; always at least one. */
  function Pieces(s: seq<byte>, d: byte): (p: seq<seq<byte>>)
    ensures p != []
  {
    if s == [] then [[]]
    else
      var rest := Pieces(s[1..], d);
      if s[0] == d then [[]] + rest else [[s[0]] + rest[0]] + rest[1..]
  }

  /** The string without the one delimiter it may start with. */
  function Trimmed(s: seq<byte>, d: byte): seq<byte> {
    if s != [] && s[0] == d then s[1..] else s
  }

  /** The pieces with the delimiter between each two. */
  function Join(p: seq<seq<byte>>, d: byte): seq<byte>
    requires p != []
  {
    if |p| == 1 then p[0] else p[0] + [d] + Join(p[1..], d)
  }

  // ----- splitting and joining -----

  /** A delimiter-free start followed by a delimiter is the first piece. */
  lemma {:induction false} FirstPiece(s: seq<byte>, d: byte, n: nat)
    requires n <= |s| && d !in s[..n]
    ensures n == |s| ==> Pieces(s, d) == [s]
    ensures n < |s| && s[n] == d ==> Pieces(s, d) == [s[..n]] + Pieces(s[n + 1..], d)
    decreases n
  {
    if n > 0 {
      assert s[0] == s[..n][0] && s[1..][..n - 1] == s[..n][1..];
      FirstPiece(s[1..], d, n - 1);
      assert [s[0]] + s[1..] == s && [s[0]] + s[1..][..n - 1] == s[..n];
      assert n < |s| ==> s[1..][n..] == s[n + 1..];
    } else if s != [] && s[0] == d {
      assert s[..0] == [];
    }
  }

  /** Joining the pieces gives the string back. */
  lemma {:induction false} JoinPieces(s: seq<byte>, d: byte)
    ensures Join(Pieces(s, d), d) == s
  {
    if s != [] {
      hide Join;
      JoinPieces(s[1..], d);
      JoinEmpty(d);
      JoinFront(Pieces(s[1..], d), s[0], d);
      assert s == [s[0]] + s[1..];
    } else {
      JoinEmpty(d);
    }
  }

  lemma JoinEmpty(d: byte)
    ensures Join([[]], d) == []
  {
  }

  /** A byte in front of the first piece, or an empty piece in front of all. */
  lemma JoinFront(p: seq<seq<byte>>, b: byte, d: byte)
    requires p != []
    ensures Join([[]] + p, d) == [d] + Join(p, d)
    ensures Join([[b] + p[0]] + p[1..], d) == [b] + Join(p, d)
  {
    var q := [[b] + p[0]] + p[1..];
    assert ([[]] + p)[1..] == p;
    assert q[1..] == p[1..];
    if |p| > 1 {
      assert q[0] + [d] + Join(q[1..], d) == [b] + (p[0] + [d] + Join(p[1..], d));
    }
  }

  ghost predicate Free(p: seq<seq<byte>>, d: byte) {
    forall i :: 0 <= i < |p| ==> d !in p[i]
  }

  /** No piece contains the delimiter, and there is one piece more than there are delimiters. */
  lemma {:induction false} PiecesAreFree(s: seq<byte>, d: byte)
    ensures Free(Pieces(s, d), d) && |Pieces(s, d)| == multiset(s)[d] + 1
  {
    if s != [] {
      PiecesAreFree(s[1..], d);
      assert s == [s[0]] + s[1..];
      assert multiset(s) == multiset{s[0]} + multiset(s[1..]);
    }
  }

  /** Splitting a join of delimiter-free pieces gives the pieces back. */
  lemma {:induction false} PiecesJoin(p: seq<seq<byte>>, d: byte)
    requires p != [] && Free(p, d)
    ensures Pieces(Join(p, d), d) == p
  {
    var s := Join(p, d);
    assert d !in p[0];
    if |p| == 1 {
      FirstPiece(s, d, |s|);
    } else {
      var n := |p[0]|;
      assert s[..n] == p[0] && s[n] == d && s[n + 1..] == Join(p[1..], d);
      FirstPiece(s, d, n);
      PiecesJoin(p[1..], d);
      assert [p[0]] + p[1..] == p;
    }
  }

  /** The pieces are determined by their join: there is no other way to split. */
  lemma PiecesUnique(s: seq<byte>, p: seq<seq<byte>>, d: byte)
    requires p != [] && Free(p, d) && Join(p, d) == s
    ensures p == Pieces(s, d)
  {
    PiecesJoin(p, d);
  }

  /** aoStrSplit undoes a join exactly when there is one piece or the first is not empty. */
  lemma SplitUndoesJoinIff(p: seq<seq<byte>>, d: byte)
    requires p != [] && Free(p, d)
    ensures Pieces(Trimmed(Join(p, d), d), d) == p <==> |p| == 1 || p[0] != []
  {
    var s := Join(p, d);
    PiecesJoin(p, d);
    assert d !in p[0];
    if |p| > 1 && p[0] == [] {
      assert s[1..] == Join(p[1..], d);
      PiecesJoin(p[1..], d);
    } else if s != [] && s[0] == d {
      assert false;
    }
  }

  /** Nothing is lost: joined, the pieces are the string, but for one delimiter at the very front. */
  lemma SplitKeeps(s: seq<byte>, d: byte)
    ensures var p := Pieces(Trimmed(s, d), d);
            Free(p, d) && if s != [] && s[0] == d then [d] + Join(p, d) == s else Join(p, d) == s
  {
    JoinPieces(Trimmed(s, d), d);
    PiecesAreFree(Trimmed(s, d), d);
  }

  /** A stretch without delimiters that has k delimiters before it and cannot be made longer. */
  ghost predicate Stretch(s: seq<byte>, d: byte, k: nat, start: nat, end: nat) {
    start <= end <= |s| && d !in s[start..end] && multiset(s[..start])[d] == k &&
    (start == 0 || s[start - 1] == d) && (end == |s| || s[end] == d)
  }

  /** Only the first stretch starts at the front. */
  lemma StretchFirst(s: seq<byte>, d: byte, k: nat, start: nat, end: nat)
    requires Stretch(s, d, k, start, end)
    ensures k == 0 <==> start == 0
  {
    if start > 0 {
      assert s[..start] == s[..start - 1] + [d];
    }
  }

  /** One more byte in front moves the stretch, or makes it longer. */
  lemma StretchMoves(s: seq<byte>, d: byte, k: nat, start: nat, end: nat)
    requires s != [] && Stretch(s[1..], d, k, start, end)
    ensures s[0] == d ==> Stretch(s, d, k + 1, start + 1, end + 1)
    ensures s[0] != d && k > 0 ==> Stretch(s, d, k, start + 1, end + 1)
    ensures s[0] != d && k == 0 ==> start == 0 && Stretch(s, d, 0, 0, end + 1)
  {
    StretchFirst(s[1..], d, k, start, end);
    CountBefore(s, d, start);
    SliceMoves(s, start, end);
    if s[0] != d && k == 0 {
      assert multiset(s[..0])[d] == 0;
    }
  }

  lemma CountBefore(s: seq<byte>, d: byte, n: nat)
    requires n < |s|
    ensures multiset(s[..n + 1])[d] == multiset(s[1..][..n])[d] + if s[0] == d then 1 else 0
  {
    assert s[..n + 1] == [s[0]] + s[1..][..n];
  }

  /** The k-th piece is the k-th stretch. */
  lemma {:induction false} PieceAt(s: seq<byte>, d: byte, k: nat) returns (start: nat, end: nat)
    requires k < |Pieces(s, d)|
    ensures Stretch(s, d, k, start, end) && Pieces(s, d)[k] == s[start..end]
  {
    hide Stretch, Pieces;
    PieceFrom(s, d, k);
    if s == [] || (s[0] == d && k == 0) {
      StretchEmpty(s, d, k);
      return 0, 0;
    }
    var j := if s[0] == d then k - 1 else k;
    var a, b := PieceAt(s[1..], d, j);
    StretchMoves(s, d, j, a, b);
    StretchInside(s[1..], d, j, a, b);
    SliceMoves(s, a, b);
    start, end := if s[0] != d && k == 0 then 0 else a + 1, b + 1;
  }

  lemma SliceMoves(s: seq<byte>, a: nat, b: nat)
    requires a <= b < |s|
    ensures s[a + 1..b + 1] == s[1..][a..b] && s[0..b + 1] == [s[0]] + s[1..][0..b]
  {
  }

  /** Where the k-th piece comes from: the pieces of the rest, the first of them one byte longer. */
  lemma PieceFrom(s: seq<byte>, d: byte, k: nat)
    requires k < |Pieces(s, d)|
    ensures s == [] || (s[0] == d && k == 0) ==> Pieces(s, d)[k] == []
    ensures s != [] && s[0] == d && k > 0 ==> k - 1 < |Pieces(s[1..], d)| && Pieces(s, d)[k] == Pieces(s[1..], d)[k - 1]
    ensures s != [] && s[0] != d ==>
              k < |Pieces(s[1..], d)| &&
              Pieces(s, d)[k] == if k == 0 then [s[0]] + Pieces(s[1..], d)[0] else Pieces(s[1..], d)[k]
  {
  }

  lemma StretchEmpty(s: seq<byte>, d: byte, k: nat)
    requires k < |Pieces(s, d)| && (s == [] || (s[0] == d && k == 0))
    ensures k == 0 && Stretch(s, d, 0, 0, 0) && s[0..0] == []
  {
  }

  lemma StretchInside(s: seq<byte>, d: byte, k: nat, start: nat, end: nat)
    requires Stretch(s, d, k, start, end)
    ensures start <= end <= |s|
  {
  }

  // ----- the loop -----

  /** The first `size` slots hold the pieces found so far. */
  ghost predicate Filled(slots: seq<AoStr?>, pieces: seq<seq<byte>>)
    reads slots, set i | 0 <= i < |slots| && slots[i] != null :: slots[i].data
  {
    |pieces| <= |slots| &&
    forall i :: 0 <= i < |pieces| ==> slots[i] != null && slots[i].Valid() && slots[i].Contents() == pieces[i]
  }

  /** With `found` taken, the piece under construction runs from start to end. */
  ghost predicate Underway(t: seq<byte>, d: byte, found: seq<seq<byte>>, start: nat, end: nat) {
    start <= end <= |t| && d !in t[start..end] && found + Pieces(t[start..], d) == Pieces(t, d)
  }

  lemma UnderwayStart(t: seq<byte>, d: byte)
    ensures Underway(t, d, [], 0, 0)
  {
  }

  /** A delimiter ends the piece and starts the next one; any other byte joins it. */
  lemma UnderwayNext(t: seq<byte>, d: byte, found: seq<seq<byte>>, start: nat, end: nat)
    requires Underway(t, d, found, start, end) && end < |t|
    ensures if t[end] == d then Underway(t, d, found + [t[start..end]], end + 1, end + 1)
            else Underway(t, d, found, start, end + 1)
  {
    if t[end] == d {
      PieceEnds(t, d, start, end);
      assert found + ([t[start..end]] + Pieces(t[end + 1..], d)) == found + [t[start..end]] + Pieces(t[end + 1..], d);
    } else {
      assert t[start..end + 1] == t[start..end] + [t[end]];
    }
  }

  /** At the end of the string it is the last piece. */
  lemma UnderwayEnd(t: seq<byte>, d: byte, found: seq<seq<byte>>, start: nat, end: nat)
    requires Underway(t, d, found, start, end) && end == |t|
    ensures found + [t[start..end]] == Pieces(t, d)
  {
    PieceEnds(t, d, start, end);
  }

  /** aoStrSplit: `text` is NUL-terminated; `count` strings are left at the front of the array. */
  method SplitText(text: seq<byte>, delimiter: byte) returns (outArr: array<AoStr?>, count: nat)
    requires NUL in text && delimiter != NUL
    ensures fresh(outArr) && count <= outArr.Length
    ensures Filled(outArr[..], Pieces(Trimmed(CString(text), delimiter), delimiter))
    ensures count == |Pieces(Trimmed(CString(text), delimiter), delimiter)|
  {
    hide Pieces, CString, Filled, Trimmed, Underway;
    ghost var s := CString(text);
    EndsInText(text, s);
    var toSplit := if text[0] == delimiter then 1 else 0;
    ghost var t := Trimmed(s, delimiter);
    TrimmedAt(text, s, delimiter);
    var memslot := 5;
    var ptr := toSplit;
    var start, end, arrsize := 0, 0, 0;
    outArr := new AoStr?[memslot](_ => null);
    ghost var found: seq<seq<byte>> := [];
    FilledNone(outArr[..]);
    UnderwayStart(t, delimiter);
    while text[ptr] != NUL
      invariant start <= end <= |t| && ptr == toSplit + end
      invariant fresh(outArr) && arrsize == |found| < memslot == outArr.Length
      invariant Filled(outArr[..], found)
      invariant Underway(t, delimiter, found, start, end)
      decreases |t| - end
    {
      if memslot < arrsize + 5 {
        memslot := memslot * 5;
        outArr := Enlarged(outArr, memslot, found);
      }
      PartOf(text, toSplit, |s|, start, end);
      if text[ptr] == delimiter {
        UnderwayNext(t, delimiter, found, start, end);
        AddPiece(outArr, arrsize, text[toSplit + start..toSplit + end], found);
        found := found + [t[start..end]];
        arrsize := arrsize + 1;
        start := end + 1;
      } else {
        UnderwayNext(t, delimiter, found, start, end);
      }
      end := end + 1;
      ptr := ptr + 1;
    }
    PartOf(text, toSplit, |s|, start, end);
    UnderwayEnd(t, delimiter, found, start, end);
    AddPiece(outArr, arrsize, text[toSplit + start..toSplit + end], found);
    count := arrsize + 1;
  }

  lemma FilledNone(slots: seq<AoStr?>)
    ensures Filled(slots, [])
  {
  }

  lemma EndsInText(text: seq<byte>, s: seq<byte>)
    requires NUL in text && s == CString(text)
    ensures |s| < |text|
  {
  }

  /** One more piece goes into the next free slot. */
  method AddPiece(outArr: array<AoStr?>, arrsize: nat, piece: seq<byte>, ghost found: seq<seq<byte>>)
    requires arrsize == |found| < outArr.Length && Filled(outArr[..], found)
    modifies outArr
    ensures Filled(outArr[..], found + [piece])
  {
    var str := new AoStr.DupRaw(piece, |piece|);
    outArr[arrsize] := str;
  }

  /** realloc of the slots. */
  method Enlarged(slots: array<AoStr?>, n: nat, ghost found: seq<seq<byte>>) returns (r: array<AoStr?>)
    requires slots.Length <= n && Filled(slots[..], found)
    ensures fresh(r) && r.Length == n && Filled(r[..], found)
  {
    r := new AoStr?[n](_ => null);
    forall i | 0 <= i < slots.Length {
      r[i] := slots[i];
    }
    assert r[..slots.Length] == slots[..];
  }

  /** The trimmed string as a stretch of the buffer. */
  lemma TrimmedAt(text: seq<byte>, s: seq<byte>, d: byte)
    requires s == CString(text) && |s| < |text| && d != NUL
    ensures var k := if text[0] == d then 1 else 0;
            k + |Trimmed(s, d)| == |s| && Trimmed(s, d) == text[k..|s|] && NUL !in text[k..|s|] && text[|s|] == NUL
  {
  }

  lemma PartOf(text: seq<byte>, k: nat, n: nat, start: nat, end: nat)
    requires start <= end && k + end <= n <= |text|
    ensures text[k..n][start..end] == text[k + start..k + end]
  {
    var a, b := text[k..n][start..end], text[k + start..k + end];
    assert |a| == |b| && forall i :: 0 <= i < |a| ==> a[i] == b[i];
  }

  /** At a delimiter, or at the end, the piece under construction is complete. */
  lemma PieceEnds(t: seq<byte>, d: byte, start: nat, end: nat)
    requires start <= end <= |t| && d !in t[start..end]
    ensures end < |t| && t[end] == d ==> Pieces(t[start..], d) == [t[start..end]] + Pieces(t[end + 1..], d)
    ensures end == |t| ==> Pieces(t[start..], d) == [t[start..end]]
  {
    var u, n := t[start..], end - start;
    assert u[..n] == t[start..end];
    FirstPiece(u, d, n);
    if end < |t| {
      assert u[n] == t[end];
      assert u[n + 1..] == t[end + 1..];
    } else {
      assert u == t[start..end];
    }
  }
}
