/**
 MIME "Q" decoding in place (aostr.c 261-267 and 576-633). The decoder's input and output may be the
 same buffer: the write index never passes the read index, so what is still to be read is intact.
 Section 4.2 of RFC 2047 gives the `=XX` form; its rule for underscores is not implemented.
 */
module Mime {
  import opened Bytes
  import opened AoString
  import opened Sequences

  const EQ: byte := 61
  const PREFIX: seq<byte> := Ascii("=?utf-8?Q?")
  const SUFFIX: seq<byte> := Ascii("?=")

  /** hexToInt */
  function HexToInt(c: byte): (v: int)
    ensures -1 <= v < 16
  {
    if '0' as int <= c <= '9' as int then c - '0' as int
    else if 'A' as int <= c <= 'F' as int then c - 'A' as int + 10
    else if 'a' as int <= c <= 'f' as int then c - 'a' as int + 10
    else -1
  }

  predicate IsHex(c: byte) {
    c as char in {'0', '1', '2', '3', '4', '5', '6', '7', '8', '9', 'A', 'B', 'C', 'D', 'E', 'F', 'a', 'b', 'c', 'd', 'e', 'f'}
  }

  /** Digit by digit. */
  lemma HexToIntMeans(c: byte)
    ensures HexToInt('0' as int) == 0 && HexToInt('1' as int) == 1 && HexToInt('2' as int) == 2
    ensures HexToInt('3' as int) == 3 && HexToInt('4' as int) == 4 && HexToInt('5' as int) == 5
    ensures HexToInt('6' as int) == 6 && HexToInt('7' as int) == 7 && HexToInt('8' as int) == 8
    ensures HexToInt('9' as int) == 9 && HexToInt('A' as int) == 10 && HexToInt('B' as int) == 11
    ensures HexToInt('C' as int) == 12 && HexToInt('D' as int) == 13 && HexToInt('E' as int) == 14
    ensures HexToInt('F' as int) == 15 && HexToInt('a' as int) == 10 && HexToInt('b' as int) == 11
    ensures HexToInt('c' as int) == 12 && HexToInt('d' as int) == 13 && HexToInt('e' as int) == 14
    ensures HexToInt('f' as int) == 15
    ensures !IsHex(c) ==> HexToInt(c) == -1
  {
  }

  const UPPER: string := "0123456789ABCDEF"
  const LOWER: string := "0123456789abcdef"

  /** c is the hex digit of d, in either case. */
  predicate IsDigitOf(c: byte, d: int)
    requires 0 <= d < 16
  {
    c as char == UPPER[d] || c as char == LOWER[d]
  }

  /** The two tables and the decoder's arithmetic agree. */
  lemma DigitValue(c: byte, d: int)
    requires 0 <= d < 16
    ensures IsDigitOf(c, d) <==> HexToInt(c) == d
  {
    assert UPPER[0] == '0' && UPPER[1] == '1' && UPPER[2] == '2' && UPPER[3] == '3' && UPPER[4] == '4' && UPPER[5] == '5';
    assert UPPER[6] == '6' && UPPER[7] == '7' && UPPER[8] == '8' && UPPER[9] == '9' && UPPER[10] == 'A' && UPPER[11] == 'B';
    assert UPPER[12] == 'C' && UPPER[13] == 'D' && UPPER[14] == 'E' && UPPER[15] == 'F';
    assert LOWER[0] == '0' && LOWER[1] == '1' && LOWER[2] == '2' && LOWER[3] == '3' && LOWER[4] == '4' && LOWER[5] == '5';
    assert LOWER[6] == '6' && LOWER[7] == '7' && LOWER[8] == '8' && LOWER[9] == '9' && LOWER[10] == 'a' && LOWER[11] == 'b';
    assert LOWER[12] == 'c' && LOWER[13] == 'd' && LOWER[14] == 'e' && LOWER[15] == 'f';
  }

  /** s starts with '=' and two hex digits. */
  predicate StartsTriple(s: seq<byte>) {
    |s| >= 3 && s[0] == EQ && HexToInt(s[1]) != -1 && HexToInt(s[2]) != -1
  }

  /** The decoded form of a whole string: triples become bytes, everything else stands for itself. */
  function Decode(s: seq<byte>): (d: seq<byte>)
    ensures |d| <= |s|
  {
    if s == [] then []
    else if StartsTriple(s) then [16 * HexToInt(s[1]) + HexToInt(s[2])] + Decode(s[3..])
    else [s[0]] + Decode(s[1..])
  }

  /** The decoder in terms of characters: an equals sign and two digits stand for the byte they write. */
  lemma DecodeTriple(s: seq<byte>, h: int, l: int)
    requires 0 <= h < 16 && 0 <= l < 16
    requires |s| >= 3 && s[0] as char == '=' && IsDigitOf(s[1], h) && IsDigitOf(s[2], l)
    ensures Decode(s) == [(16 * h + l) as byte] + Decode(s[3..])
  {
    DigitValue(s[1], h);
    DigitValue(s[2], l);
    hide HexToInt, IsDigitOf;
  }

  /** Every other character stands for itself, an equals sign without two digits after it included. */
  lemma DecodeOther(s: seq<byte>)
    requires s != [] && (s[0] as char != '=' || |s| < 3 || !IsHex(s[1]) || !IsHex(s[2]))
    ensures Decode(s) == [s[0]] + Decode(s[1..])
  {
    if |s| >= 3 {
      HexToIntMeans(s[1]);
      HexToIntMeans(s[2]);
    }
    hide HexToInt, IsHex;
  }

  /** Decoding from position i: a triple takes three bytes, anything else one. */
  lemma DecodeAt(s: seq<byte>, i: nat)
    requires i < |s|
    ensures StartsTriple(s[i..]) ==>
              i + 3 <= |s| && Decode(s[i..]) == [16 * HexToInt(s[i + 1]) + HexToInt(s[i + 2])] + Decode(s[i + 3..])
    ensures !StartsTriple(s[i..]) ==> Decode(s[i..]) == [s[i]] + Decode(s[i + 1..])
  {
  }

  /** Looking two bytes ahead in a terminated buffer finds a triple exactly when the string has one there. */
  lemma Lookahead(s: seq<byte>, i: nat, first: byte, second: byte)
    requires i < |s| && s[i] == EQ
    requires first == if i + 1 < |s| then s[i + 1] else NUL
    requires i + 1 < |s| ==> second == if i + 2 < |s| then s[i + 2] else NUL
    ensures StartsTriple(s[i..]) <==> HexToInt(first) != -1 && HexToInt(second) != -1
  {
  }

  /**
   decodeMimeEncoded: the C string in `src` is decoded into `out`, which may be the same array. One
   byte past the terminator must be readable, because a final '=' looks two bytes ahead.
   */
  method DecodeInto(src: array<byte>, out: array<byte>, ghost n: nat) returns (outLen: nat)
    requires n + 1 < src.Length && src[n] == NUL && NUL !in src[..n] && n <= out.Length
    modifies out
    ensures outLen <= n && out[..outLen] == Decode(old(src[..n]))
    ensures forall x :: n <= x < out.Length ==> out[x] == old(out[x])
  {
    hide Decode, StartsTriple, HexToInt, CString;
    ghost var s := src[..n];
    ghost var done: seq<byte> := [];
    var len, i := 0, 0;
    assert s[0..] == s;
    while src[i] != NUL
      invariant len <= i <= n
      invariant forall x :: i <= x < src.Length ==> src[x] == old(src[x])
      invariant forall x :: n <= x < out.Length ==> out[x] == old(out[x])
      invariant |done| == len && forall x :: 0 <= x < len ==> out[x] == done[x]
      invariant done + Decode(s[i..]) == Decode(s)
      decreases n - i
    {
      assert i < n && src[i] == s[i];
      var b, next := src[i], i + 1;
      if src[i] == EQ {
        Lookahead(s, i, src[i + 1], src[i + 2]);
        var hi := HexToInt(src[i + 1]);
        var lo := HexToInt(src[i + 2]);
        if hi != -1 && lo != -1 {
          b, next := Nibbles(hi, lo), i + 3;
        }
      } else {
        NoTriple(s, i);
      }
      DecodeAt(s, i);
      Regroup(done, b, Decode(s[next..]));
      out[len] := b;
      done := done + [b];
      i := next;
      len := len + 1;
    }
    DecodeEnd(s, i);
    outLen := len;
  }

  /** (hi << 4) | lo */
  function Nibbles(hi: int, lo: int): (b: byte)
    requires 0 <= hi < 16 && 0 <= lo < 16
  {
    16 * hi + lo
  }

  lemma Regroup(a: seq<byte>, b: byte, c: seq<byte>)
    ensures a + ([b] + c) == a + [b] + c
  {
  }

  lemma NoTriple(s: seq<byte>, i: nat)
    requires i < |s| && s[i] != EQ
    ensures !StartsTriple(s[i..])
  {
  }

  lemma DecodeEnd(s: seq<byte>, i: nat)
    requires i == |s|
    ensures Decode(s[i..]) == []
  {
  }

  /** aoStrIsMimeEncoded on a terminated string: the prefix at the front and the suffix at the back, overlapping or not. */
  method IsMimeEncoded(buf: AoStr) returns (r: bool)
    requires buf.Valid() && buf.Terminated()
    ensures r <==> Marked(buf.Contents())
  {
    r := StartsWith(buf, 0, PREFIX);
    if r {
      r := StartsWith(buf, buf.len - 2, SUFFIX);
    }
  }

  /** strncmp(lit, data + at, |lit|) == 0 for a literal without NULs; it stops at the terminator. */
  method StartsWith(buf: AoStr, at: nat, lit: seq<byte>) returns (r: bool)
    requires buf.Valid() && buf.Terminated() && at <= buf.len && NUL !in lit
    ensures r <==> at + |lit| <= buf.len && buf.Contents()[at..at + |lit|] == lit
  {
    var i := 0;
    while i < |lit|
      invariant i <= |lit| && at + i <= buf.len
      invariant forall x :: 0 <= x < i ==> buf.data[at + x] == lit[x]
    {
      if buf.data[at + i] != lit[i] {
        if at + |lit| <= buf.len {
          assert buf.Contents()[at..at + |lit|][i] != lit[i];
        }
        return false;
      }
      assert lit[i] in lit;
      i := i + 1;
    }
    r := true;
  }

  predicate Marked(c: seq<byte>) {
    |c| >= 10 && c[..10] == PREFIX && c[|c| - 2..] == SUFFIX
  }

  /** The one marked string too short to hold a prefix and a suffix is the prefix with a final '='. */
  lemma MarkedButShort(c: seq<byte>)
    ensures Marked(c) && |c| < 12 <==> c == Ascii("=?utf-8?Q?=")
  {
    var odd := Ascii("=?utf-8?Q?=");
    if Marked(c) && |c| < 12 {
      assert c[..10][9] == PREFIX[9] && c[..10][8] == PREFIX[8];
      assert c[9..][1] == SUFFIX[1];
      forall i | 0 <= i < 11 ensures c[i] == odd[i] {
        if i < 10 {
          assert c[i] == c[..10][i];
        }
      }
    }
    assert odd[..10] == PREFIX && odd[9..] == SUFFIX;
  }

  /**
   aoStrDecodeMimeEncodedInplace: with room for the prefix and the suffix, the string becomes the
   decoded form of what was between them.
   */
  method DecodeInplace(buf: AoStr)
    requires buf.Valid() && buf.len >= 12
    modifies buf`len, buf.data
    ensures buf.Valid() && buf.Terminated()
    ensures buf.Contents() == Decode(CString(old(buf.Contents()[10..buf.len - 2])))
  {
    hide Decode, CString, Ascii;
    assert buf.Contents()[10..buf.len - 2] == buf.data[10..10 + (buf.len - 12)];
    buf.Slice(10, 0, buf.len - 10 - 2);
    ghost var s := CString(buf.Contents());
    TextEnds(buf.Contents(), s, buf.data[..]);
    var outLen := DecodeInto(buf.data, buf.data, |s|);
    buf.SetLen(outLen);
  }

  lemma TextEnds(contents: seq<byte>, s: seq<byte>, data: seq<byte>)
    requires s == CString(contents) && |contents| < |data| && data[..|contents|] == contents && data[|contents|] == NUL
    ensures |s| <= |contents| && data[|s|] == NUL && data[..|s|] == s && NUL !in s
  {
  }

  // ----- round trip -----

  /** c is one of the forms a byte may take: itself, unless it is '=' or NUL, or '=' and its two hex digits. */
  predicate IsForm(b: byte, c: seq<byte>) {
    (c == [b] && b as char != '=' && b != NUL) ||
    (|c| == 3 && c[0] as char == '=' && IsDigitOf(c[1], b / 16) && IsDigitOf(c[2], b % 16))
  }

  /** A form of a byte at the front decodes to that byte, and has no NUL in it. */
  lemma FormDecodes(b: byte, c: seq<byte>, rest: seq<byte>)
    requires IsForm(b, c)
    ensures Decode(c + rest) == [b] + Decode(rest) && NUL !in c
  {
    var e := c + rest;
    if |c| == 1 {
      assert e[1..] == rest && !StartsTriple(e);
    } else {
      DigitValue(c[1], b / 16);
      DigitValue(c[2], b % 16);
      assert e[3..] == rest && e[0] == c[0] && e[1] == c[1] && e[2] == c[2];
      assert 16 * (b / 16) + b % 16 == b;
    }
  }

  /** forms[i] is a form of s[i]. */
  ghost predicate Encodes(s: seq<byte>, forms: seq<seq<byte>>) {
    |forms| == |s| && forall i :: 0 <= i < |s| ==> IsForm(s[i], forms[i])
  }

  /** Whatever form each byte takes, decoding gives the bytes back, and the text has no NUL. */
  lemma {:induction false} DecodeEncoded(s: seq<byte>, forms: seq<seq<byte>>)
    requires Encodes(s, forms)
    ensures Decode(Flatten(forms)) == s && NUL !in Flatten(forms)
  {
    if s != [] {
      DecodeEncoded(s[1..], forms[1..]);
      FlattenCons(forms);
      var rest := Flatten(forms[1..]);
      var e := forms[0] + rest;
      FormDecodes(s[0], forms[0], rest);
      assert s == [s[0]] + s[1..];
    }
  }

  /** The whole encoded word, decoded in place: any bytes at all survive, zeros included. */
  method RoundTrip(buf: AoStr, ghost s: seq<byte>, ghost forms: seq<seq<byte>>)
    requires buf.Valid() && Encodes(s, forms) && buf.Contents() == PREFIX + Flatten(forms) + SUFFIX
    modifies buf`len, buf.data
    ensures buf.Valid() && buf.Contents() == s
  {
    DecodeEncoded(s, forms);
    assert buf.Contents()[10..buf.len - 2] == Flatten(forms);
    CStringUnique(Flatten(forms), |Flatten(forms)|);
    assert CString(Flatten(forms)) == Flatten(forms);
    hide Decode, CString, Flatten, Encodes;
    DecodeInplace(buf);
  }
}
