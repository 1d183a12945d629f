/**
 String escaping (aostr.c 352-400). The test for printable bytes is made on signed chars, so bytes
 from 128 up take the same path as control bytes and print as eight hex digits instead of four.
 */
module Escape {
  import opened Bytes
  import opened AoString

  const QUOTE: byte := 34
  const BACKSLASH: byte := 92
  const LOWER_U: byte := 117

  // ----- the code of one byte -----

  function HexDigit(d: int): (c: byte)
    requires 0 <= d < 16
  {
    if d < 10 then 48 + d else 87 + d
  }

  /** %x */
  function Hex(n: uint32): (s: seq<byte>)
    ensures s != []
  {
    if n < 16 then [HexDigit(n)] else Hex(n / 16) + [HexDigit(n % 16)]
  }

  /** %04x: never cut, only padded. */
  function Hex4(n: uint32): seq<byte> {
    var s := Hex(n);
    if |s| < 4 then seq(4 - |s|, _ => 48 as byte) + s else s
  }

  predicate IsPlain(b: byte) {
    Signed(b) > 31 && b != QUOTE && b != BACKSLASH
  }

  /** What follows the backslash of a byte that is not plain. */
  function Tail(b: byte): (t: seq<byte>)
    ensures t != []
  {
    if b == BACKSLASH then [BACKSLASH]
    else if b == QUOTE then [QUOTE]
    else if b == 8 then Ascii("b")
    else if b == 10 then Ascii("n")
    else if b == 9 then Ascii("t")
    else if b == 11 then Ascii("v")
    else if b == 12 then Ascii("f")
    else if b == 13 then Ascii("r")
    else [LOWER_U] + Hex4(Widen(b))
  }

  function Code(b: byte): (c: seq<byte>)
    ensures c != []
  {
    if IsPlain(b) then [b] else [BACKSLASH] + Tail(b)
  }

  function Escaped(s: seq<byte>): seq<byte> {
    if s == [] then [] else Code(s[0]) + Escaped(s[1..])
  }

  /** aoStrEscapeString: the input is read as a C string; the buffer always has room to spare. */
  method EscapeString(buf: AoStr) returns (outstr: AoStr)
    requires buf.Valid() && buf.Terminated()
    ensures fresh(outstr) && outstr.Valid() && outstr.len < outstr.capacity
    ensures outstr.Contents() == Escaped(CString(buf.data[..]))
  {
    hide Escaped, CString, Tail, Code;
    outstr := new AoStr(buf.capacity);
    var i := 0;
    ghost var s := CString(buf.data[..]);
    EscapedEmpty(s);
    ScanStops(buf, s);
    while buf.data[i] != NUL
      invariant i <= |s| < buf.data.Length && buf.data[..] == old(buf.data[..]) && fresh(outstr) && fresh(outstr.data)
      invariant outstr.Valid() && outstr.len < outstr.capacity
      invariant outstr.Contents() == Escaped(s[..i])
      decreases |s| - i
    {
      var c := buf.data[i];
      EscapedNext(s, i);
      PutCode(outstr, c);
      i := i + 1;
    }
    assert s[..i] == s;
  }

  /** The body of the loop: a plain byte as it is, any other behind a backslash. */
  method PutCode(outstr: AoStr, c: byte)
    requires outstr.Valid() && outstr.len < outstr.capacity
    modifies outstr, outstr.data
    ensures outstr.Valid() && outstr.len < outstr.capacity
    ensures outstr.Contents() == old(outstr.Contents()) + Code(c)
    ensures outstr.data == old(outstr.data) || fresh(outstr.data)
  {
    hide Tail;
    if Signed(c) > 31 && c != QUOTE && c != BACKSLASH {
      outstr.PutChar(c);
    } else {
      outstr.PutChar(BACKSLASH);
      PutTail(outstr, c);
    }
  }

  /** The switch on a byte that needs escaping. */
  method PutTail(outstr: AoStr, c: byte)
    requires outstr.Valid() && outstr.len < outstr.capacity
    modifies outstr, outstr.data
    ensures outstr.Valid() && outstr.len < outstr.capacity
    ensures outstr.Contents() == old(outstr.Contents()) + Tail(c)
    ensures outstr.data == old(outstr.data) || fresh(outstr.data)
  {
    hide Hex4, Ascii;
    Hex4Short(Widen(c));
    LetterCodes();
    match c {
      case 92 => outstr.PutChar(BACKSLASH);
      case 34 => outstr.PutChar(QUOTE);
      case 8 => outstr.PutChar(98);
      case 10 => outstr.PutChar(110);
      case 9 => outstr.PutChar(116);
      case 11 => outstr.PutChar(118);
      case 12 => outstr.PutChar(102);
      case 13 => outstr.PutChar(114);
      case _ =>
        outstr.CatLen([LOWER_U] + Hex4(Widen(c)));
    }
  }

  lemma LetterCodes()
    ensures Ascii("b") == [98] && Ascii("n") == [110] && Ascii("t") == [116]
    ensures Ascii("v") == [118] && Ascii("f") == [102] && Ascii("r") == [114]
  {
  }

  /** A C string ends at the first NUL of its buffer. */
  lemma ScanStops(buf: AoStr, s: seq<byte>)
    requires buf.Valid() && buf.Terminated() && s == CString(buf.data[..])
    ensures |s| < buf.data.Length && buf.data[|s|] == NUL
    ensures forall i :: 0 <= i < |s| ==> buf.data[i] == s[i] && s[i] != NUL
  {
  }

  lemma EscapedEmpty(s: seq<byte>)
    ensures Escaped(s[..0]) == [] && s[..|s|] == s
  {
  }

  /** Escaping one byte more appends its code. */
  lemma {:induction false} EscapedNext(s: seq<byte>, i: nat)
    requires i < |s|
    ensures Escaped(s[..i + 1]) == Escaped(s[..i]) + Code(s[i])
    decreases i
  {
    hide Code;
    if i > 0 {
      assert s[..i + 1][1..] == s[1..][..i] && s[..i][1..] == s[1..][..i - 1];
      EscapedNext(s[1..], i - 1);
    } else {
      assert s[..1][1..] == [];
    }
  }

  // ----- hexadecimal -----

  lemma HexStep(n: uint32)
    requires n >= 16
    ensures Hex(n) == Hex(n / 16) + [HexDigit(n % 16)]
  {
  }

  lemma {:induction false} HexLength(n: uint32, k: nat)
    requires k > 0 && n < Power16(k)
    ensures |Hex(n)| <= k
    decreases k
  {
    if n < 16 {
      assert Hex(n) == [HexDigit(n)];
    } else {
      HexStep(n);
      QuotientBelow(n, Power16(k - 1));
      HexLength(n / 16, k - 1);
    }
  }

  lemma QuotientBelow(n: nat, m: nat)
    requires n < 16 * m
    ensures n / 16 < m
  {
  }

  function Power16(k: nat): nat {
    if k == 0 then 1 else 16 * Power16(k - 1)
  }

  lemma Hex4Short(n: uint32)
    ensures 4 <= |Hex4(n)| <= 8
  {
    assert Power16(4) == 0x1_0000;
    assert Power16(8) == 0x1_0000_0000;
    HexLength(n, 8);
  }

  /** The hex form of a control byte: two zeros and its own two digits. */
  lemma ControlHex(b: byte)
    requires b < 32
    ensures Hex4(Widen(b)) == [48, 48, HexDigit(b / 16), HexDigit(b % 16)]
  {
  }

  /** The hex form of a byte from 128 up: six f's from the sign, then its own two digits. */
  lemma HighHex(b: byte)
    requires b >= 128
    ensures Hex4(Widen(b)) == [102, 102, 102, 102, 102, 102, HexDigit(b / 16), HexDigit(b % 16)]
  {
    var n := b + 0xFFFF_FF00;
    HexStep(n);
    HexStep(n / 16);
    assert n / 16 / 16 == 0xFF_FFFF && n % 16 == b % 16 && n / 16 % 16 == b / 16;
    HexStep(0xFF_FFFF);
    HexStep(0xF_FFFF);
    HexStep(0xFFFF);
    HexStep(0xFFF);
    HexStep(0xFF);
  }

  predicate HasLetter(b: byte) {
    b in {BACKSLASH, QUOTE, 8, 10, 9, 11, 12, 13}
  }

  /** The hex digits after `\\u`, for the bytes that have no letter of their own. */
  function Digits(b: byte): seq<byte> {
    (if b < 32 then [48, 48] else [102, 102, 102, 102, 102, 102]) + [HexDigit(b / 16), HexDigit(b % 16)]
  }

  /** The four kinds of code. */
  lemma CodeForms(b: byte)
    ensures IsPlain(b) ==> Code(b) == [b]
    ensures HasLetter(b) ==> |Tail(b)| == 1 && Named(Tail(b)[0]) == b && 32 <= Tail(b)[0] < 128 && Tail(b)[0] != LOWER_U
    ensures HasLetter(b) ==> Code(b) == [BACKSLASH, Tail(b)[0]]
    ensures !IsPlain(b) && !HasLetter(b) ==> (b < 32 || b >= 128) && Code(b) == [BACKSLASH, LOWER_U] + Digits(b)
  {
    LetterCodes();
    if b < 32 {
      ControlHex(b);
    } else if b >= 128 {
      HighHex(b);
    }
  }

  const HEX_DIGITS: string := "0123456789abcdef"

  lemma HexDigitMeans(d: int)
    requires 0 <= d < 16
    ensures HexDigit(d) == HEX_DIGITS[d] as int
  {
    assert HEX_DIGITS[0] == '0' && HEX_DIGITS[1] == '1' && HEX_DIGITS[2] == '2' && HEX_DIGITS[3] == '3';
    assert HEX_DIGITS[4] == '4' && HEX_DIGITS[5] == '5' && HEX_DIGITS[6] == '6' && HEX_DIGITS[7] == '7';
    assert HEX_DIGITS[8] == '8' && HEX_DIGITS[9] == '9' && HEX_DIGITS[10] == 'a' && HEX_DIGITS[11] == 'b';
    assert HEX_DIGITS[12] == 'c' && HEX_DIGITS[13] == 'd' && HEX_DIGITS[14] == 'e' && HEX_DIGITS[15] == 'f';
  }

  /** The code of every byte, character by character. */
  lemma CodeMeans(b: byte)
    ensures b == 92 ==> Code(b) == ['\\' as int, '\\' as int]
    ensures b == 34 ==> Code(b) == ['\\' as int, '\"' as int]
    ensures b == 8 ==> Code(b) == ['\\' as int, 'b' as int]
    ensures b == 10 ==> Code(b) == ['\\' as int, 'n' as int]
    ensures b == 9 ==> Code(b) == ['\\' as int, 't' as int]
    ensures b == 11 ==> Code(b) == ['\\' as int, 'v' as int]
    ensures b == 12 ==> Code(b) == ['\\' as int, 'f' as int]
    ensures b == 13 ==> Code(b) == ['\\' as int, 'r' as int]
    ensures 32 <= b < 128 && b != 92 && b != 34 ==> Code(b) == [b]
    ensures b < 32 && b !in {8, 9, 10, 11, 12, 13} ==>
              Code(b) == ['\\' as int, 'u' as int, '0' as int, '0' as int,
                          HEX_DIGITS[b / 16] as int, HEX_DIGITS[b % 16] as int]
    ensures b >= 128 ==>
              Code(b) == ['\\' as int, 'u' as int, 'f' as int, 'f' as int, 'f' as int, 'f' as int, 'f' as int, 'f' as int,
                          HEX_DIGITS[b / 16] as int, HEX_DIGITS[b % 16] as int]
  {
    hide Tail, Hex4, HexDigit, Ascii;
    CodeForms(b);
    TailLetters();
    HexDigitMeans(b / 16);
    HexDigitMeans(b % 16);
  }

  lemma TailLetters()
    ensures Tail(92) == [92] && Tail(34) == [34] && Tail(8) == [98] && Tail(10) == [110]
    ensures Tail(9) == [116] && Tail(11) == [118] && Tail(12) == [102] && Tail(13) == [114]
  {
    LetterCodes();
  }

  /** The output is the codes of the bytes one after another. */
  lemma {:induction false} EscapedConcat(s: seq<byte>, t: seq<byte>)
    ensures Escaped([]) == [] && Escaped(s + t) == Escaped(s) + Escaped(t)
    ensures forall b: byte :: Escaped([b]) == Code(b)
  {
    hide Code;
    if s == [] {
      assert s + t == t;
    } else {
      EscapedConcat(s[1..], t);
      assert (s + t)[1..] == s[1..] + t;
    }
    forall b: byte ensures Escaped([b]) == Code(b) {
      assert [b][1..] == [];
    }
  }

  // ----- the way back -----

  /** The value of a lower-case hex digit; 0 for anything else. */
  function DigitValue(c: byte): (v: int)
    ensures 0 <= v < 16
  {
    if 48 <= c <= 57 then c - 48 else if 97 <= c <= 102 then c - 87 else 0
  }

  /** The byte a letter after the backslash stands for. */
  function Named(c: byte): byte {
    if c == 98 then 8 else if c == 110 then 10 else if c == 116 then 9 else if c == 118 then 11
    else if c == 102 then 12 else if c == 114 then 13 else c
  }

  /**
   Reads one code at the front: how many bytes it takes and what it stands for. After `\u`, a first
   digit f announces eight digits and any other digit four.
   */
  function Read(e: seq<byte>): (r: (nat, byte))
    requires e != []
    ensures 0 < r.0 <= |e|
  {
    if e[0] != BACKSLASH || |e| == 1 then (1, e[0])
    else if e[1] != LOWER_U || |e| < 6 then (2, Named(e[1]))
    else if e[2] != 102 then (6, 16 * DigitValue(e[4]) + DigitValue(e[5]))
    else if |e| < 10 then (2, e[1])
    else (10, 16 * DigitValue(e[8]) + DigitValue(e[9]))
  }

  function Unescaped(e: seq<byte>): seq<byte>
    decreases |e|
  {
    if e == [] then [] else [Read(e).1] + Unescaped(e[Read(e).0..])
  }

  /** The codes are prefix-free: whatever follows, the code of a byte is read back as that byte. */
  lemma ReadCode(b: byte, rest: seq<byte>)
    requires b != NUL
    ensures Read(Code(b) + rest) == (|Code(b)|, b)
  {
    hide Code, Tail, Hex4, Widen, Ascii;
    CodeForms(b);
  }

  /** Escaping loses nothing: it has a left inverse on every string without NULs. */
  lemma {:induction false} UnescapedEscaped(s: seq<byte>)
    requires NUL !in s
    ensures Unescaped(Escaped(s)) == s
  {
    hide Code, Read;
    if s != [] {
      var rest := Escaped(s[1..]);
      ReadCode(s[0], rest);
      assert (Code(s[0]) + rest)[|Code(s[0])|..] == rest;
      UnescapedEscaped(s[1..]);
      assert s == [s[0]] + s[1..];
    }
  }

  // ----- what the output looks like -----

  /** Every byte is printable ASCII or DEL. */
  ghost predicate Printable(e: seq<byte>) {
    forall i :: 0 <= i < |e| ==> 32 <= e[i] < 128
  }

  /** Read pairwise after each backslash, no quote stands on its own and no backslash ends the text. */
  predicate QuotesEscaped(e: seq<byte>) {
    if e == [] then true
    else if e[0] == BACKSLASH then |e| > 1 && QuotesEscaped(e[2..])
    else e[0] != QUOTE && QuotesEscaped(e[1..])
  }

  lemma CodeIsClean(b: byte, rest: seq<byte>)
    requires b != NUL
    ensures Printable(Code(b))
    ensures QuotesEscaped(Code(b) + rest) <==> QuotesEscaped(rest)
  {
    hide Code, Tail, Hex4, Widen, Ascii;
    CodeForms(b);
    var e := Code(b) + rest;
    if IsPlain(b) {
      assert e[1..] == rest;
    } else if HasLetter(b) {
      assert e[2..] == rest;
    } else {
      HexPassed(Digits(b), rest);
      assert e[2..] == Digits(b) + rest;
    }
  }

  lemma {:induction false} HexPassed(digits: seq<byte>, rest: seq<byte>)
    requires forall i :: 0 <= i < |digits| ==> digits[i] != QUOTE && digits[i] != BACKSLASH
    ensures QuotesEscaped(digits + rest) <==> QuotesEscaped(rest)
  {
    if digits == [] {
      assert digits + rest == rest;
    } else {
      assert (digits + rest)[1..] == digits[1..] + rest;
      HexPassed(digits[1..], rest);
    }
  }

  /** The output has no byte below 32, no byte from 128 up, and no quote that could end a quoted text. */
  lemma {:induction false} EscapedIsClean(s: seq<byte>)
    requires NUL !in s
    ensures Printable(Escaped(s)) && QuotesEscaped(Escaped(s))
  {
    hide Code;
    if s != [] {
      EscapedIsClean(s[1..]);
      CodeIsClean(s[0], Escaped(s[1..]));
    }
  }
}
