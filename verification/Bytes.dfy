/**
 Bytes, C strings and the C-library classifications the string code relies on.
 A byte is kept as its unsigned value; `Signed` is its value as a plain (signed) char.
 */
module Bytes {
  type byte = b: int | 0 <= b < 256
  type uint32 = n: int | 0 <= n < 0x1_0000_0000

  const NUL: byte := 0

  /** The value of a byte read through a signed char. */
  function Signed(b: byte): int {
    if b < 128 then b else b - 256
  }

  /** A signed char converted to unsigned int: negative values wrap modulo 2^32. */
  function Widen(b: byte): uint32 {
    if b < 128 then b else b + 0xFFFF_FF00
  }

  /** The signed value is the one in range that is the same modulo 256; widening keeps it modulo 2^32. */
  lemma SignedMeans(b: byte)
    ensures -128 <= Signed(b) < 128 && (b - Signed(b)) % 256 == 0
    ensures (Widen(b) - Signed(b)) % 0x1_0000_0000 == 0
  {
  }

  /** tolower in the C locale. */
  function ToLower(b: byte): byte {
    if 'A' as int <= b <= 'Z' as int then b + 32 else b
  }

  /** Letter by letter: the capitals fold, and nothing else does. */
  lemma ToLowerMeans(b: byte)
    ensures ToLower('A' as int) == 'a' as int && ToLower('B' as int) == 'b' as int
    ensures ToLower('C' as int) == 'c' as int && ToLower('D' as int) == 'd' as int
    ensures ToLower('E' as int) == 'e' as int && ToLower('F' as int) == 'f' as int
    ensures ToLower('G' as int) == 'g' as int && ToLower('H' as int) == 'h' as int
    ensures ToLower('I' as int) == 'i' as int && ToLower('J' as int) == 'j' as int
    ensures ToLower('K' as int) == 'k' as int && ToLower('L' as int) == 'l' as int
    ensures ToLower('M' as int) == 'm' as int && ToLower('N' as int) == 'n' as int
    ensures ToLower('O' as int) == 'o' as int && ToLower('P' as int) == 'p' as int
    ensures ToLower('Q' as int) == 'q' as int && ToLower('R' as int) == 'r' as int
    ensures ToLower('S' as int) == 's' as int && ToLower('T' as int) == 't' as int
    ensures ToLower('U' as int) == 'u' as int && ToLower('V' as int) == 'v' as int
    ensures ToLower('W' as int) == 'w' as int && ToLower('X' as int) == 'x' as int
    ensures ToLower('Y' as int) == 'y' as int && ToLower('Z' as int) == 'z' as int
    ensures b as char !in {'A', 'B', 'C', 'D', 'E', 'F', 'G', 'H', 'I', 'J', 'K', 'L', 'M',
                           'N', 'O', 'P', 'Q', 'R', 'S', 'T', 'U', 'V', 'W', 'X', 'Y', 'Z'} ==>
              ToLower(b) == b
  {
  }

  function Lowered(s: seq<byte>): (r: seq<byte>)
    ensures |r| == |s| && forall i :: 0 <= i < |s| ==> r[i] == ToLower(s[i])
  {
    seq(|s|, i requires 0 <= i < |s| => ToLower(s[i]))
  }

  predicate IsDigit(b: byte) {
    '0' as int <= b <= '9' as int
  }

  lemma IsDigitMeans(b: byte)
    ensures IsDigit(b) <==> b as char in {'0', '1', '2', '3', '4', '5', '6', '7', '8', '9'}
  {
  }

  /** The part of a buffer a NUL-terminated scan sees: everything before the first NUL. */
  function CString(s: seq<byte>): (r: seq<byte>)
    ensures |r| <= |s| && r == s[..|r|]
    ensures NUL !in r
    ensures |r| < |s| ==> s[|r|] == NUL
  {
    if s == [] || s[0] == NUL then [] else [s[0]] + CString(s[1..])
  }

  /** `CString` is the only prefix with its three properties. */
  lemma CStringUnique(s: seq<byte>, n: nat)
    requires n <= |s| && NUL !in s[..n]
    requires n < |s| ==> s[n] == NUL
    ensures CString(s) == s[..n]
  {
  }

  /** A string literal as bytes. */
  function Ascii(s: string): (r: seq<byte>)
    requires forall i :: 0 <= i < |s| ==> s[i] < 256 as char
    ensures |r| == |s| && forall i :: 0 <= i < |s| ==> r[i] == s[i] as int
  {
    seq(|s|, i requires 0 <= i < |s| => s[i] as int)
  }
}
