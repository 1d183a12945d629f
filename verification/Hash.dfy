/**
 The default hash of the map (hmap.c 16-28): shifts and wrapping 32-bit arithmetic over signed chars.
 */
module Hash {
  import opened Bytes

  const WORD: int := 0x1_0000_0000

  /** 31 to the power n. */
  function Power31(n: nat): nat {
    if n == 0 then 1 else 31 * Power31(n - 1)
  }

  /** The characters as the digits, possibly negative, of a number in base 31; unbounded. */
  function Polynomial(s: seq<byte>): int {
    if s == [] then 0 else 31 * Polynomial(s[..|s| - 1]) + Signed(s[|s| - 1])
  }

  /** One character is its own value; with PolynomialConcat this determines the number of every string. */
  lemma PolynomialSingle(b: byte)
    ensures Polynomial([]) == 0 && Polynomial([b]) == Signed(b)
    ensures Power31(0) == 1 && Power31(1) == 31
  {
    assert [b][..0] == [];
  }

  /** The default hash, as a function. */
  function StringHash(key: seq<byte>): uint32 {
    Polynomial(key) % WORD
  }

  /** hashString on a C string: the base-31 number, modulo 2^32. */
  method HashString(key: seq<byte>) returns (h: uint32)
    requires NUL !in key
    ensures h == Polynomial(key) % 0x1_0000_0000 == StringHash(key)
  {
    h := if key == [] then 0 else Widen(key[0]);
    if h != 0 {
      assert key[..1] == [key[0]];
      assert Polynomial(key[..1]) == 31 * Polynomial([]) + Signed(key[0]);
      for i := 1 to |key|
        invariant h == Polynomial(key[..i]) % WORD
      {
        assert key[..i + 1][..i] == key[..i];
        ShiftStep(h, Polynomial(key[..i]), key[i]);
        h := ((32 * h) % WORD - h + Widen(key[i])) % WORD;
      }
      assert key[..|key|] == key;
    }
  }

  /** One turn of the loop: a wrapped shift left by five, less the hash, plus the widened char. */
  lemma ShiftStep(h: uint32, p: int, b: byte)
    requires h == p % WORD
    ensures ((32 * h) % WORD - h + Widen(b)) % WORD == (31 * p + Signed(b)) % WORD
  {
    var k, m := p / WORD, (32 * h) / WORD;
    var x := if b < 128 then 0 else 1;
    assert p == h + WORD * k && (32 * h) % WORD == 32 * h - WORD * m && Widen(b) == Signed(b) + WORD * x;
    Wraps(31 * p + Signed(b), x - m - 31 * k);
  }

  lemma Wraps(a: int, k: int)
    ensures (a + WORD * k) % WORD == a % WORD
  {
  }

  lemma ConcatStep(x: int, w: int, y: int, c: int)
    ensures 31 * (x * w + y) + c == x * (31 * w) + (31 * y + c)
  {
  }

  /** The number of a concatenation: the first part moves up by the length of the second. */
  lemma {:induction false} PolynomialConcat(a: seq<byte>, b: seq<byte>)
    ensures Polynomial(a + b) == Polynomial(a) * Power31(|b|) + Polynomial(b)
    decreases |b|
  {
    if b == [] {
      assert a + b == a;
    } else {
      var c := b[..|b| - 1];
      assert (a + b)[..|a + b| - 1] == a + c;
      PolynomialConcat(a, c);
      ConcatStep(Polynomial(a), Power31(|c|), Polynomial(c), Signed(b[|b| - 1]));
    }
  }
}
