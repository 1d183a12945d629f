/**
 Bit-level facts about unsigned arithmetic that the hash map relies on.
 */
module Bits {
  /** x & y on non-negative integers. */
  function BitAnd(x: nat, y: nat): (r: nat)
    ensures r <= y
  {
    if x == 0 || y == 0 then 0
    else 2 * BitAnd(x / 2, y / 2) + if x % 2 == 1 && y % 2 == 1 then 1 else 0
  }

  ghost predicate IsPowerOfTwo(n: nat) {
    n == 1 || (n > 1 && n % 2 == 0 && IsPowerOfTwo(n / 2))
  }

  /** Masking with one less than a power of two takes the remainder, so every bucket is reachable. */
  lemma {:induction false} MaskIsRemainder(x: nat, n: nat)
    requires IsPowerOfTwo(n)
    ensures BitAnd(x, n - 1) == x % n
    decreases n
  {
    if n > 1 {
      var h := n / 2;
      MaskIsRemainder(x / 2, h);
      assert (n - 1) / 2 == h - 1 && (n - 1) % 2 == 1;
      HalvedRemainder(x, h);
      if x == 0 {
        assert 0 % n == 0;
      }
    }
  }

  /** The remainder by 2h from the remainder of the half by h. */
  lemma HalvedRemainder(x: nat, h: nat)
    requires h > 0
    ensures x % (2 * h) == 2 * (x / 2 % h) + x % 2
  {
    var q, r := x / 2 / h, x / 2 % h;
    assert x / 2 == q * h + r;
    assert x == 2 * (q * h + r) + x % 2;
    assert x == q * (2 * h) + (2 * r + x % 2);
    RemainderUnique(x, 2 * h, q, 2 * r + x % 2);
  }

  lemma RemainderUnique(x: nat, n: nat, q: nat, r: nat)
    requires n > 0 && r < n && x == q * n + r
    ensures x % n == r
  {
    QuotientGap(q, r, x / n, x % n, n);
  }

  /** Quotient and remainder are unique. */
  lemma QuotientGap(q: int, r: nat, d: int, e: nat, n: nat)
    requires r < n && e < n && q * n + r == d * n + e
    ensures q == d && r == e
  {
    var k := q - d;
    assert k * n == q * n - d * n == e - r;
    assert k >= 1 ==> k * n >= n;
    assert k <= -1 ==> k * n + n <= 0;
  }

  lemma DoublePower(n: nat)
    requires IsPowerOfTwo(n)
    ensures IsPowerOfTwo(2 * n)
  {
  }

  /** Between two powers of two there is at least a factor of two. */
  lemma {:induction false} PowerGap(m: nat, n: nat)
    requires IsPowerOfTwo(m) && IsPowerOfTwo(n) && m < n
    ensures 2 * m <= n
    decreases n
  {
    if m > 1 {
      PowerGap(m / 2, n / 2);
    }
  }

  /** Of a word of ones, masking keeps all the bits of the mask. */
  lemma {:induction false} AllOnes(x: nat, n: nat)
    requires IsPowerOfTwo(x + 1) && IsPowerOfTwo(n) && n <= x + 1
    ensures BitAnd(x, n - 1) == n - 1
    decreases n
  {
    if n > 1 {
      AllOnes(x / 2, n / 2);
    }
  }

  /** Exactly one bit set. */
  predicate OneBit(b: bv32) {
    b != 0 && b & (b - 1) == 0
  }

  /** roundup32bit: smear the top bit down, then add one. */
  method RoundUp32(n: bv32) returns (num: bv32)
    ensures 0 < n <= 0x8000_0000 ==> OneBit(num) && num >= n && (num >> 1) < n
    ensures n == 0 || n > 0x8000_0000 ==> num == 0
  {
    num := n - 1;
    num := num | (num >> 1);
    num := num | (num >> 2);
    num := num | (num >> 4);
    num := num | (num >> 8);
    num := num | (num >> 16);
    num := num + 1;
  }

  /** A word up to 2^16 with one bit set is a power of two as an integer. */
  lemma OneBitPower(b: bv32)
    requires OneBit(b) && b <= 0x1_0000
    ensures IsPowerOfTwo(b as nat) && b as nat <= 0x1_0000
  {
    assert b == 1 || b == 2 || b == 4 || b == 8 || b == 16 || b == 32 || b == 64 || b == 128 || b == 256 ||
           b == 512 || b == 1024 || b == 2048 || b == 4096 || b == 8192 || b == 16384 || b == 32768 || b == 65536;
    PowersOfTwo();
  }

  lemma PowersOfTwo()
    ensures IsPowerOfTwo(1) && IsPowerOfTwo(2) && IsPowerOfTwo(4) && IsPowerOfTwo(8) && IsPowerOfTwo(16)
    ensures IsPowerOfTwo(32) && IsPowerOfTwo(64) && IsPowerOfTwo(128) && IsPowerOfTwo(256) && IsPowerOfTwo(512)
    ensures IsPowerOfTwo(1024) && IsPowerOfTwo(2048) && IsPowerOfTwo(4096) && IsPowerOfTwo(8192)
    ensures IsPowerOfTwo(16384) && IsPowerOfTwo(32768) && IsPowerOfTwo(65536)
  {
  }

  lemma LargestPower()
    ensures IsPowerOfTwo(0x8000_0000)
  {
    PowersOfTwo();
    DoublePower(0x1_0000);
    DoublePower(0x2_0000);
    DoublePower(0x4_0000);
    DoublePower(0x8_0000);
    DoublePower(0x10_0000);
    DoublePower(0x20_0000);
    DoublePower(0x40_0000);
    DoublePower(0x80_0000);
    DoublePower(0x100_0000);
    DoublePower(0x200_0000);
    DoublePower(0x400_0000);
    DoublePower(0x800_0000);
    DoublePower(0x1000_0000);
    DoublePower(0x2000_0000);
    DoublePower(0x4000_0000);
  }
}
