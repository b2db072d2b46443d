/**
 Unsigned machine words and the two byte orders of the repository.

 A word is a natural number below 2^32; wrap-around, shifts and rotation are written out with
 division and remainder.
 */
module Words {
  const WORD_RANGE: nat := 0x1_0000_0000
  const LONG_RANGE: nat := 0x1_0000_0000_0000_0000

  type Byte = b: nat | b < 0x100
  type Short = w: nat | w < 0x1_0000
  type Word = w: nat | w < 0x1_0000_0000
  type Long = w: nat | w < 0x1_0000_0000_0000_0000

  /** Addition of unsigned 32-bit integers: the carry out of bit 31 is lost. */
  function Add(x: nat, y: nat): Word {
    (x + y) % WORD_RANGE
  }

  /** Subtraction of unsigned 32-bit integers. */
  function Sub(x: Word, y: Word): Word {
    (x - y) % WORD_RANGE
  }

  lemma AddToSum(x: nat, y: nat)
    ensures Add(x % WORD_RANGE, y) == Add(x, y) && Add(y, x % WORD_RANGE) == Add(y, x)
  {
  }

  lemma SubUndoesAdd(x: Word, y: nat)
    ensures Sub(Add(x, y), y % WORD_RANGE) == x
  {
  }

  lemma AddUndoesSub(x: Word, y: nat)
    ensures Add(Sub(x, y % WORD_RANGE), y) == x
  {
  }

  function Pow2(n: nat): (p: nat)
    ensures p > 0
  {
    if n == 0 then 1 else 2 * Pow2(n - 1)
  }

  lemma {:induction false} Pow2Sum(m: nat, n: nat)
    ensures Pow2(m) * Pow2(n) == Pow2(m + n)
  {
    if m > 0 {
      Pow2Sum(m - 1, n);
      assert Pow2(m) * Pow2(n) == 2 * (Pow2(m - 1) * Pow2(n));
    }
  }

  lemma MulMonotone(x: nat, y: nat, q: nat)
    requires x <= y
    ensures x * q <= y * q
  {
  }

  /** One step of Horner's rule, with the weight of its place. */
  lemma HornerStep(value: nat, high: nat, m: nat, low: nat, p: nat, weight: nat)
    requires value == high * m + low && weight == m * p
    ensures value * p == high * weight + low * p
  {
    assert (high * m + low) * p == high * (m * p) + low * p;
  }

  lemma MulSucc(x: nat, q: nat)
    ensures (x + 1) * q == x * q + q
  {
  }

  /** A number splits uniquely into a high digit and a low digit below `q`. */
  lemma QuotientUnique(d: nat, r: nat, high: nat, low: nat, q: nat)
    requires low < q && r < q
    requires d * q + r == high * q + low
    ensures d == high && r == low
  {
    if d < high {
      MulMonotone(d + 1, high, q);
      MulSucc(d, q);
    } else if high < d {
      MulMonotone(high + 1, d, q);
      MulSucc(high, q);
    }
  }

  lemma DivMod(x: nat, q: nat)
    requires q > 0
    ensures x == (x / q) * q + x % q && 0 <= x % q < q && 0 <= x / q
  {
  }

  lemma DigitsUnique(high: nat, low: nat, q: nat)
    requires low < q
    ensures (high * q + low) / q == high && (high * q + low) % q == low
  {
    var x := high * q + low;
    DivMod(x, q);
    QuotientUnique(x / q, x % q, high, low, q);
  }

  lemma DivideTwice(x: nat, m: nat, q: nat)
    requires m > 0 && q > 0
    ensures x / m / q == x / (m * q)
  {
    var (a, r) := (x / m, x % m);
    var (b, s) := (a / q, a % q);
    DivMod(x, m);
    DivMod(a, q);
    assert x == b * (m * q) + (s * m + r) by {
      assert (b * q + s) * m == b * (m * q) + s * m;
    }
    MulMonotone(s + 1, q, m);
    MulSucc(s, m);
    DigitsUnique(b, s * m + r, m * q);
  }

  /**
   What rotation does to the digits of a word: with `p == 2^n` and `q == 2^(32-n)`, the word
   `high * q + low` becomes `low * p + high`.
   */
  lemma RotateDigits(high: nat, low: nat, p: nat, q: nat)
    requires high < p && low < q && p * q == WORD_RANGE
    ensures high * q + low < WORD_RANGE && low * p + high < WORD_RANGE
    ensures ((high * q + low) * p) % WORD_RANGE + (high * q + low) / q == low * p + high
  {
    assert high * q + low <= (p - 1) * q + low < p * q;
    assert low * p + high <= (q - 1) * p + high < p * q;
    assert low * p <= (q - 1) * p < WORD_RANGE;
    calc {
      (high * q + low) * p;
      high * (q * p) + low * p;
      high * WORD_RANGE + low * p;
    }
    DigitsUnique(high, low * p, WORD_RANGE);
    DigitsUnique(high, low, q);
  }

  lemma Pow2OfWidth()
    ensures Pow2(32) == WORD_RANGE
  {
    assert Pow2(8) == 0x100;
    Pow2Sum(8, 8);
    assert Pow2(16) == 0x1_0000;
    Pow2Sum(16, 16);
  }

  lemma Pow2Complement(n: nat)
    requires n <= 32
    ensures Pow2(n) * Pow2(32 - n) == WORD_RANGE
  {
    Pow2Sum(n, 32 - n);
    Pow2OfWidth();
  }

  /** The upper `n` and the lower `32 - n` bits of a word. */
  lemma RotateSplit(x: Word, n: nat) returns (high: nat, low: nat, p: nat, q: nat)
    requires n <= 32
    ensures p == Pow2(n) && q == Pow2(32 - n) && p * q == WORD_RANGE
    ensures high == x / q && low == x % q
    ensures x == high * q + low && high < p && low < q
  {
    Pow2Complement(n);
    p, q := Pow2(n), Pow2(32 - n);
    high, low := x / q, x % q;
    DivMod(x, q);
    if high >= p {
      MulMonotone(p, high, q);
    }
  }

  lemma RotateInRange(x: Word, n: nat)
    requires 0 < n < 32
    ensures 0 <= (x * Pow2(n)) % WORD_RANGE + x / Pow2(32 - n) < WORD_RANGE
  {
    var high, low, p, q := RotateSplit(x, n);
    RotateDigits(high, low, p, q);
  }

  /** Left shift of an unsigned 32-bit number. */
  function ShiftLeft(x: Word, n: nat): Word {
    x * Pow2(n) % WORD_RANGE
  }

  /** Circular left shift; Bits.RotateByShiftsRotates shows that it is the "or" of the code's two shifts. */
  function RotateLeft(x: Word, n: nat): Word
    requires 0 < n < 32
  {
    RotateInRange(x, n);
    (x * Pow2(n)) % WORD_RANGE + x / Pow2(32 - n)
  }

  /** The lower 32 - n bits move up by `n` and the upper `n` bits come in below them. */
  lemma RotateMovesUp(high: nat, low: nat, n: nat)
    requires 0 < n < 32 && high < Pow2(n) && low < Pow2(32 - n)
    ensures high * Pow2(32 - n) + low < WORD_RANGE
    ensures RotateLeft(high * Pow2(32 - n) + low, n) == low * Pow2(n) + high
  {
    Pow2Complement(n);
    RotateDigits(high, low, Pow2(n), Pow2(32 - n));
  }

  /** Rotating by `n` and then by `32 - n` is the identity. */
  lemma RotateInverse(x: Word, n: nat)
    requires 0 < n < 32
    ensures RotateLeft(RotateLeft(x, n), 32 - n) == x
  {
    var high, low, p, q := RotateSplit(x, n);
    RotateDigits(high, low, p, q);
    RotateDigits(low, high, q, p);
    assert 32 - (32 - n) == n;
  }
}
