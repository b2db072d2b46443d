/** The bitwise operators of C on 32-bit words, computed on the binary digits. */
module Bits {
  import opened Words

  /** The binary digit `i` of a number. */
  predicate Bit(x: nat, i: nat) {
    if i == 0 then x % 2 == 1 else Bit(x / 2, i - 1)
  }

  /** The operators of C on a single digit; the complement is that of the first operand. */
  datatype Operator = AndOp | OrOp | XorOp | NotOp {
    predicate Combine(p: bool, q: bool) {
      match this
      case AndOp => p && q
      case OrOp => p || q
      case XorOp => p != q
      case NotOp => !p
    }
  }

  /** The number whose `n` low digits combine those of `x` and `y`. */
  function Bitwise(op: Operator, x: nat, y: nat, n: nat): (r: nat)
    ensures r < Pow2(n)
  {
    if n == 0 then 0
    else 2 * Bitwise(op, x / 2, y / 2, n - 1) + if op.Combine(x % 2 == 1, y % 2 == 1) then 1 else 0
  }

  function OnWords(op: Operator, x: Word, y: Word): Word {
    Pow2OfWidth();
    Bitwise(op, x, y, 32)
  }

  function And(x: Word, y: Word): Word { OnWords(AndOp, x, y) }

  function Or(x: Word, y: Word): Word { OnWords(OrOp, x, y) }

  function Xor(x: Word, y: Word): Word { OnWords(XorOp, x, y) }

  function Not(x: Word): Word { OnWords(NotOp, x, x) }

  lemma {:induction false} BitOfBitwise(op: Operator, x: nat, y: nat, n: nat, i: nat)
    requires i < n
    ensures Bit(Bitwise(op, x, y, n), i) == op.Combine(Bit(x, i), Bit(y, i))
  {
    if i > 0 {
      BitOfBitwise(op, x / 2, y / 2, n - 1, i - 1);
    }
  }

  /** Each operator acts on every digit by itself. */
  lemma BitOfOperators(x: Word, y: Word, i: nat)
    requires i < 32
    ensures Bit(And(x, y), i) == (Bit(x, i) && Bit(y, i))
    ensures Bit(Or(x, y), i) == (Bit(x, i) || Bit(y, i))
    ensures Bit(Xor(x, y), i) == (Bit(x, i) != Bit(y, i))
    ensures Bit(Not(x), i) == !Bit(x, i)
  {
    hide Bit, Bitwise;
    BitOfBitwise(AndOp, x, y, 32, i);
    BitOfBitwise(OrOp, x, y, 32, i);
    BitOfBitwise(XorOp, x, y, 32, i);
    BitOfBitwise(NotOp, x, x, 32, i);
  }

  /** Words with the same digits are equal. */
  lemma {:induction false} SameBits(x: nat, y: nat, n: nat)
    requires x < Pow2(n) && y < Pow2(n)
    requires forall i :: 0 <= i < n ==> Bit(x, i) == Bit(y, i)
    ensures x == y
  {
    if n > 0 {
      assert Bit(x, 0) == Bit(y, 0);
      forall i | 0 <= i < n - 1
        ensures Bit(x / 2, i) == Bit(y / 2, i)
      {
        assert Bit(x, i + 1) == Bit(y, i + 1);
      }
      SameBits(x / 2, y / 2, n - 1);
    }
  }

  /** The binary digits of a number by division. */
  lemma {:induction false} BitIsDigit(x: nat, i: nat)
    ensures Bit(x, i) <==> x / Pow2(i) % 2 == 1
  {
    if i > 0 {
      BitIsDigit(x / 2, i - 1);
      DivideTwice(x, 2, Pow2(i - 1));
    }
  }

  // Operators on numbers put together from an upper and a lower part.

  function Joined(high: nat, low: nat, k: nat): nat {
    high * Pow2(k) + low
  }

  lemma HalfOfJoined(high: nat, low: nat, k: nat)
    requires k > 0 && low < Pow2(k)
    ensures Joined(high, low, k) / 2 == Joined(high, low / 2, k - 1) && low / 2 < Pow2(k - 1)
    ensures Joined(high, low, k) % 2 == low % 2
  {
    var shifted := high * Pow2(k - 1);
    assert high * Pow2(k) == 2 * shifted;
  }

  lemma DoubleJoined(high: nat, low: nat, digit: nat, k: nat)
    requires k > 0
    ensures 2 * Joined(high, low, k - 1) + digit == Joined(high, 2 * low + digit, k)
  {
  }

  /** The lower `k` digits and the upper `n` digits are combined by themselves. */
  lemma {:induction false} BitwiseOfJoined(op: Operator, x1: nat, x0: nat, y1: nat, y0: nat, n: nat, k: nat)
    requires x0 < Pow2(k) && y0 < Pow2(k)
    ensures Bitwise(op, Joined(x1, x0, k), Joined(y1, y0, k), n + k)
         == Joined(Bitwise(op, x1, y1, n), Bitwise(op, x0, y0, k), k)
    decreases k
  {
    if k > 0 {
      hide Bitwise, Pow2, Joined;
      HalfOfJoined(x1, x0, k);
      HalfOfJoined(y1, y0, k);
      LastDigit(op, Joined(x1, x0, k), Joined(y1, y0, k), n + k);
      LastDigit(op, x0, y0, k);
      BitwiseOfJoined(op, x1, x0 / 2, y1, y0 / 2, n, k - 1);
      var digit := if op.Combine(x0 % 2 == 1, y0 % 2 == 1) then 1 else 0;
      DoubleJoined(Bitwise(op, x1, y1, n), Bitwise(op, x0 / 2, y0 / 2, k - 1), digit, k);
    }
  }

  lemma LastDigit(op: Operator, x: nat, y: nat, n: nat)
    requires n > 0
    ensures Bitwise(op, x, y, n)
         == 2 * Bitwise(op, x / 2, y / 2, n - 1) + if op.Combine(x % 2 == 1, y % 2 == 1) then 1 else 0
  {
  }

  lemma {:induction false} WithZeros(x: nat, n: nat)
    requires x < Pow2(n)
    ensures Bitwise(OrOp, x, 0, n) == Bitwise(OrOp, 0, x, n) == Bitwise(XorOp, x, 0, n) == x
    ensures Bitwise(AndOp, x, 0, n) == 0
  {
    if n > 0 {
      WithZeros(x / 2, n - 1);
    }
  }

  lemma HalfOfOnes(p: nat)
    requires p > 0
    ensures (2 * p - 1) / 2 == p - 1 && (2 * p - 1) % 2 == 1
  {
  }

  lemma {:induction false} WithOnes(x: nat, n: nat)
    requires x < Pow2(n)
    ensures Bitwise(AndOp, x, Pow2(n) - 1, n) == x
  {
    if n > 0 {
      var ones := Pow2(n) - 1;
      HalfOfOnes(Pow2(n - 1));
      WithOnes(x / 2, n - 1);
      assert Bitwise(AndOp, x, ones, n) == 2 * Bitwise(AndOp, x / 2, ones / 2, n - 1) + x % 2;
      hide Bitwise, Pow2;
    }
  }

  lemma {:induction false} WithComplement(x: nat, n: nat)
    requires x < Pow2(n)
    ensures Bitwise(NotOp, x, x, n) == Pow2(n) - 1 - x
    ensures Bitwise(AndOp, x, Pow2(n) - 1 - x, n) == 0
  {
    if n > 0 {
      assert (Pow2(n) - 1 - x) / 2 == Pow2(n - 1) - 1 - x / 2;
      WithComplement(x / 2, n - 1);
    }
  }

  /** The "or" of digits at different places is their sum. */
  lemma OrOfDisjoint(high: nat, low: nat, n: nat, k: nat)
    requires high < Pow2(n) && low < Pow2(k)
    ensures Bitwise(OrOp, high * Pow2(k), low, n + k) == high * Pow2(k) + low
  {
    hide Bitwise, Pow2;
    BitwiseOfJoined(OrOp, high, 0, 0, low, n, k);
    WithZeros(high, n);
    WithZeros(low, k);
  }

  /** Digits cut off by a mask of `k` ones. */
  lemma AndOfOnes(high: nat, low: nat, n: nat, k: nat)
    requires high < Pow2(n) && low < Pow2(k)
    ensures Bitwise(AndOp, high * Pow2(k) + low, Pow2(k) - 1, n + k) == low
  {
    hide Bitwise, Pow2;
    BitwiseOfJoined(AndOp, high, low, 0, Pow2(k) - 1, n, k);
    WithZeros(high, n);
    WithOnes(low, k);
  }

  /** A mask of `k` ones keeps the remainder modulo 2^k. */
  lemma AndOfMask(x: Word, mask: Word, k: nat)
    requires k <= 32 && mask == Pow2(k) - 1
    ensures And(x, mask) == x % Pow2(k)
  {
    var high, low, p, q := RotateSplit(x, 32 - k);
    hide Bitwise, Pow2;
    assert 32 - (32 - k) == k;
    AndOfOnes(high, low, 32 - k, k);
  }

  lemma QuotientShrinks(x: nat, q: nat)
    requires q > 0
    ensures 0 <= x / q <= x
  {
    DivMod(x, q);
    MulMonotone(1, q, x / q);
  }

  function ShiftRight(x: Word, n: nat): Word {
    QuotientShrinks(x, Pow2(n));
    x / Pow2(n)
  }

  /** The code's rotation: both shifts, combined by "or". */
  function RotateByShifts(x: Word, n: nat): Word
    requires 0 < n < 32
  {
    Or(ShiftLeft(x, n), ShiftRight(x, 32 - n))
  }

  lemma RotateByShiftsRotates(x: Word, n: nat)
    requires 0 < n < 32
    ensures RotateByShifts(x, n) == RotateLeft(x, n)
  {
    hide Bitwise, Pow2;
    Pow2OfWidth();
    var high, low, p, q := RotateSplit(x, n);
    RotateDigits(high, low, p, q);
    DigitsUnique(high, low, q);
    assert ShiftLeft(x, n) == low * p && ShiftRight(x, 32 - n) == high;
    OrOfDisjoint(low, high, 32 - n, n);
  }
}
