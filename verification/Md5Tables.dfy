/** Laws of the three tables of MD5: word order, rotations and constants. */
module Md5Tables {
  import opened Words
  import opened Md5Spec

  lemma StrideModulo(x: nat, stride: nat)
    ensures (x + stride) % 16 == (x % 16 + stride) % 16
  {
  }

  /** Each round starts at its own word and goes through the block with its own stride. */
  lemma WordStrides(k: StepNo)
    ensures WordIndex(0) == 0 && WordIndex(16) == 1 && WordIndex(32) == 5 && WordIndex(48) == 0
    ensures k < 16 ==> WordIndex(k) == k
    ensures 16 <= k < 31 ==> WordIndex(k + 1) == (WordIndex(k) + 5) % 16
    ensures 32 <= k < 47 ==> WordIndex(k + 1) == (WordIndex(k) + 3) % 16
    ensures 48 <= k < 63 ==> WordIndex(k + 1) == (WordIndex(k) + 7) % 16
  {
    StrideModulo(5 * k + 1, 5);
    StrideModulo(3 * k + 5, 3);
    StrideModulo(7 * k, 7);
  }

  /** So each round uses every word, once: the step at which it does is found by the inverse stride. */
  lemma EachRoundUsesEveryWord(k: StepNo)
    ensures k % 16 == match k / 16
      case 0 => WordIndex(k)
      case 1 => 13 * (WordIndex(k) + 15) % 16
      case 2 => 11 * (WordIndex(k) + 11) % 16
      case 3 => 7 * WordIndex(k) % 16
  {
    var (q1, q2, q3) := ((5 * k + 1) / 16, (3 * k + 5) / 16, 7 * k / 16);
    SixteensDropOut(13 * ((5 * k + 1) % 16 + 15), 4 * k + 13 - 13 * q1, k);
    SixteensDropOut(11 * ((3 * k + 5) % 16 + 11), 2 * k + 11 - 11 * q2, k);
    SixteensDropOut(7 * (7 * k % 16), 3 * k - 7 * q3, k);
  }

  lemma SixteensDropOut(x: nat, q: int, k: nat)
    requires x == k + 16 * q
    ensures x % 16 == k % 16
  {
  }

  /** The rotations repeat every four steps within a round. */
  lemma Rotations(k: StepNo)
    ensures k / 16 == 0 ==> Shift(k) == 7 + 5 * (k % 4)
    ensures k / 16 == 1 ==> 2 * Shift(k) == (k % 4) * (k % 4) + 7 * (k % 4) + 10
    ensures k / 16 == 2 ==> Shift(k) == if k % 4 < 2 then 4 + 7 * (k % 4) else 2 + 7 * (k % 4)
    ensures k / 16 == 3 ==> 2 * Shift(k) == (k % 4) * (k % 4) + 7 * (k % 4) + 12
  {
  }

  // The constants are the integer parts of 2^32 times the absolute sines of 1 to 64, in radians.

  /** The sign of the sine of `n`, for `n` up to 64; 355/113 stands for the half period. */
  function SineSign(n: nat): int {
    if n * 113 / 355 % 2 == 0 then 1 else -1
  }

  /** The constant of `n` with its sign, that of 0 being 0. */
  function SignedSine(n: nat): int
    requires n <= STEPS
  {
    if n == 0 then 0 else SineSign(n) * Sine(n - 1)
  }

  /** Twice the cosine of 1, times 2^48. */
  const TWICE_COSINE: nat := 0x114a280fb5068

  /** Three values as sin(n - 1) + sin(n + 1) == 2 cos(1) sin(n) relates them, up to rounding. */
  ghost predicate SineRelation(before: int, value: int, after: int) {
    -0x2_0000_0000_0000 < (before + after) * 0x1_0000_0000_0000 - TWICE_COSINE * value < 0x2_0000_0000_0000
  }

  ghost predicate NearSine(n: int) {
    0 < n < STEPS ==> SineRelation(SignedSine(n - 1), SignedSine(n), SignedSine(n + 1))
  }

  lemma Sines1()
    ensures NearSine(1) && NearSine(2) && NearSine(3) && NearSine(4)
  {
    assert SineRelation(SignedSine(0), SignedSine(1), SignedSine(2));
    assert SineRelation(SignedSine(1), SignedSine(2), SignedSine(3));
    assert SineRelation(SignedSine(2), SignedSine(3), SignedSine(4));
    assert SineRelation(SignedSine(3), SignedSine(4), SignedSine(5));
    hide SignedSine, SineRelation;
  }

  lemma Sines5()
    ensures NearSine(5) && NearSine(6) && NearSine(7) && NearSine(8)
  {
    assert SineRelation(SignedSine(4), SignedSine(5), SignedSine(6));
    assert SineRelation(SignedSine(5), SignedSine(6), SignedSine(7));
    assert SineRelation(SignedSine(6), SignedSine(7), SignedSine(8));
    assert SineRelation(SignedSine(7), SignedSine(8), SignedSine(9));
    hide SignedSine, SineRelation;
  }

  lemma Sines9()
    ensures NearSine(9) && NearSine(10) && NearSine(11) && NearSine(12)
  {
    assert SineRelation(SignedSine(8), SignedSine(9), SignedSine(10));
    assert SineRelation(SignedSine(9), SignedSine(10), SignedSine(11));
    assert SineRelation(SignedSine(10), SignedSine(11), SignedSine(12));
    assert SineRelation(SignedSine(11), SignedSine(12), SignedSine(13));
    hide SignedSine, SineRelation;
  }

  lemma Sines13()
    ensures NearSine(13) && NearSine(14) && NearSine(15) && NearSine(16)
  {
    assert SineRelation(SignedSine(12), SignedSine(13), SignedSine(14));
    assert SineRelation(SignedSine(13), SignedSine(14), SignedSine(15));
    assert SineRelation(SignedSine(14), SignedSine(15), SignedSine(16));
    assert SineRelation(SignedSine(15), SignedSine(16), SignedSine(17));
    hide SignedSine, SineRelation;
  }

  lemma Sines17()
    ensures NearSine(17) && NearSine(18) && NearSine(19) && NearSine(20)
  {
    assert SineRelation(SignedSine(16), SignedSine(17), SignedSine(18));
    assert SineRelation(SignedSine(17), SignedSine(18), SignedSine(19));
    assert SineRelation(SignedSine(18), SignedSine(19), SignedSine(20));
    assert SineRelation(SignedSine(19), SignedSine(20), SignedSine(21));
    hide SignedSine, SineRelation;
  }

  lemma Sines21()
    ensures NearSine(21) && NearSine(22) && NearSine(23) && NearSine(24)
  {
    assert SineRelation(SignedSine(20), SignedSine(21), SignedSine(22));
    assert SineRelation(SignedSine(21), SignedSine(22), SignedSine(23));
    assert SineRelation(SignedSine(22), SignedSine(23), SignedSine(24));
    assert SineRelation(SignedSine(23), SignedSine(24), SignedSine(25));
    hide SignedSine, SineRelation;
  }

  lemma Sines25()
    ensures NearSine(25) && NearSine(26) && NearSine(27) && NearSine(28)
  {
    assert SineRelation(SignedSine(24), SignedSine(25), SignedSine(26));
    assert SineRelation(SignedSine(25), SignedSine(26), SignedSine(27));
    assert SineRelation(SignedSine(26), SignedSine(27), SignedSine(28));
    assert SineRelation(SignedSine(27), SignedSine(28), SignedSine(29));
    hide SignedSine, SineRelation;
  }

  lemma Sines29()
    ensures NearSine(29) && NearSine(30) && NearSine(31) && NearSine(32)
  {
    assert SineRelation(SignedSine(28), SignedSine(29), SignedSine(30));
    assert SineRelation(SignedSine(29), SignedSine(30), SignedSine(31));
    assert SineRelation(SignedSine(30), SignedSine(31), SignedSine(32));
    assert SineRelation(SignedSine(31), SignedSine(32), SignedSine(33));
    hide SignedSine, SineRelation;
  }

  lemma Sines33()
    ensures NearSine(33) && NearSine(34) && NearSine(35) && NearSine(36)
  {
    assert SineRelation(SignedSine(32), SignedSine(33), SignedSine(34));
    assert SineRelation(SignedSine(33), SignedSine(34), SignedSine(35));
    assert SineRelation(SignedSine(34), SignedSine(35), SignedSine(36));
    assert SineRelation(SignedSine(35), SignedSine(36), SignedSine(37));
    hide SignedSine, SineRelation;
  }

  lemma Sines37()
    ensures NearSine(37) && NearSine(38) && NearSine(39) && NearSine(40)
  {
    assert SineRelation(SignedSine(36), SignedSine(37), SignedSine(38));
    assert SineRelation(SignedSine(37), SignedSine(38), SignedSine(39));
    assert SineRelation(SignedSine(38), SignedSine(39), SignedSine(40));
    assert SineRelation(SignedSine(39), SignedSine(40), SignedSine(41));
    hide SignedSine, SineRelation;
  }

  lemma Sines41()
    ensures NearSine(41) && NearSine(42) && NearSine(43) && NearSine(44)
  {
    assert SineRelation(SignedSine(40), SignedSine(41), SignedSine(42));
    assert SineRelation(SignedSine(41), SignedSine(42), SignedSine(43));
    assert SineRelation(SignedSine(42), SignedSine(43), SignedSine(44));
    assert SineRelation(SignedSine(43), SignedSine(44), SignedSine(45));
    hide SignedSine, SineRelation;
  }

  lemma Sines45()
    ensures NearSine(45) && NearSine(46) && NearSine(47) && NearSine(48)
  {
    assert SineRelation(SignedSine(44), SignedSine(45), SignedSine(46));
    assert SineRelation(SignedSine(45), SignedSine(46), SignedSine(47));
    assert SineRelation(SignedSine(46), SignedSine(47), SignedSine(48));
    assert SineRelation(SignedSine(47), SignedSine(48), SignedSine(49));
    hide SignedSine, SineRelation;
  }

  lemma Sines49()
    ensures NearSine(49) && NearSine(50) && NearSine(51) && NearSine(52)
  {
    assert SineRelation(SignedSine(48), SignedSine(49), SignedSine(50));
    assert SineRelation(SignedSine(49), SignedSine(50), SignedSine(51));
    assert SineRelation(SignedSine(50), SignedSine(51), SignedSine(52));
    assert SineRelation(SignedSine(51), SignedSine(52), SignedSine(53));
    hide SignedSine, SineRelation;
  }

  lemma Sines53()
    ensures NearSine(53) && NearSine(54) && NearSine(55) && NearSine(56)
  {
    assert SineRelation(SignedSine(52), SignedSine(53), SignedSine(54));
    assert SineRelation(SignedSine(53), SignedSine(54), SignedSine(55));
    assert SineRelation(SignedSine(54), SignedSine(55), SignedSine(56));
    assert SineRelation(SignedSine(55), SignedSine(56), SignedSine(57));
    hide SignedSine, SineRelation;
  }

  lemma Sines57()
    ensures NearSine(57) && NearSine(58) && NearSine(59) && NearSine(60)
  {
    assert SineRelation(SignedSine(56), SignedSine(57), SignedSine(58));
    assert SineRelation(SignedSine(57), SignedSine(58), SignedSine(59));
    assert SineRelation(SignedSine(58), SignedSine(59), SignedSine(60));
    assert SineRelation(SignedSine(59), SignedSine(60), SignedSine(61));
    hide SignedSine, SineRelation;
  }

  lemma Sines61()
    ensures NearSine(61) && NearSine(62) && NearSine(63)
  {
    assert SineRelation(SignedSine(60), SignedSine(61), SignedSine(62));
    assert SineRelation(SignedSine(61), SignedSine(62), SignedSine(63));
    assert SineRelation(SignedSine(62), SignedSine(63), SignedSine(64));
    hide SignedSine, SineRelation;
  }

  /**
   The constants follow the recurrence of the sine all the way, and the first of them and the cosine
   lie on the unit circle, to the precision of the table.
   */
  lemma ConstantsAreSines()
    ensures forall n :: 0 < n < STEPS ==> NearSine(n)
    ensures var (s, c) := (Sine(0) as int, TWICE_COSINE as int);
      -0x8_0000_0000_0000_0000 < s * s * 0x4_0000_0000 + c * c - 0x4_0000_0000_0000_0000_0000_0000
        < 0x8_0000_0000_0000_0000
  {
    Sines1(); Sines5(); Sines9(); Sines13(); Sines17(); Sines21(); Sines25(); Sines29();
    Sines33(); Sines37(); Sines41(); Sines45(); Sines49(); Sines53(); Sines57(); Sines61();
    hide NearSine;
  }
}
