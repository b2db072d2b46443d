/**
 The string hashes.  A string is the sequence of its characters before the terminator, each taken as
 the 32-bit number that is added (so the signedness of char does not matter).
 */
module StringHashes {
  import opened Words
  import opened Bits

  // Polynomial hashes.

  function Power(m: nat, n: nat): nat {
    if n == 0 then 1 else m * Power(m, n - 1)
  }

  /** The characters as coefficients, evaluated at `m` by Horner's rule from `init`, without overflow. */
  function Horner(m: nat, init: nat, str: seq<Word>): nat {
    if str == [] then init
    else
      var n := |str| - 1;
      Horner(m, init, str[..n]) * m + str[n]
  }

  /** The terms of the first `k` of `n` characters. */
  function Terms(m: nat, str: seq<Word>, k: nat): nat
    requires k <= |str|
  {
    if k == 0 then 0 else Terms(m, str, k - 1) + str[k - 1] * Power(m, |str| - k)
  }

  lemma MulAssociates(x: nat, y: nat, z: nat)
    ensures x * y * z == x * (y * z)
  {
  }

  lemma MulPlus(x: nat, y: nat, m: nat)
    ensures (x + y) * m == x * m + y * m
  {
  }

  lemma {:induction false} HornerPrefix(m: nat, init: nat, str: seq<Word>, k: nat)
    requires k <= |str|
    ensures Horner(m, init, str[..k]) * Power(m, |str| - k) == init * Power(m, |str|) + Terms(m, str, k)
  {
    if k > 0 {
      HornerPrefix(m, init, str, k - 1);
      assert str[..k][..k - 1] == str[..k - 1];
      var (h, c, p) := (Horner(m, init, str[..k - 1]), str[k - 1] as nat, Power(m, |str| - k));
      assert Power(m, |str| - k + 1) == m * p;
      MulPlus(h * m, c, p);
      MulAssociates(h, m, p);
    }
  }

  /** Horner's rule is the polynomial: the initial value times m^n plus every character times its power. */
  lemma HornerIsPolynomial(m: nat, init: nat, str: seq<Word>)
    ensures Horner(m, init, str) == init * Power(m, |str|) + Terms(m, str, |str|)
  {
    HornerPrefix(m, init, str, |str|);
    assert str[..|str|] == str;
  }

  /** The first two characters, written out. */
  lemma FirstCharacters(m: nat, init: nat, a: Word, b: Word)
    ensures Horner(m, init, []) == init && Horner(m, init, [a]) == init * m + a
    ensures Horner(m, init, [a, b]) == (init * m + a) * m + b
    ensures RsExact([]) == 0 && RsExact([a]) == a && RsExact([a, b]) == a * (63689 * 378551) + b
  {
    assert [a, b][..1] == [a] && [a][..0] == [];
    assert RsExact([a]) == RsExact([]) * Multiplier(0) + a;
    assert RsExact([a, b]) == RsExact([a]) * Multiplier(1) + b;
    assert Power(378551, 1) == 378551 * Power(378551, 0);
  }

  // Congruences modulo 2^32.

  lemma ModDropsMultiple(k: nat, x: nat, m: nat)
    requires m > 0
    ensures (k * m + x) % m == x % m
  {
    DivMod(x, m);
    MulPlus(k, x / m, m);
    DigitsUnique(k + x / m, x % m, m);
  }

  lemma ModMul(x: nat, y: nat, m: nat)
    requires m > 0
    ensures (x % m) * (y % m) % m == x * y % m
  {
    var (p, q, r, s) := (x / m, y / m, x % m, y % m);
    DivMod(x, m);
    DivMod(y, m);
    var k := p * (q * m) + p * s + r * q;
    calc {
      x * y;
      (p * m + r) * (q * m + s);
      p * m * (q * m) + p * m * s + r * (q * m) + r * s;
      k * m + r * s;
    }
    ModDropsMultiple(k, r * s, m);
  }

  /** A Horner step may be taken on the residue. */
  lemma StepOnResidue(exact: nat, m: nat, c: nat)
    ensures ((exact % WORD_RANGE) * m + c) % WORD_RANGE == (exact * m + c) % WORD_RANGE
  {
    var (q, r) := (exact / WORD_RANGE, exact % WORD_RANGE);
    DivMod(exact, WORD_RANGE);
    calc {
      exact * m + c;
      (q * WORD_RANGE + r) * m + c;
      (q * m) * WORD_RANGE + (r * m + c);
    }
    ModDropsMultiple(q * m, r * m + c, WORD_RANGE);
  }

  lemma AddResidue(x: nat, y: nat)
    ensures Add(x, y % WORD_RANGE) == (x + y) % WORD_RANGE
    ensures Add(y % WORD_RANGE, x) == (x + y) % WORD_RANGE
  {
  }

  lemma SubResidue(x: nat, y: Word)
    requires y <= x
    ensures Sub(x % WORD_RANGE, y) == (x - y) % WORD_RANGE
  {
  }

  /** The final mask of every hash. */
  lemma LowBits(x: nat)
    ensures And(x % WORD_RANGE, 0x7FFF_FFFF) == x % 0x8000_0000
  {
    FoldPowers();
    hide And, Pow2;
    AndOfMask(x % WORD_RANGE, 0x7FFF_FFFF, 31);
  }

  lemma Powers()
    ensures Pow2(5) == 32 && Pow2(6) == 64 && Pow2(16) == 65536
  {
    Pow2Sum(8, 8);
  }

  method SDBMHash(str: seq<Word>) returns (r: Word)
    ensures r == Horner(65599, 0, str) % 0x8000_0000
  {
    var hash: Word := 0;
    var i := 0;
    while i < |str|
      invariant 0 <= i <= |str| && hash == Horner(65599, 0, str[..i]) % WORD_RANGE
    {
      assert str[..i + 1][..i] == str[..i];
      SdbmStep(Horner(65599, 0, str[..i]), hash, str[i]);
      hash := Sub(Add(Add(str[i], ShiftLeft(hash, 6)), ShiftLeft(hash, 16)), hash);
      i := i + 1;
    }
    assert str[..i] == str;
    LowBits(Horner(65599, 0, str));
    r := And(hash, 0x7FFF_FFFF);
  }

  lemma SdbmStep(exact: nat, hash: Word, c: Word)
    requires hash == exact % WORD_RANGE
    ensures Sub(Add(Add(c, ShiftLeft(hash, 6)), ShiftLeft(hash, 16)), hash) == (exact * 65599 + c) % WORD_RANGE
  {
    Powers();
    hide Add, Sub, Pow2;
    AddResidue(c, hash * 64);
    AddResidue(c + hash * 64, hash * 65536);
    assert (c + hash * 64) % WORD_RANGE == Add(c, ShiftLeft(hash, 6));
    AddBothResidues(c + hash * 64, hash * 65536);
    SubResidue(c + hash * 64 + hash * 65536, hash);
    StepOnResidue(exact, 65599, c);
  }

  lemma AddBothResidues(x: nat, y: nat)
    ensures Add(x % WORD_RANGE, y % WORD_RANGE) == (x + y) % WORD_RANGE
  {
  }

  method DJBHash(str: seq<Word>) returns (r: Word)
    ensures r == Horner(33, 5381, str) % 0x8000_0000
  {
    var hash: Word := 5381;
    var i := 0;
    while i < |str|
      invariant 0 <= i <= |str| && hash == Horner(33, 5381, str[..i]) % WORD_RANGE
    {
      assert str[..i + 1][..i] == str[..i];
      DjbStep(Horner(33, 5381, str[..i]), hash, str[i]);
      hash := Add(hash, Add(ShiftLeft(hash, 5), str[i]));
      i := i + 1;
    }
    assert str[..i] == str;
    LowBits(Horner(33, 5381, str));
    r := And(hash, 0x7FFF_FFFF);
  }

  lemma DjbStep(exact: nat, hash: Word, c: Word)
    requires hash == exact % WORD_RANGE
    ensures Add(hash, Add(ShiftLeft(hash, 5), c)) == (exact * 33 + c) % WORD_RANGE
  {
    Powers();
    hide Add, Pow2;
    AddResidue(c, hash * 32);
    AddResidue(hash, c + hash * 32);
    StepOnResidue(exact, 33, c);
  }

  method BKDRHash(str: seq<Word>) returns (r: Word)
    ensures r == Horner(131, 0, str) % 0x8000_0000
  {
    var seed: Word := 131;
    var hash: Word := 0;
    var i := 0;
    while i < |str|
      invariant 0 <= i <= |str| && hash == Horner(131, 0, str[..i]) % WORD_RANGE
    {
      assert str[..i + 1][..i] == str[..i];
      BkdrStep(Horner(131, 0, str[..i]), hash, str[i]);
      hash := Add(hash * seed % WORD_RANGE, str[i]);
      i := i + 1;
    }
    assert str[..i] == str;
    LowBits(Horner(131, 0, str));
    r := And(hash, 0x7FFF_FFFF);
  }

  lemma BkdrStep(exact: nat, hash: Word, c: Word)
    requires hash == exact % WORD_RANGE
    ensures Add(hash * 131 % WORD_RANGE, c) == (exact * 131 + c) % WORD_RANGE
  {
    hide Add;
    AddResidue(c, hash * 131);
    StepOnResidue(exact, 131, c);
  }

  // The hash with a changing multiplier.

  /** The multiplier before character `k`. */
  function Multiplier(k: nat): nat {
    63689 * Power(378551, k)
  }

  /** Each character enters after the hash so far is multiplied by that position's multiplier. */
  function RsExact(str: seq<Word>): nat {
    if str == [] then 0
    else
      var n := |str| - 1;
      RsExact(str[..n]) * Multiplier(n) + str[n]
  }

  /** The product of the `n` multipliers from position `from` on. */
  function Multipliers(from: nat, n: nat): nat
    decreases n
  {
    if n == 0 then 1 else Multiplier(from) * Multipliers(from + 1, n - 1)
  }

  /** The first `k` characters, each times the multipliers of all later positions. */
  function RsTerms(str: seq<Word>, k: nat): nat
    requires k <= |str|
  {
    if k == 0 then 0 else RsTerms(str, k - 1) + str[k - 1] * Multipliers(k, |str| - k)
  }

  lemma {:induction false} RsPrefix(str: seq<Word>, k: nat)
    requires k <= |str|
    ensures RsExact(str[..k]) * Multipliers(k, |str| - k) == RsTerms(str, k)
  {
    if k > 0 {
      hide Multiplier;
      RsPrefix(str, k - 1);
      assert str[..k][..k - 1] == str[..k - 1];
      var (h, c, p) := (RsExact(str[..k - 1]), str[k - 1] as nat, Multipliers(k, |str| - k));
      var m := Multiplier(k - 1);
      assert Multipliers(k - 1, |str| - k + 1) == m * p;
      MulPlus(h * m, c, p);
      MulAssociates(h, m, p);
    }
  }

  /** The recurrence with the changing multiplier is the sum of every character times all later multipliers. */
  lemma RsIsSum(str: seq<Word>)
    ensures RsExact(str) == RsTerms(str, |str|)
  {
    RsPrefix(str, |str|);
    assert str[..|str|] == str;
  }

  method RSHash(str: seq<Word>) returns (r: Word)
    ensures r == RsExact(str) % 0x8000_0000
  {
    hide Multiplier, Add;
    var b: Word, a: Word, hash: Word := 378551, 63689, 0;
    var i := 0;
    FirstMultiplier();
    while i < |str|
      invariant 0 <= i <= |str|
      invariant hash == RsExact(str[..i]) % WORD_RANGE
      invariant a == Multiplier(i) % WORD_RANGE
    {
      assert str[..i + 1][..i] == str[..i];
      RsStep(RsExact(str[..i]), Multiplier(i), hash, a, str[i]);
      hash := Add(hash * a % WORD_RANGE, str[i]);
      NextMultiplier(i, a);
      a := a * b % WORD_RANGE;
      i := i + 1;
    }
    assert str[..i] == str;
    LowBits(RsExact(str));
    r := And(hash, 0x7FFF_FFFF);
  }

  lemma RsStep(exact: nat, multiplier: nat, hash: Word, a: Word, c: Word)
    requires hash == exact % WORD_RANGE && a == multiplier % WORD_RANGE
    ensures Add(hash * a % WORD_RANGE, c) == (exact * multiplier + c) % WORD_RANGE
  {
    ModMul(exact, multiplier, WORD_RANGE);
    AddResidue(c, exact * multiplier);
  }

  lemma FirstMultiplier()
    ensures Multiplier(0) % WORD_RANGE == 63689
  {
  }

  lemma NextMultiplier(k: nat, a: Word)
    requires a == Multiplier(k) % WORD_RANGE
    ensures a * 378551 % WORD_RANGE == Multiplier(k + 1) % WORD_RANGE
  {
    StepOnResidue(Multiplier(k), 378551, 0);
    assert Multiplier(k + 1) == Multiplier(k) * 378551;
  }

  // The two hashes that fold the top nibble back.

  /** A word as its top four bits, twenty bits, bits 4 to 7, and the low four bits. */
  lemma Digits(t: Word) returns (top: nat, upper: nat, nibble: nat, low: nat)
    ensures t == top * 0x1000_0000 + upper * 256 + nibble * 16 + low
    ensures top < 16 && upper < 0x10_0000 && nibble < 16 && low < 16
    ensures top == t / 0x1000_0000 && nibble == t / 16 % 16
    ensures t % 0x1000_0000 == upper * 256 + nibble * 16 + low
  {
    var rest := t / 16;
    low, nibble := t % 16, rest % 16;
    var more := rest / 16;
    upper, top := more % 0x10_0000, more / 0x10_0000;
    assert t == top * 0x1000_0000 + (upper * 256 + nibble * 16 + low);
    DigitsUnique(top, upper * 256 + nibble * 16 + low, 0x1000_0000);
  }

  /** The value of bits 4 to 7 becomes its exclusive "or" with the top four bits, which are cleared. */
  function FoldTop(t: Word): (r: Word)
    ensures r < 0x1000_0000
  {
    var folded := Bitwise(XorOp, t / 16 % 16, t / 0x1000_0000, 4);
    FoldTopInRange(t);
    t % 0x1000_0000 - t / 16 % 16 * 16 + folded * 16
  }

  lemma FoldTopInRange(t: Word)
    ensures 0 <= t % 0x1000_0000 - t / 16 % 16 * 16 < 0x1000_0000 - 240
    ensures Bitwise(XorOp, t / 16 % 16, t / 0x1000_0000, 4) < 16
  {
    assert Pow2(4) == 16;
    var top, upper, nibble, low := Digits(t);
  }

  function Shifted(hash: Word, c: Word): Word {
    Add(ShiftLeft(hash, 4), c)
  }

  function TopBits(t: Word): Word {
    And(t, 0xF000_0000)
  }

  /** What PJW does with nonzero top bits: the complement of the constant mask clears them. */
  function PjwClear(hash: Word, test: Word): Word {
    And(Xor(hash, ShiftRight(test, 24)), Not(0xF000_0000))
  }

  /** What ELF does with nonzero top bits: their own complement clears them. */
  function ElfClear(hash: Word, x: Word): Word {
    And(Xor(hash, ShiftRight(x, 24)), Not(x))
  }

  lemma FoldPowers()
    ensures Pow2(4) == 0x10 && Pow2(8) == 0x100 && Pow2(24) == 0x100_0000 && Pow2(28) == 0x1000_0000
    ensures Pow2(31) == 0x8000_0000 && Pow2(32) == 0x1_0000_0000
  {
    Pow2Sum(8, 16);
    Pow2Sum(8, 8);
    Pow2Sum(4, 24);
    Pow2Sum(3, 28);
    Pow2Sum(1, 31);
  }

  lemma TopBitsAreTop(t: Word)
    ensures TopBits(t) == t / 0x1000_0000 * 0x1000_0000
  {
    FoldPowers();
    hide Bitwise, Pow2;
    var (top, rest) := (t / 0x1000_0000, t % 0x1000_0000);
    BitwiseOfJoined(AndOp, top, rest, 15, 0, 4, 28);
    WithOnes(top, 4);
    WithZeros(rest, 28);
  }

  /** The shifted top bits meet bits 4 to 7 alone. */
  lemma XorOfTop(t: Word)
    ensures var top := t / 0x1000_0000;
      ShiftRight(top * 0x1000_0000, 24) == top * 16 && Xor(t, top * 16) == top * 0x1000_0000 + FoldTop(t)
  {
    FoldPowers();
    hide Bitwise, Pow2;
    var top, upper, nibble, low := Digits(t);
    BitwiseOfJoined(XorOp, top, upper * 256 + nibble * 16 + low, 0, top * 16, 4, 28);
    BitwiseOfJoined(XorOp, upper, nibble * 16 + low, 0, top * 16, 20, 8);
    BitwiseOfJoined(XorOp, nibble, low, top, 0, 4, 4);
    Pow2Sum(20, 8);
    WithZeros(top, 4);
    WithZeros(upper, 20);
    WithZeros(low, 4);
  }

  lemma PjwFolds(t: Word)
    ensures PjwClear(t, TopBits(t)) == FoldTop(t)
  {
    FoldPowers();
    hide Bitwise, Pow2, And, Xor, ShiftRight, TopBits, FoldTop;
    TopBitsAreTop(t);
    XorOfTop(t);
    WithComplement(0xF000_0000, 32);
    AndOfMask(Xor(t, t / 0x1000_0000 * 16), 0x0FFF_FFFF, 28);
  }

  lemma ElfFolds(t: Word)
    ensures ElfClear(t, TopBits(t)) == FoldTop(t)
  {
    FoldPowers();
    hide Bitwise, Pow2, Xor, ShiftRight, TopBits, FoldTop;
    var top := t / 0x1000_0000;
    TopBitsAreTop(t);
    XorOfTop(t);
    WithComplement(top * 0x1000_0000, 32);
    BitwiseOfJoined(AndOp, top, FoldTop(t), 15 - top, 0x0FFF_FFFF, 4, 28);
    WithComplement(top, 4);
    WithOnes(FoldTop(t), 28);
  }

  lemma NothingToFold(t: Word)
    ensures TopBits(t) == 0 <==> t < 0x1000_0000
    ensures t < 0x1000_0000 ==> FoldTop(t) == t
  {
    FoldPowers();
    hide Bitwise, Pow2, TopBits;
    TopBitsAreTop(t);
    var top, upper, nibble, low := Digits(t);
    WithZeros(nibble, 4);
  }

  /** Both hashes: shift in each character and fold the top nibble back. */
  function FoldHash(str: seq<Word>): Word {
    if str == [] then 0
    else
      var n := |str| - 1;
      FoldTop(Shifted(FoldHash(str[..n]), str[n]))
  }

  /** The running hash never reaches 2^28. */
  lemma FoldHashIsSmall(str: seq<Word>)
    ensures FoldHash(str) < 0x1000_0000
  {
  }

  /** One character: sixteen times the hash plus the character, its top four bits folded into bits 4 to 7. */
  lemma FoldHashStep(str: seq<Word>, c: Word)
    ensures var t := (16 * FoldHash(str) + c) % 0x1_0000_0000;
      FoldHash(str + [c])
        == t % 0x1000_0000 - t / 16 % 16 * 16 + Bitwise(XorOp, t / 16 % 16, t / 0x1000_0000, 4) * 16
  {
    hide Bitwise, Shifted;
    assert (str + [c])[..|str|] == str;
    ShiftedIsSum(FoldHash(str), c);
  }

  lemma ShiftedIsSum(hash: Word, c: Word)
    ensures Shifted(hash, c) == (16 * hash + c) % 0x1_0000_0000
  {
    FoldPowers();
    AddResidue(c, hash * 16);
  }

  lemma SmallStep(hash: nat, c: Word)
    requires hash * 16 + c < 0x1000_0000
    ensures FoldTop(Shifted(hash, c)) == hash * 16 + c
  {
    hide FoldTop, Shifted, TopBits;
    ShiftedIsSum(hash, c);
    NothingToFold(hash * 16 + c);
  }

  /** While nothing reaches the top bits the hash is the polynomial with multiplier 16. */
  lemma {:induction false} FoldHashIsHorner(str: seq<Word>)
    requires Horner(16, 0, str) < 0x1000_0000
    ensures FoldHash(str) == Horner(16, 0, str)
  {
    if str != [] {
      hide FoldTop, Shifted;
      var n := |str| - 1;
      var before := Horner(16, 0, str[..n]);
      assert Horner(16, 0, str) == before * 16 + str[n];
      FoldHashIsHorner(str[..n]);
      SmallStep(before, str[n]);
    }
  }

  method PJWHash(str: seq<Word>) returns (r: Word)
    ensures r == FoldHash(str)
    ensures Horner(16, 0, str) < 0x1000_0000 ==> r == Horner(16, 0, str)
  {
    hide FoldTop, Shifted, TopBits, PjwClear, And, Horner;
    var hash: Word := 0;
    var i := 0;
    while i < |str|
      invariant 0 <= i <= |str| && hash == FoldHash(str[..i])
    {
      assert str[..i + 1][..i] == str[..i];
      hash := Shifted(hash, str[i]);
      NothingToFold(hash);
      PjwFolds(hash);
      var test := TopBits(hash);
      if test != 0 {
        hash := PjwClear(hash, test);
      }
      i := i + 1;
    }
    assert str[..i] == str;
    FoldHashIsSmall(str);
    LowBits(hash);
    r := And(hash, 0x7FFF_FFFF);
    if Horner(16, 0, str) < 0x1000_0000 {
      FoldHashIsHorner(str);
    }
  }

  method ELFHash(str: seq<Word>) returns (r: Word)
    ensures r == FoldHash(str)
    ensures Horner(16, 0, str) < 0x1000_0000 ==> r == Horner(16, 0, str)
  {
    hide FoldTop, Shifted, TopBits, ElfClear, And, Horner;
    var hash: Word := 0;
    var i := 0;
    while i < |str|
      invariant 0 <= i <= |str| && hash == FoldHash(str[..i])
    {
      assert str[..i + 1][..i] == str[..i];
      hash := Shifted(hash, str[i]);
      NothingToFold(hash);
      ElfFolds(hash);
      var x := TopBits(hash);
      if x != 0 {
        hash := ElfClear(hash, x);
      }
      i := i + 1;
    }
    assert str[..i] == str;
    FoldHashIsSmall(str);
    LowBits(hash);
    r := And(hash, 0x7FFF_FFFF);
    if Horner(16, 0, str) < 0x1000_0000 {
      FoldHashIsHorner(str);
    }
  }
}
