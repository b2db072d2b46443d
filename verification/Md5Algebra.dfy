/** Algebra of the MD5 steps: what the bit functions select, traces, and invertibility. */
module Md5Algebra {
  import opened Words
  import opened Bits
  import opened Md5Spec

  /**
   Section 3.4 of RFC 1321 bit by bit: F takes `y` where `x` is set and `z` elsewhere; G takes `x`
   where `z` is set and `y` elsewhere; H is the parity; I flips `y` where `x` is set or `z` is clear.
   Words with the same bits are equal (Bits.SameBits), so this determines the four functions.
   */
  lemma BitFunctions(x: Word, y: Word, z: Word, i: nat)
    requires i < 32
    ensures F(x, y, z) == Auxiliary(0, x, y, z) && G(x, y, z) == Auxiliary(1, x, y, z)
    ensures H(x, y, z) == Auxiliary(2, x, y, z) && I(x, y, z) == Auxiliary(3, x, y, z)
    ensures Bit(Auxiliary(0, x, y, z), i) == if Bit(x, i) then Bit(y, i) else Bit(z, i)
    ensures Bit(Auxiliary(1, x, y, z), i) == if Bit(z, i) then Bit(x, i) else Bit(y, i)
    ensures Bit(Auxiliary(2, x, y, z), i) == (Bit(x, i) == (Bit(y, i) == Bit(z, i)))
    ensures Bit(Auxiliary(3, x, y, z), i) == (Bit(y, i) != (Bit(x, i) || !Bit(z, i)))
  {
    hide Bit, And, Or, Xor, Not;
    BitOfOperators(x, y, i);
    BitOfOperators(Not(x), z, i);
    BitOfOperators(And(x, y), And(Not(x), z), i);
    BitOfOperators(x, z, i);
    BitOfOperators(z, z, i);
    BitOfOperators(y, Not(z), i);
    BitOfOperators(And(x, z), And(y, Not(z)), i);
    BitOfOperators(Xor(x, y), z, i);
    BitOfOperators(x, Not(z), i);
    BitOfOperators(y, Or(x, Not(z)), i);
  }

  /** The registers after each prefix of the schedule. */
  ghost predicate IsTrace(trace: seq<Registers>, x: Block) {
    |trace| == STEPS + 1
    && forall k: StepNo {:trigger Step(k, trace[k], x)} :: trace[k + 1] == Step(k, trace[k], x)
  }

  lemma TraceOf(r: Registers, x: Block) returns (trace: seq<Registers>)
    ensures IsTrace(trace, x) && trace[0] == r && trace[STEPS] == Run(Schedule(), r, x)
  {
    hide Step;
    var s := Schedule();
    trace := seq(STEPS + 1, n requires 0 <= n <= STEPS => Run(s[..n], r, x));
    forall k: StepNo
      ensures trace[k + 1] == Step(k, trace[k], x)
    {
      assert s[..k + 1][..k] == s[..k];
    }
    assert s[..STEPS] == s;
  }

  /** Undoes step k: the old `a` is recovered from the new register by the inverse rotation. */
  function Unstep(k: StepNo, r: Registers, x: Block): Registers {
    var (b, c, d) := (r.c, r.d, r.a);
    var rotated := RotateLeft(Sub(r.b, b), 32 - Shift(k));
    Registers(Sub(rotated, (Auxiliary(k / 16, b, c, d) + x[WordIndex(k)] + Sine(k)) % WORD_RANGE), b, c, d)
  }

  lemma UnstepStep(k: StepNo, r: Registers, x: Block)
    ensures Unstep(k, Step(k, r, x), x) == r
  {
    hide Auxiliary, Shift, WordIndex, Sine, RotateLeft, Add, Sub;
    var s := Shift(k);
    var inner := Auxiliary(k / 16, r.b, r.c, r.d) + x[WordIndex(k)] + Sine(k);
    var sum := Add(r.a, inner);
    SubUndoesAdd(RotateLeft(sum, s), r.b);
    assert r.b % WORD_RANGE == r.b;
    RotateInverse(sum, s);
    SubUndoesAdd(r.a, inner);
  }

  lemma StepUnstep(k: StepNo, r: Registers, x: Block)
    ensures Step(k, Unstep(k, r, x), x) == r
  {
    hide Auxiliary, Shift, WordIndex, Sine, RotateLeft, Add, Sub;
    var s := Shift(k);
    var inner := Auxiliary(k / 16, r.c, r.d, r.a) + x[WordIndex(k)] + Sine(k);
    var low := Sub(r.b, r.c);
    var rotated := RotateLeft(low, 32 - s);
    AddUndoesSub(rotated, inner);
    RotateInverse(low, 32 - s);
    assert 32 - (32 - s) == s;
    AddUndoesSub(r.b, r.c);
    assert r.c % WORD_RANGE == r.c;
  }

  /**
   Section 3.4, one step: three registers move on; the new one, less its left neighbour and rotated
   back, is the sum of the oldest, the auxiliary function of the others, a word and a constant.
   */
  lemma StepLaw(k: StepNo, r: Registers, x: Block)
    ensures var n := Step(k, r, x);
      && n.a == r.d && n.c == r.b && n.d == r.c
      && RotateLeft(Sub(n.b, r.b), 32 - Shift(k))
           == (r.a + Auxiliary(k / 16, r.b, r.c, r.d) + x[WordIndex(k)] + Sine(k)) % 0x1_0000_0000
  {
    hide Auxiliary, Shift, WordIndex, Sine, RotateLeft;
    var sum := Add(r.a, Auxiliary(k / 16, r.b, r.c, r.d) + x[WordIndex(k)] + Sine(k));
    hide Add, Sub;
    assert r.b % WORD_RANGE == r.b;
    SubUndoesAdd(RotateLeft(sum, Shift(k)), r.b);
    RotateInverse(sum, Shift(k));
  }

  /** A schedule run backwards, last step first. */
  function Unrun(schedule: seq<StepNo>, r: Registers, x: Block): Registers {
    if schedule == [] then r
    else
      var n := |schedule| - 1;
      Unrun(schedule[..n], Unstep(schedule[n], r, x), x)
  }

  lemma {:induction false} UnrunRun(schedule: seq<StepNo>, r: Registers, x: Block)
    ensures Unrun(schedule, Run(schedule, r, x), x) == r
  {
    hide Step, Unstep;
    if schedule != [] {
      var n := |schedule| - 1;
      UnstepStep(schedule[n], Run(schedule[..n], r, x), x);
      UnrunRun(schedule[..n], r, x);
    }
  }

  lemma {:induction false} RunUnrun(schedule: seq<StepNo>, r: Registers, x: Block)
    ensures Run(schedule, Unrun(schedule, r, x), x) == r
  {
    hide Step, Unstep;
    if schedule != [] {
      var n := |schedule| - 1;
      var u := Unstep(schedule[n], r, x);
      RunUnrun(schedule[..n], u, x);
      StepUnstep(schedule[n], r, x);
    }
  }

  /**
   For a fixed block the 64 steps permute the register states: every state is reached from exactly
   one state, the one found by running the schedule backwards.
   */
  lemma StepsAreABijection(x: Block, r: Registers, target: Registers)
    ensures Run(Schedule(), r, x) == target <==> r == Unrun(Schedule(), target, x)
  {
    UnrunRun(Schedule(), r, x);
    RunUnrun(Schedule(), target, x);
  }

  /**
   The feed-forward: the chaining words taken off the result again, word by word, and the steps run
   backwards from there, lead to the chaining words.  No word is lost and none is added twice.
   */
  lemma CompressFeedsForward(h: Registers, x: Block)
    ensures var g := Compress(h, x);
      Unrun(Schedule(), Registers(Sub(g.a, h.a), Sub(g.b, h.b), Sub(g.c, h.c), Sub(g.d, h.d)), x) == h
  {
    hide Run, Unrun, Step, Unstep;
    UnrunRun(Schedule(), h, x);
    var r := Run(Schedule(), h, x);
    SumLessTerm(h.a, r.a);
    SumLessTerm(h.b, r.b);
    SumLessTerm(h.c, r.c);
    SumLessTerm(h.d, r.d);
  }

  lemma SumLessTerm(x: Word, y: Word)
    ensures Sub(Add(x, y), x) == y
  {
  }
}
