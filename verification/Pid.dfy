/** The fixed-point PID controllers of CMSIS/arm_math.h. */
module Pid {
  import opened Words
  import opened Saturation

  /** The derived gains of an instance. */
  datatype Gains = Gains(a0: int, a1: int, a2: int)

  /** Contents of the state array: x[n-1], x[n-2] and y[n-1]. */
  datatype State = State(x1: int, x2: int, y: int)

  const RESET := State(0, 0, 0)

  // ---- The exact recurrence behind both controllers ----

  /** Sample k of a run, zero outside it as in a reset state. */
  function At(xs: seq<int>, k: int): int {
    if 0 <= k < |xs| then xs[k] else 0
  }

  /** The increment before scaling at the last sample. */
  function Increment(g: Gains, xs: seq<int>): int {
    var n := |xs|;
    g.a0 * At(xs, n - 1) + g.a1 * At(xs, n - 2) + g.a2 * At(xs, n - 3)
  }

  /** The output after a run with unbounded integers: every increment is scaled down by `scale`
      with truncation and accumulated. */
  function Ideal(g: Gains, xs: seq<int>, scale: int): int
    requires scale > 0
  {
    if xs == [] then 0 else Ideal(g, xs[..|xs| - 1], scale) + Increment(g, xs) / scale
  }

  function Sum(xs: seq<int>): int {
    if xs == [] then 0 else Sum(xs[..|xs| - 1]) + xs[|xs| - 1]
  }

  /** The positional controller: proportional, integral and derivative parts, unscaled. */
  function Positional(kp: int, ki: int, kd: int, xs: seq<int>): int {
    var n := |xs|;
    kp * At(xs, n - 1) + ki * Sum(xs) + kd * (At(xs, n - 1) - At(xs, n - 2))
  }

  function DerivedGains(kp: int, ki: int, kd: int): Gains {
    Gains(kp + ki + kd, -kp - 2 * kd, kd)
  }

  /** The increments telescope to the positional form. */
  lemma Telescopes(kp: int, ki: int, kd: int, xs: seq<int>)
    requires xs != []
    ensures Positional(kp, ki, kd, xs)
         == Positional(kp, ki, kd, xs[..|xs| - 1]) + Increment(DerivedGains(kp, ki, kd), xs)
  {
    var n := |xs|;
    var x0, x1, x2 := At(xs, n - 1), At(xs, n - 2), At(xs, n - 3);
    var sum := Sum(xs[..n - 1]);
    assert At(xs[..n - 1], n - 2) == x1 && At(xs[..n - 1], n - 3) == x2;
    TelescopeAlgebra(kp, ki, kd, x0, x1, x2, sum);
  }

  lemma TelescopeAlgebra(kp: int, ki: int, kd: int, x0: int, x1: int, x2: int, sum: int)
    ensures kp * x0 + ki * (sum + x0) + kd * (x0 - x1)
         == kp * x1 + ki * sum + kd * (x1 - x2) + ((kp + ki + kd) * x0 + (-kp - 2 * kd) * x1 + kd * x2)
  {
  }

  /** The truncating recurrence stays below the positional controller and drifts from it by
      less than one unit in the last place per sample. */
  lemma {:induction false} IdealDrift(kp: int, ki: int, kd: int, xs: seq<int>, scale: int)
    requires scale > 0
    ensures 0 <= Positional(kp, ki, kd, xs) - scale * Ideal(DerivedGains(kp, ki, kd), xs, scale)
              <= |xs| * (scale - 1)
  {
    var g := DerivedGains(kp, ki, kd);
    if xs == [] {
      assert Positional(kp, ki, kd, xs) == 0;
    } else {
      var before := xs[..|xs| - 1];
      IdealDrift(kp, ki, kd, before, scale);
      Telescopes(kp, ki, kd, xs);
      DivModIdentity(Increment(g, xs), scale);
      MulDistributes(Ideal(g, before, scale), Increment(g, xs) / scale, scale);
      MulDistributes(|before|, 1, scale - 1);
    }
  }

  // ---- Q31 ----

  /** The multiply-accumulates, in 64-bit arithmetic. */
  function AccumulateQ31(g: Gains, st: State, x: int): Q63 {
    Wrap63(Wrap63(g.a0 * x + g.a1 * st.x1) + g.a2 * st.x2)
  }

  function StepQ31(g: Gains, st: State, x: int): State {
    State(x, st.x1, Wrap31(Wrap31(AccumulateQ31(g, st, x) / 0x8000_0000) + st.y))
  }

  function RunQ31(g: Gains, xs: seq<int>): State {
    if xs == [] then RESET else StepQ31(g, RunQ31(g, xs[..|xs| - 1]), xs[|xs| - 1])
  }

  /** Whatever wraps on the way, the output is the exact sum reduced once to 32 bits: a wrapped
      64-bit accumulator differs by multiples of 2^64, which the shift turns into multiples
      of 2^33. */
  lemma WrapsOnce(a: int, b: int, c: int, y: int, m: Q31)
    requires m == Wrap31(y)
    ensures Wrap31(Wrap31(Wrap63(Wrap63(a + b) + c) / 0x8000_0000) + m)
         == Wrap31(y + (a + b + c) / 0x8000_0000)
  {
    var acc: int := Wrap63(Wrap63(a + b) + c);
    var k := (acc - (a + b + c)) / 0x1_0000_0000_0000_0000;
    assert acc == a + b + c + k * 0x1_0000_0000_0000_0000;
    assert acc / 0x8000_0000 == (a + b + c) / 0x8000_0000 + k * 0x2_0000_0000;
    SumOfWraps(acc / 0x8000_0000, y, (a + b + c) / 0x8000_0000 + y, 2 * k);
  }

  lemma SumOfWraps(u: int, v: int, w: int, k: int)
    requires u + v == w + k * 0x1_0000_0000
    ensures Wrap31(Wrap31(u) + Wrap31(v)) == Wrap31(w)
  {
    var i := (Wrap31(u) - u) / 0x1_0000_0000;
    var j := (Wrap31(v) - v) / 0x1_0000_0000;
    var l := (w - Wrap31(w)) / 0x1_0000_0000;
    var sum: int := Wrap31(u) + Wrap31(v);
    assert sum == Wrap31(w) + (i + j + k + l) * 0x1_0000_0000;
    Wrap31Of(Wrap31(w), i + j + k + l);
  }

  /** A single step agrees with unbounded arithmetic exactly when the new output fits in
      32 bits; overflow of the accumulator does not matter. */
  lemma StepQ31Exact(g: Gains, st: State, x: int)
    requires -0x8000_0000 <= st.y < 0x8000_0000
    ensures var exact := st.y + (g.a0 * x + g.a1 * st.x1 + g.a2 * st.x2) / 0x8000_0000;
            StepQ31(g, st, x).y == exact <==> -0x8000_0000 <= exact < 0x8000_0000
  {
    hide Wrap31, Wrap63;
    OutputExact(g.a0 * x, g.a1 * st.x1, g.a2 * st.x2, st.y);
  }

  lemma OutputExact(a: int, b: int, c: int, y: int)
    requires -0x8000_0000 <= y < 0x8000_0000
    ensures var exact := y + (a + b + c) / 0x8000_0000;
            Wrap31(Wrap31(Wrap63(Wrap63(a + b) + c) / 0x8000_0000) + y) == exact
            <==> -0x8000_0000 <= exact < 0x8000_0000
  {
    Wrap31Of(y, 0);
    WrapsOnce(a, b, c, y, y);
    Fits(y + (a + b + c) / 0x8000_0000);
  }

  lemma Fits(x: int)
    ensures Wrap31(x) == x <==> -0x8000_0000 <= x < 0x8000_0000
  {
  }

  /** On every run from reset, for any gains and samples, the state holds the last two samples
      and the unbounded output reduced to 32 bits: intermediate overflow never accumulates. */
  lemma {:induction false} RunQ31IsIdeal(g: Gains, xs: seq<int>)
    ensures RunQ31(g, xs)
         == State(At(xs, |xs| - 1), At(xs, |xs| - 2), Wrap31(Ideal(g, xs, 0x8000_0000)))
  {
    if xs == [] {
    } else {
      var n := |xs|;
      var before := xs[..n - 1];
      RunQ31IsIdeal(g, before);
      hide Wrap31, Wrap63, StepQ31;
      assert At(before, n - 2) == At(xs, n - 2) && At(before, n - 3) == At(xs, n - 3);
      StepIsIdeal(g, RunQ31(g, before), xs[n - 1], Ideal(g, before, 0x8000_0000));
    }
  }

  lemma StepIsIdeal(g: Gains, st: State, x: int, ideal: int)
    requires st.y == Wrap31(ideal)
    ensures StepQ31(g, st, x)
         == State(x, st.x1, Wrap31(ideal + (g.a0 * x + g.a1 * st.x1 + g.a2 * st.x2) / 0x8000_0000))
  {
    hide Wrap31, Wrap63;
    WrapsOnce(g.a0 * x, g.a1 * st.x1, g.a2 * st.x2, ideal, st.y);
  }

  /** The incremental Q31 controller over whole runs: with the documented gains its output is,
      modulo 2^32, an integer that lies below the positional controller by less than one unit
      per sample, and it is that integer exactly when that integer fits in 32 bits. */
  lemma RunQ31IsPositional(kp: int, ki: int, kd: int, xs: seq<int>) returns (ideal: int)
    ensures 0 <= Positional(kp, ki, kd, xs) - 0x8000_0000 * ideal <= |xs| * 0x7FFF_FFFF
    ensures RunQ31(DerivedGains(kp, ki, kd), xs).y == Wrap31(ideal)
    ensures RunQ31(DerivedGains(kp, ki, kd), xs).y == ideal <==> -0x8000_0000 <= ideal < 0x8000_0000
  {
    ideal := Ideal(DerivedGains(kp, ki, kd), xs, 0x8000_0000);
    IdealDrift(kp, ki, kd, xs, 0x8000_0000);
    RunQ31IsIdeal(DerivedGains(kp, ki, kd), xs);
    Fits(ideal);
  }

  /** Inputs scaled down by two bits keep the accumulator and its narrowing exact ... */
  lemma ScaledInputsKeepAccumulator(g: Gains, st: State, x: int)
    requires -0x8000_0000 <= g.a0 < 0x8000_0000 && -0x8000_0000 <= g.a1 < 0x8000_0000
    requires -0x8000_0000 <= g.a2 < 0x8000_0000
    requires -0x2000_0000 <= x <= 0x2000_0000
    requires -0x2000_0000 <= st.x1 <= 0x2000_0000 && -0x2000_0000 <= st.x2 <= 0x2000_0000
    ensures var exact := g.a0 * x + g.a1 * st.x1 + g.a2 * st.x2;
            && AccumulateQ31(g, st, x) == exact
            && Wrap31(AccumulateQ31(g, st, x) / 0x8000_0000) == exact / 0x8000_0000
  {
    hide Wrap31, Wrap63;
    ProductBound(g.a0, x, 0x8000_0000, 0x2000_0000);
    ProductBound(g.a1, st.x1, 0x8000_0000, 0x2000_0000);
    ProductBound(g.a2, st.x2, 0x8000_0000, 0x2000_0000);
    ScaledSum(g.a0 * x, g.a1 * st.x1, g.a2 * st.x2);
  }

  lemma ScaledSum(a: int, b: int, c: int)
    requires -0x1000_0000_0000_0000 <= a <= 0x1000_0000_0000_0000
    requires -0x1000_0000_0000_0000 <= b <= 0x1000_0000_0000_0000
    requires -0x1000_0000_0000_0000 <= c <= 0x1000_0000_0000_0000
    ensures var exact := a + b + c;
            && Wrap63(Wrap63(a + b) + c) == exact
            && Wrap31(exact / 0x8000_0000) == exact / 0x8000_0000
  {
    Wrap63Of(a + b, 0);
    Wrap63Of(a + b + c, 0);
    Wrap31Of((a + b + c) / 0x8000_0000, 0);
  }

  lemma {:induction false} ConstantRun(ki: int, x: int, n: nat, scale: int)
    requires scale > 0
    ensures Ideal(DerivedGains(0, ki, 0), seq(n, _ => x), scale) == n * (ki * x / scale)
  {
    if n == 0 {
    } else {
      var xs := seq(n, _ => x);
      assert xs[..n - 1] == seq(n - 1, _ => x);
      ConstantRun(ki, x, n - 1, scale);
      MulDistributes(n - 1, 1, ki * x / scale);
    }
  }

  /** An integral controller fed `n` equal samples outputs a multiple of the increment, reduced
      to 32 bits. */
  lemma ConstantInput(ki: int, x: int, n: nat)
    ensures RunQ31(DerivedGains(0, ki, 0), seq(n, _ => x)).y == Wrap31(n * (ki * x / 0x8000_0000))
  {
    RunQ31IsIdeal(DerivedGains(0, ki, 0), seq(n, _ => x));
    ConstantRun(ki, x, n, 0x8000_0000);
  }

  /** ... but do not prevent overflow, nor is the result saturated: a constant input winds the
      integral up until the output turns negative, which at full gain takes five scaled samples. */
  lemma WindUpWraps(ki: int, x: int, n: nat)
    requires 0x8000_0000 <= n * (ki * x / 0x8000_0000) < 0x1_0000_0000
    ensures RunQ31(DerivedGains(0, ki, 0), seq(n, _ => x)).y < 0 < Positional(0, ki, 0, seq(n, _ => x))
    ensures 0x8000_0000 <= 5 * (0x7FFF_FFFF * 0x2000_0000 / 0x8000_0000) < 0x1_0000_0000
  {
    ConstantInput(ki, x, n);
    IdealDrift(0, ki, 0, seq(n, _ => x), 0x8000_0000);
    ConstantRun(ki, x, n, 0x8000_0000);
  }

  /** The output computed from the three products, and the state it leaves. */
  lemma OutputOf(p0: int, p1: int, p2: int, y: Q31, out: Q31)
    requires out == Wrap31(Wrap31(Wrap63(Wrap63(p0 + p1) + p2) / 0x8000_0000) + y)
    ensures out == Wrap31(y + (p0 + p1 + p2) / 0x8000_0000)
    ensures var exact := y + (p0 + p1 + p2) / 0x8000_0000; out == exact <==> -0x8000_0000 <= exact < 0x8000_0000
  {
    Wrap31Of(y, 0);
    hide Wrap31, Wrap63;
    WrapsOnce(p0, p1, p2, y, y);
    OutputExact(p0, p1, p2, y);
  }

  lemma ProcessedStep(g: Gains, st: State, x: int, p0: int, p1: int, p2: int, out: Q31)
    requires p0 == g.a0 * x && p1 == g.a1 * st.x1 && p2 == g.a2 * st.x2
    requires out == Wrap31(Wrap31(Wrap63(Wrap63(p0 + p1) + p2) / 0x8000_0000) + st.y)
    ensures StepQ31(g, st, x) == State(x, st.x1, out)
  {
    hide Wrap31, Wrap63;
  }

  /** An instance of the Q31 controller. */
  class PidQ31 {
    var A0: Q31
    var A1: Q31
    var A2: Q31
    var state: array<Q31>

    ghost predicate Valid()
      reads this
    {
      state.Length == 3
    }

    function DerivedValues(): Gains
      reads this
    {
      Gains(A0, A1, A2)
    }

    function Contents(): State
      requires Valid()
      reads this, state
    {
      State(state[0], state[1], state[2])
    }

    method Process(input: Q31) returns (out: Q31)
      requires Valid()
      modifies state
      ensures Contents() == StepQ31(DerivedValues(), old(Contents()), input)
      ensures out == Contents().y
      ensures var st := old(Contents());
              var exact := st.y + (A0 * input + A1 * st.x1 + A2 * st.x2) / 0x8000_0000;
              out == exact <==> -0x8000_0000 <= exact < 0x8000_0000
      ensures state[0] == input && state[1] == old(state[0]) && state[2] == out
      ensures out == Wrap31(old(state[2]) + (A0 * input + A1 * old(state[0]) + A2 * old(state[1])) / 0x8000_0000)
    {
      hide Wrap31, Wrap63, StepQ31;
      ghost var before := Contents();
      var p0: int, p1: int, p2: int := A0 * input, A1 * state[0], A2 * state[1];
      var acc: int := p0;
      acc := Wrap63(acc + p1);
      acc := Wrap63(acc + p2);
      var sum: int := Wrap31(acc / 0x8000_0000);
      sum := sum + state[2];
      out := Wrap31(sum);
      ProcessedStep(DerivedValues(), before, input, p0, p1, p2, out);
      OutputOf(p0, p1, p2, state[2], out);
      state[1] := state[0];
      state[0] := input;
      state[2] := out;
    }
  }

  // ---- Q15 ----

  /** The saturated output for the accumulated increment `acc`: add the previous output in the
      accumulator's scale, shift down and saturate to 16 bits. */
  function OutputQ15(acc: int, y: Q15): (out: Q15)
    ensures out == Clamp(y + acc / 0x8000, -0x8000, 0x7FFF)
  {
    Clamp((acc + y * 0x8000) / 0x8000, -0x8000, 0x7FFF)
  }

  function AccumulateQ15(g: Gains, st: State, x: int): int {
    g.a0 * x + g.a1 * st.x1 + g.a2 * st.x2
  }

  ghost predicate IsQ15(x: int) { -0x8000 <= x < 0x8000 }

  ghost predicate StateQ15(st: State) { IsQ15(st.x1) && IsQ15(st.x2) && IsQ15(st.y) }

  ghost predicate GainsQ15(g: Gains) { IsQ15(g.a0) && IsQ15(g.a1) && IsQ15(g.a2) }

  ghost function StepQ15(g: Gains, st: State, x: int): State
    requires IsQ15(st.y)
  {
    State(x, st.x1, OutputQ15(AccumulateQ15(g, st, x), st.y))
  }

  ghost function RunQ15(g: Gains, xs: seq<int>): (st: State)
    ensures IsQ15(st.y)
  {
    if xs == [] then RESET else StepQ15(g, RunQ15(g, xs[..|xs| - 1]), xs[|xs| - 1])
  }

  /** The recurrence on the samples that clamps after every increment. */
  function Clamped(g: Gains, xs: seq<int>): (y: Q15)
  {
    if xs == [] then 0
    else Clamp(Clamped(g, xs[..|xs| - 1]) + Increment(g, xs) / 0x8000, -0x8000, 0x7FFF)
  }

  lemma LastIncrement(g: Gains, st: State, xs: seq<int>)
    requires xs != [] && st.x1 == At(xs, |xs| - 2) && st.x2 == At(xs, |xs| - 3)
    ensures AccumulateQ15(g, st, xs[|xs| - 1]) == Increment(g, xs)
  {
  }

  /** On every run from reset the state holds the last two samples and the clamped recurrence. */
  lemma {:induction false} RunQ15IsClamped(g: Gains, xs: seq<int>)
    ensures RunQ15(g, xs) == State(At(xs, |xs| - 1), At(xs, |xs| - 2), Clamped(g, xs))
  {
    if xs == [] {
    } else {
      var n := |xs|;
      var before := xs[..n - 1];
      RunQ15IsClamped(g, before);
      assert At(before, n - 2) == At(xs, n - 2) && At(before, n - 3) == At(xs, n - 3);
      hide OutputQ15, AccumulateQ15, Increment;
      LastIncrement(g, RunQ15(g, before), xs);
    }
  }

  /** The clamped recurrence is the exact one up to the first output that leaves the range. */
  lemma {:induction false} ClampedIsIdeal(g: Gains, xs: seq<int>)
    requires forall n | 0 <= n <= |xs| :: IsQ15(Ideal(g, xs[..n], 0x8000))
    ensures Clamped(g, xs) == Ideal(g, xs, 0x8000)
  {
    if xs == [] {
    } else {
      var before := xs[..|xs| - 1];
      assert xs[..|xs|] == xs;
      forall m | 0 <= m <= |before|
        ensures IsQ15(Ideal(g, before[..m], 0x8000))
      {
        assert before[..m] == xs[..m];
      }
      ClampedIsIdeal(g, before);
    }
  }

  /** On a run all outputs are those of the exact recurrence, which by IdealDrift tracks the
      positional controller, exactly when none of these leaves the range. */
  lemma RunQ15IsIdealIff(g: Gains, xs: seq<int>)
    ensures (forall n | 0 <= n <= |xs| :: RunQ15(g, xs[..n]).y == Ideal(g, xs[..n], 0x8000))
       <==> (forall n | 0 <= n <= |xs| :: IsQ15(Ideal(g, xs[..n], 0x8000)))
  {
    if forall n | 0 <= n <= |xs| :: RunQ15(g, xs[..n]).y == Ideal(g, xs[..n], 0x8000) {
      forall n | 0 <= n <= |xs|
        ensures IsQ15(Ideal(g, xs[..n], 0x8000))
      {
        assert RunQ15(g, xs[..n]).y == Ideal(g, xs[..n], 0x8000);
      }
    }
    if forall n | 0 <= n <= |xs| :: IsQ15(Ideal(g, xs[..n], 0x8000)) {
      forall n | 0 <= n <= |xs|
        ensures RunQ15(g, xs[..n]).y == Ideal(g, xs[..n], 0x8000)
      {
        forall m | 0 <= m <= n
          ensures IsQ15(Ideal(g, xs[..n][..m], 0x8000))
        {
          assert xs[..n][..m] == xs[..m];
        }
        ClampedIsIdeal(g, xs[..n]);
        RunQ15IsClamped(g, xs[..n]);
      }
    }
  }

  /** The accumulator of the packed path, which is built for cores with the DSP extension: dual
      16-bit products on A0 and the input extended to 32 bits, then on the packed gains A1, A2
      and the packed samples. */
  ghost function AccumulateDsp(g: Gains, st: State, x: int): Q63
    requires GainsQ15(g) && StateQ15(st) && IsQ15(x)
  {
    var first := Wrap31(Smuad(ToU32(g.a0), ToU32(x)));
    SmlaldInstruction(Pack16(g.a1, g.a2), Pack16(st.x1, st.x2), first)
  }

  /** The packed accumulator exceeds the plain one by exactly one when A0 and the input are both
      negative, because their sign halves multiply to one; otherwise the two are equal. */
  lemma DspAccumulator(g: Gains, st: State, x: int)
    requires GainsQ15(g) && StateQ15(st) && IsQ15(x)
    ensures AccumulateDsp(g, st, x) == AccumulateQ15(g, st, x) + if g.a0 < 0 && x < 0 then 1 else 0
  {
    hide Wrap31, ToU32, Smuad, SmlaldInstruction;
    FirstProduct(g.a0, x);
    PackedSum(g.a1, g.a2, st.x1, st.x2, Wrap31(Smuad(ToU32(g.a0), ToU32(x))));
  }

  lemma PackedSum(a1: Q15, a2: Q15, x1: Q15, x2: Q15, first: Q31)
    ensures SmlaldInstruction(Pack16(a1, a2), Pack16(x1, x2), first) == a1 * x1 + a2 * x2 + first
  {
    hide Wrap63, Lo16, Hi16, Pack16;
    LaneProduct(a1, x1);
    LaneProduct(a2, x2);
    Wrap63Of(a1 * x1 + a2 * x2 + first, 0);
  }

  lemma FirstProduct(a: Q15, x: Q15)
    ensures Wrap31(Smuad(ToU32(a), ToU32(x))) == a * x + (if a < 0 && x < 0 then 1 else 0)
  {
    hide Lo16, Hi16, ToU32, Wrap31;
    SignHalves(a);
    SignHalves(x);
    LaneProduct(a, x);
    SignedAgain(DualProduct(ToU32(a), ToU32(x)));
    SumFits(a * x, Hi16(ToU32(a)) * Hi16(ToU32(x)));
  }

  lemma SumFits(p: int, s: int)
    requires -0x4000_0000 <= p <= 0x4000_0000 && 0 <= s <= 1
    ensures Wrap31(p + s) == p + s
  {
  }

  lemma SignedAgain(d: Q31)
    ensures Wrap31(ToU32(d)) == d
  {
    Wrap31Of(d, if d < 0 then 1 else 0);
  }

  lemma SignHalves(a: Q15)
    ensures Lo16(ToU32(a)) == a && Hi16(ToU32(a)) == if a < 0 then -1 else 0
  {
    var word: int := ToU32(a);
    if a < 0 {
      assert word == a + 0x1_0000 * 0x1_0000 && word / 0x1_0000 == -1 + 1 * 0x1_0000;
      Wrap15Of(a, 0x1_0000);
      Wrap15Of(-1, 1);
    } else {
      assert word == a && word / 0x1_0000 == 0;
      Wrap15Of(a, 0);
      Wrap15Of(0, 0);
    }
  }

  /** The steps on which the two builds part: the unit that the sign halves contribute carries
      into the output, and the output is not saturated. */
  ghost predicate Parts(g: Gains, st: State, x: int) {
    var acc := AccumulateQ15(g, st, x);
    g.a0 < 0 && x < 0 && acc % 0x8000 == 0x7FFF && -0x8000 <= st.y + acc / 0x8000 < 0x7FFF
  }

  /** One step of the two builds from the same state differs on exactly these steps, and then by
      one unit. */
  lemma DspStepIff(g: Gains, st: State, x: int)
    requires GainsQ15(g) && StateQ15(st) && IsQ15(x)
    ensures OutputQ15(AccumulateDsp(g, st, x), st.y)
         == OutputQ15(AccumulateQ15(g, st, x), st.y) + if Parts(g, st, x) then 1 else 0
  {
    hide AccumulateDsp, AccumulateQ15;
    DspAccumulator(g, st, x);
    Carry(AccumulateQ15(g, st, x), st.y);
  }

  lemma Carry(acc: int, y: Q15)
    ensures OutputQ15(acc, y) <= OutputQ15(acc + 1, y) <= OutputQ15(acc, y) + 1
    ensures OutputQ15(acc + 1, y) != OutputQ15(acc, y)
       <==> acc % 0x8000 == 0x7FFF && -0x8000 <= y + acc / 0x8000 < 0x7FFF
  {
    assert (acc + 1) / 0x8000 == acc / 0x8000 + if acc % 0x8000 == 0x7FFF then 1 else 0;
  }

  ghost predicate AllQ15(xs: seq<int>) { forall i | 0 <= i < |xs| :: IsQ15(xs[i]) }

  ghost function RunDsp(g: Gains, xs: seq<int>): (st: State)
    requires GainsQ15(g) && AllQ15(xs)
    ensures StateQ15(st)
  {
    if xs == [] then RESET
    else
      var st := RunDsp(g, xs[..|xs| - 1]);
      State(xs[|xs| - 1], st.x1, OutputQ15(AccumulateDsp(g, st, xs[|xs| - 1]), st.y))
  }

  lemma {:induction false} StateOfRun(g: Gains, xs: seq<int>)
    requires AllQ15(xs)
    ensures StateQ15(RunQ15(g, xs))
  {
    if xs == [] {
    } else {
      StateOfRun(g, xs[..|xs| - 1]);
    }
  }

  /** The two builds agree on a whole run when no step parts them. */
  lemma {:induction false} DspRunAgrees(g: Gains, xs: seq<int>)
    requires GainsQ15(g) && AllQ15(xs)
    requires forall n | 0 <= n < |xs| :: !Parts(g, RunQ15(g, xs[..n]), xs[n])
    ensures RunDsp(g, xs) == RunQ15(g, xs)
  {
    hide AccumulateDsp, AccumulateQ15, Parts;
    if xs == [] {
    } else {
      var n := |xs| - 1;
      var before := xs[..n];
      forall m | 0 <= m < n
        ensures !Parts(g, RunQ15(g, before[..m]), before[m])
      {
        assert before[..m] == xs[..m];
      }
      DspRunAgrees(g, before);
      StateOfRun(g, before);
      assert !Parts(g, RunQ15(g, xs[..n]), xs[n]);
      DspStepIff(g, RunQ15(g, before), xs[n]);
    }
  }

  /** Builds that agree before and after a sample are not parted by it. */
  lemma AgreeingStep(g: Gains, xs: seq<int>, n: nat)
    requires GainsQ15(g) && AllQ15(xs) && n < |xs|
    requires RunDsp(g, xs[..n]) == RunQ15(g, xs[..n]) && RunDsp(g, xs[..n + 1]) == RunQ15(g, xs[..n + 1])
    ensures !Parts(g, RunQ15(g, xs[..n]), xs[n])
  {
    hide AccumulateDsp, AccumulateQ15, Parts;
    assert xs[..n + 1][..n] == xs[..n];
    StateOfRun(g, xs[..n]);
    DspStepIff(g, RunQ15(g, xs[..n]), xs[n]);
  }

  /** A prefix of a run without parting steps has none either. */
  lemma AgreeingPrefix(g: Gains, xs: seq<int>, n: nat)
    requires GainsQ15(g) && AllQ15(xs) && n <= |xs|
    requires forall m | 0 <= m < |xs| :: !Parts(g, RunQ15(g, xs[..m]), xs[m])
    ensures RunDsp(g, xs[..n]) == RunQ15(g, xs[..n])
  {
    hide RunDsp, RunQ15, Parts;
    forall m | 0 <= m < n
      ensures !Parts(g, RunQ15(g, xs[..n][..m]), xs[..n][m])
    {
      assert xs[..n][..m] == xs[..m];
    }
    DspRunAgrees(g, xs[..n]);
  }

  /** All outputs of a run agree exactly when no step of the plain build parts them. */
  lemma DspRunAgreesIff(g: Gains, xs: seq<int>)
    requires GainsQ15(g) && AllQ15(xs)
    ensures (forall n | 0 <= n <= |xs| :: RunDsp(g, xs[..n]) == RunQ15(g, xs[..n]))
       <==> (forall n | 0 <= n < |xs| :: !Parts(g, RunQ15(g, xs[..n]), xs[n]))
  {
    hide RunDsp, RunQ15, Parts;
    if forall n | 0 <= n <= |xs| :: RunDsp(g, xs[..n]) == RunQ15(g, xs[..n]) {
      forall n | 0 <= n < |xs|
        ensures !Parts(g, RunQ15(g, xs[..n]), xs[n])
      {
        assert RunDsp(g, xs[..n]) == RunQ15(g, xs[..n]);
        assert RunDsp(g, xs[..n + 1]) == RunQ15(g, xs[..n + 1]);
        AgreeingStep(g, xs, n);
      }
    }
    if forall n | 0 <= n < |xs| :: !Parts(g, RunQ15(g, xs[..n]), xs[n]) {
      forall n | 0 <= n <= |xs|
        ensures RunDsp(g, xs[..n]) == RunQ15(g, xs[..n])
      {
        AgreeingPrefix(g, xs, n);
      }
    }
  }

  /** With A0 not negative no run parts the builds. */
  lemma DspRunAgreesForGains(g: Gains, xs: seq<int>)
    requires GainsQ15(g) && AllQ15(xs) && g.a0 >= 0
    ensures RunDsp(g, xs) == RunQ15(g, xs)
  {
    DspRunAgrees(g, xs);
  }

  /** The number of negative samples. */
  function Negatives(xs: seq<int>): nat {
    if xs == [] then 0 else Negatives(xs[..|xs| - 1]) + if xs[|xs| - 1] < 0 then 1 else 0
  }

  /** On every run, parted or not, the packed build stays at or above the plain one and drifts
      from it by at most one unit per negative sample. */
  lemma {:induction false} DspRunDrift(g: Gains, xs: seq<int>)
    requires GainsQ15(g) && AllQ15(xs)
    ensures RunDsp(g, xs).x1 == RunQ15(g, xs).x1 && RunDsp(g, xs).x2 == RunQ15(g, xs).x2
    ensures 0 <= RunDsp(g, xs).y - RunQ15(g, xs).y <= Negatives(xs)
  {
    hide AccumulateDsp, OutputQ15;
    if xs == [] {
    } else {
      var before, x := xs[..|xs| - 1], xs[|xs| - 1];
      DspRunDrift(g, before);
      var dsp, plain := RunDsp(g, before), RunQ15(g, before);
      DspAccumulator(g, dsp, x);
      assert AccumulateQ15(g, dsp, x) == AccumulateQ15(g, plain, x);
      OutputLipschitz(AccumulateQ15(g, plain, x), AccumulateDsp(g, dsp, x), plain.y, dsp.y);
    }
  }

  /** Neither a later output nor a larger accumulator lowers the output, and each passes on at
      most its own difference. */
  lemma OutputLipschitz(acc: int, acc': int, y: Q15, y': Q15)
    requires y <= y' && acc <= acc' <= acc + 1
    ensures 0 <= OutputQ15(acc', y') - OutputQ15(acc, y) <= y' - y + (acc' - acc)
  {
  }

  /** A negative A0 can part them at the first sample. */
  lemma FirstSampleParts(g: Gains, xs: seq<int>)
    requires g == Gains(-1, 0, 0) && xs == [-0x7FFF]
    ensures AllQ15(xs) && RunQ15(g, xs).y == 0 && RunDsp(g, xs).y == 1
  {
    hide AccumulateDsp, AccumulateQ15;
    var st := RESET;
    FirstAccumulator(g, st, xs[0]);
    DspAccumulator(g, st, xs[0]);
    assert xs[..0] == [];
    assert RunDsp(g, xs[..0]) == st && RunQ15(g, xs[..0]) == st;
  }

  lemma FirstAccumulator(g: Gains, st: State, x: int)
    requires g == Gains(-1, 0, 0) && st == RESET && x == -0x7FFF
    ensures AccumulateQ15(g, st, x) == 0x7FFF
  {
  }

  lemma SaturationBounds()
    ensures Pow2(15) == 0x8000
  {
    assert Pow2(8) == 0x100 && Pow2(7) == 0x80;
    Pow2Add(8, 7);
  }

  /** An instance of the Q15 controller, built without the DSP extension. */
  class PidQ15 {
    var A0: Q15
    var A1: Q15
    var A2: Q15
    var state: array<Q15>

    ghost predicate Valid()
      reads this
    {
      state.Length == 3
    }

    ghost function DerivedValues(): Gains
      reads this
    {
      Gains(A0, A1, A2)
    }

    ghost function Contents(): State
      requires Valid()
      reads this, state
    {
      State(state[0], state[1], state[2])
    }

    /** The 64-bit accumulator and the 32-bit argument of the saturation never overflow. */
    method Process(input: Q15) returns (out: Q15)
      requires Valid()
      modifies state
      ensures Contents() == StepQ15(DerivedValues(), old(Contents()), input)
      ensures out == Contents().y
      ensures state[0] == input && state[1] == old(state[0]) && state[2] == out
      ensures out == Clamp(old(state[2]) + (A0 * input + A1 * old(state[0]) + A2 * old(state[1])) / 0x8000,
                           -0x8000, 0x7FFF)
    {
      ghost var before := Contents();
      LaneProduct(A0, input);
      LaneProduct(A1, state[0]);
      LaneProduct(A2, state[1]);
      var p0: Q31, p1: Q31, p2: Q31 := A0 * input, A1 * state[0], A2 * state[1];
      var last: Q31 := state[2] as int * 0x8000;
      var acc: Q63 := p0;
      acc := acc + p1;
      acc := acc + p2;
      assert acc == AccumulateQ15(DerivedValues(), before, input);
      acc := acc + last;
      SaturationBounds();
      out := Ssat(acc / 0x8000, 16);
      state[1] := state[0];
      state[0] := input;
      state[2] := out;
    }
  }

  /** The value of 16 bits read as a signed number. */
  function SignedHalf(bits: nat): int {
    if bits < 0x8000 then bits else bits - 0x1_0000
  }

  lemma HalvesSigned(w: U32)
    ensures Lo16(w) == SignedHalf(w % 0x1_0000) && Hi16(w) == SignedHalf(w / 0x1_0000)
  {
    hide Lo16, Hi16, Wrap15, SignedHalf;
    SignedWrap(w % 0x1_0000, w / 0x1_0000);
    SignedWrap(w / 0x1_0000, 0);
    DivModIdentity(w, 0x1_0000);
  }

  lemma SignedWrap(bits: nat, k: int)
    requires bits < 0x1_0000
    ensures Wrap15(bits + k * 0x1_0000) == SignedHalf(bits)
  {
    Wrap15Of(SignedHalf(bits), if bits < 0x8000 then k else k + 1);
  }

  /** The halves of a word that was packed from two gains, the first one low, are these gains. */
  lemma PackedGains(w: U32, a1: Q15, a2: Q15)
    requires w == a1 % 0x1_0000 + a2 % 0x1_0000 * 0x1_0000
    ensures SignedHalf(w % 0x1_0000) == a1 && SignedHalf(w / 0x1_0000) == a2
  {
    DivModUnique(w, 0x1_0000, a2 % 0x1_0000, a1 % 0x1_0000);
  }

  /** An instance of the Q15 controller built with the DSP extension: A1 holds the gains A1 and
      A2 in its halves, and the two older samples are read as one word. */
  class PidQ15Dsp {
    var A0: Q15
    var A1: U32
    var state: array<Q15>

    ghost predicate Valid()
      reads this
    {
      state.Length == 3
    }

    ghost function DerivedValues(): (g: Gains)
      reads this
      ensures GainsQ15(g)
    {
      Gains(A0, Lo16(A1), Hi16(A1))
    }

    ghost function Contents(): (st: State)
      requires Valid()
      reads this, state
      ensures StateQ15(st)
    {
      State(state[0], state[1], state[2])
    }

    method Process(input: Q15) returns (out: Q15)
      requires Valid()
      modifies state
      ensures var st := old(Contents());
              Contents() == State(input, st.x1, OutputQ15(AccumulateDsp(DerivedValues(), st, input), st.y))
      ensures out == Contents().y
      ensures state[0] == input && state[1] == old(state[0]) && state[2] == out
      ensures var a1, a2 := SignedHalf(A1 % 0x1_0000), SignedHalf(A1 / 0x1_0000);
              var acc := A0 * input + a1 * old(state[0]) + a2 * old(state[1]) + if A0 < 0 && input < 0 then 1 else 0;
              out == Clamp(old(state[2]) + acc / 0x8000, -0x8000, 0x7FFF)
    {
      ghost var before := Contents();
      HalvesSigned(A1);
      DspAccumulator(DerivedValues(), before, input);
      PackHalves(A1);
      var first: Q31 := Wrap31(Smuad(ToU32(A0), ToU32(input)));
      var acc: int := SmlaldInstruction(A1, Pack16(state[0], state[1]), first);
      assert acc == AccumulateDsp(DerivedValues(), before, input);
      DspRange(DerivedValues(), before, input);
      var last: int := state[2] as int * 0x8000;
      acc := acc + last;
      SaturationBounds();
      out := Ssat(acc / 0x8000, 16);
      state[1] := state[0];
      state[0] := input;
      state[2] := out;
    }
  }

  lemma DspRange(g: Gains, st: State, x: int)
    requires GainsQ15(g) && StateQ15(st) && IsQ15(x)
    ensures -0x2_0000_0000 <= AccumulateDsp(g, st, x) <= 0x2_0000_0000
  {
    hide AccumulateDsp;
    DspAccumulator(g, st, x);
    LaneProduct(g.a0, x);
    LaneProduct(g.a1, st.x1);
    LaneProduct(g.a2, st.x2);
  }
}
