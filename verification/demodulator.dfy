/** Differential GMSK demodulation, in the Python receiver
    (Demodulator.demod_signal_gmsk) and in the STM32 C port (delayVector,
    computeMultSignals, computeOutput, demodulate). Both multiply each sample by the
    conjugate of the sample one symbol earlier (`u` samples back), take the phase of
    one product per symbol, and decide a bit from its sign. Samples are pairs of reals
    (the source's floats are not modelled), and the phase function — numpy's `angle`,
    the C library's `atan2`-based `arg` — is a parameter. */
module Demodulator {
  import opened Common

  datatype Complex = Complex(re: real, im: real)

  const Zero: Complex := Complex(0.0, 0.0)

  /** complexConjug. */
  function Conj(z: Complex): Complex
  {
    Complex(z.re, -z.im)
  }

  /** complexProduct, and numpy's complex `*`. */
  function Mul(a: Complex, b: Complex): Complex
  {
    Complex(a.re * b.re - a.im * b.im, a.im * b.re + a.re * b.im)
  }

  /** The C port conjugates the other factor: its product is the conjugate of the
      Python one. */
  lemma ConjOfProduct(a: Complex, b: Complex)
    ensures Conj(Mul(a, Conj(b))) == Mul(Conj(a), b)
  {
  }

  // ---------------------------------------------------------------------------
  // The symbol schedule shared by both implementations.

  /** The indices `lo, lo + step, lo + 2·step, …` strictly below `stop`: what a
      positive-step numpy slice visits once its bounds are normalised, and what
      `for (i = lo; i < stop; i += step)` visits. */
  function Schedule(lo: int, stop: int, step: int): (r: seq<int>)
    requires step >= 1
    ensures |r| == 0 <==> lo >= stop
    ensures |r| > 0 ==> r[0] == lo && r[|r| - 1] + step >= stop
    ensures forall j :: 0 <= j < |r| ==> lo <= r[j] < stop
    decreases stop - lo
  {
    if lo >= stop then [] else [lo] + Schedule(lo + step, stop, step)
  }

  /** Consecutive indices of a schedule are one step apart. */
  lemma {:induction false} ScheduleNext(lo: int, stop: int, step: int, j: int)
    requires step >= 1 && 0 <= j && j + 1 < |Schedule(lo, stop, step)|
    ensures Schedule(lo, stop, step)[j + 1] == Schedule(lo, stop, step)[j] + step
    decreases j
  {
    if j > 0 {
      ScheduleNext(lo + step, stop, step, j - 1);
    }
  }

  /** The `j`-th index of a schedule is `lo + j·step`. */
  lemma {:induction false} ScheduleAt(lo: int, stop: int, step: int, j: int)
    requires step >= 1 && 0 <= j < |Schedule(lo, stop, step)|
    ensures Schedule(lo, stop, step)[j] == lo + j * step
    decreases j
  {
    if j > 0 {
      ScheduleAt(lo + step, stop, step, j - 1);
      assert lo + step + (j - 1) * step == lo + j * step;
    }
  }

  /** The number of whole symbols of `u` samples in `n` samples, counted one symbol
      at a time (`n / u` for `n >= 0`, see SymbolsIsDiv). */
  function Symbols(n: int, u: int): nat
    requires u >= 1
    decreases n
  {
    if n < u then 0 else 1 + Symbols(n - u, u)
  }

  lemma {:induction false} SymbolsIsDiv(n: nat, u: int)
    requires u >= 1
    ensures Symbols(n, u) == n / u
    decreases n
  {
    if n < u {
      DivModUnique(n, u, 0, n);
    } else {
      SymbolsIsDiv(n - u, u);
      DivModUnique(n, u, (n - u) / u + 1, (n - u) % u);
    }
  }

  /** A schedule holds one index per started step: `ceil((stop − lo) / step)`. */
  lemma {:induction false} ScheduleLength(lo: int, stop: int, step: int)
    requires step >= 1
    ensures |Schedule(lo, stop, step)| == Symbols(stop - lo + step - 1, step)
    decreases stop - lo
  {
    if stop > lo {
      ScheduleLength(lo + step, stop, step);
    }
  }

  /** The number of decisions taken from `n` samples: all whole symbols but two. */
  function DecisionCount(n: nat, u: int): nat
    requires u >= 1
  {
    if Symbols(n, u) >= 2 then Symbols(n, u) - 2 else 0
  }

  /** The decision count is `max(0, n / u − 2)`. */
  lemma DecisionCountIsDiv(n: nat, u: int)
    requires u >= 1
    ensures DecisionCount(n, u) == if n / u >= 2 then n / u - 2 else 0
  {
    SymbolsIsDiv(n, u);
  }

  /** `k` whole symbols of `u` samples fit in `n` samples exactly when `k` is at most
      the symbol count. */
  lemma {:induction false} SymbolsFit(n: int, u: int, k: nat)
    requires u >= 1 && n >= 0
    ensures k <= Symbols(n, u) ==> k * u <= n
    ensures k > Symbols(n, u) ==> k * u > n
    decreases k
  {
    if k > 0 {
      if n < u {
        MulAtLeast(k, u);
      } else {
        SymbolsFit(n - u, u, k - 1);
        assert (k - 1) * u + u == k * u;
      }
    }
  }

  /** The sample at which decision `j` is taken. */
  function SampleIndex(u: int, j: int): int
  {
    2 * u - 1 + j * u
  }

  /** The sampled positions `2u − 1, 3u − 1, …`, one per decision: the slice
      `[2u-1:-u:u]` of an `n`-sample array, and the loop of computeOutput (see
      SamplesSchedule). Every one lies past the first symbol and before the last. */
  function Samples(n: nat, u: int): (s: seq<int>)
    requires u >= 1
    ensures |s| == DecisionCount(n, u)
    ensures forall j :: 0 <= j < |s| ==> s[j] == SampleIndex(u, j)
    ensures forall j :: 0 <= j < |s| ==> 2 * u - 1 <= s[j] < n - u
  {
    SamplesInRange(n, u);
    seq(DecisionCount(n, u), j => SampleIndex(u, j))
  }

  lemma SamplesInRange(n: nat, u: int)
    requires u >= 1
    ensures forall j :: 0 <= j < DecisionCount(n, u) ==> 2 * u - 1 <= SampleIndex(u, j) < n - u
  {
    forall j | 0 <= j < DecisionCount(n, u)
      ensures 2 * u - 1 <= SampleIndex(u, j) < n - u
    {
      SymbolsFit(n, u, j + 3);
      assert (j + 3) * u == j * u + 3 * u;
    }
  }

  lemma SamplesCount(n: nat, u: int)
    requires u >= 1
    ensures |Schedule(2 * u - 1, n - u, u)| == DecisionCount(n, u)
  {
    ScheduleLength(2 * u - 1, n - u, u);
    if n >= u {
      assert Symbols(n, u) == 1 + Symbols(n - u, u);
    }
  }

  /** The positions computeOutput visits: from `2u − 1` while below `n − u`, in steps
      of `u`. */
  function Slots(n: nat, u: int): (s: seq<int>)
    requires u >= 1
    ensures |s| == DecisionCount(n, u)
  {
    SamplesCount(n, u);
    Schedule(2 * u - 1, n - u, u)
  }

  /** computeOutput's first position is the first slot, if there is one. */
  lemma SlotsStart(n: nat, u: int)
    requires u >= 1
    ensures |Slots(n, u)| == 0 <==> 2 * u - 1 >= n - u
    ensures |Slots(n, u)| > 0 ==> Slots(n, u)[0] == 2 * u - 1
  {
  }

  /** Stepping by `u` from a slot reaches the next slot, or leaves the range after the
      last one. */
  lemma SlotsNext(n: nat, u: int, p: nat)
    requires u >= 1 && p < |Slots(n, u)|
    ensures Slots(n, u)[p] < n - u
    ensures p + 1 < |Slots(n, u)| ==> Slots(n, u)[p + 1] == Slots(n, u)[p] + u
    ensures p + 1 == |Slots(n, u)| ==> Slots(n, u)[p] + u >= n - u
  {
    if p + 1 < |Slots(n, u)| {
      ScheduleNext(2 * u - 1, n - u, u, p);
    }
  }

  /** Both the numpy slice and the C loop visit exactly the sampled positions. */
  lemma SamplesSchedule(n: nat, u: int)
    requires u >= 1
    ensures Schedule(2 * u - 1, n - u, u) == Samples(n, u)
  {
    SamplesCount(n, u);
    var r := Schedule(2 * u - 1, n - u, u);
    forall j | 0 <= j < |r|
      ensures r[j] == SampleIndex(u, j)
    {
      ScheduleAt(2 * u - 1, n - u, u, j);
    }
  }

  // ---------------------------------------------------------------------------
  // Demodulator.demod_signal_gmsk.

  datatype DemodError =
    | NegativeDimension // np.zeros(u) with u < 0
    | ZeroSliceStep     // the slice [2u-1:-u:u] with u == 0
    | ShapeMismatch     // the product of arrays numpy cannot broadcast together

  /** Python's normalisation of a slice stop against a length `n`. */
  function PyStop(n: nat, stop: int): (r: nat)
    ensures r <= n
    ensures stop < 0 ==> r == if n + stop < 0 then 0 else n + stop
    ensures 0 <= stop ==> r == if stop < n then stop else n
  {
    if stop < 0 then (if n + stop < 0 then 0 else n + stop)
    else if stop < n then stop else n
  }

  function ZerosC(n: nat): (r: seq<Complex>)
    ensures |r| == n && forall k :: 0 <= k < n ==> r[k] == Zero
  {
    seq(n, _ => Zero)
  }

  /** The delayed copy `hstack((zeros(u), x[0:N-u]))`. Once the input is at least one
      symbol long, it is the input shifted right by one symbol with zeros shifted in;
      otherwise its length differs from the input's. */
  function Delayed(x: seq<Complex>, u: nat): (d: seq<Complex>)
    ensures |x| >= u ==> |d| == |x|
    ensures |x| >= u ==> forall k :: 0 <= k < |x| ==> d[k] == if k < u then Zero else x[k - u]
    ensures |x| < u ==> |d| == u + PyStop(|x|, |x| - u) && |d| != |x|
  {
    ZerosC(u) + x[..PyStop(|x|, |x| - u)]
  }

  function ConjAll(s: seq<Complex>): (r: seq<Complex>)
    ensures |r| == |s| && forall k :: 0 <= k < |s| ==> r[k] == Conj(s[k])
  {
    seq(|s|, k requires 0 <= k < |s| => Conj(s[k]))
  }

  /** numpy's element-wise `a * b`: equal shapes, or one side of length 1 broadcast. */
  function Times(a: seq<Complex>, b: seq<Complex>): (r: Result<seq<Complex>, DemodError>)
    ensures r.Err? <==> |a| != |b| && |a| != 1 && |b| != 1
    ensures r.Ok? ==> |r.value| == if |a| == |b| || |b| == 1 then |a| else |b|
    ensures r.Ok? && |a| == |b| ==>
      |r.value| == |a| && forall k :: 0 <= k < |a| ==> r.value[k] == Mul(a[k], b[k])
  {
    if |a| == |b| then Ok(seq(|a|, k requires 0 <= k < |a| => Mul(a[k], b[k])))
    else if |a| == 1 then Ok(seq(|b|, k requires 0 <= k < |b| => Mul(a[0], b[k])))
    else if |b| == 1 then Ok(seq(|a|, k requires 0 <= k < |a| => Mul(a[k], b[0])))
    else Err(ShapeMismatch)
  }

  /** `(phase < 0).astype(np.int8)`. */
  function PyBit(phase: real): Bit
  {
    if phase < 0.0 then 1 else 0
  }

  /** `x * np.conj(delayed)`, broadcast as numpy does. Once the input is at least one
      symbol long, sample `k` is `x[k]` times the conjugate of the sample one symbol
      back, or of zero in the first symbol. */
  function Product(x: seq<Complex>, u: nat): (r: Result<seq<Complex>, DemodError>)
    ensures r.Err? <==> u >= 2 && |x| < u && |x| != 1
    ensures r.Ok? && |x| >= u ==> |r.value| == |x|
    ensures r.Ok? && |x| >= u ==>
      forall k :: 0 <= k < |x| ==> r.value[k] == Mul(x[k], Conj(Delayed(x, u)[k]))
    ensures r.Ok? && |x| < u ==> PyStop(|r.value|, -(u as int)) < 2 * u
  {
    Times(x, ConjAll(Delayed(x, u)))
  }

  /** `(np.angle(p)[2u-1:-u:u] < 0).astype(np.int8)`. */
  function Decide(p: seq<Complex>, u: int, angle: Complex -> real): (r: seq<Bit>)
    requires u >= 1
    ensures |r| == |Schedule(2 * u - 1, PyStop(|p|, -u), u)|
  {
    var s := Schedule(2 * u - 1, PyStop(|p|, -u), u);
    seq(|s|, j requires 0 <= j < |s| => PhaseBit(p, angle, s[j]))
  }

  /** The decision on sample `i` of the product. */
  function PhaseBit(p: seq<Complex>, angle: Complex -> real, i: int): Bit
  {
    if 0 <= i < |p| then PyBit(angle(p[i])) else 0
  }

  /** Demodulator.demod_signal_gmsk with the phase function `angle`. */
  function DemodGmsk(x: seq<Complex>, u: int, angle: Complex -> real): (r: Result<seq<Bit>, DemodError>)
    ensures r.Err? <==> u <= 0 || (u >= 2 && |x| < u && |x| != 1)
    ensures r.Ok? ==> |r.value| == DecisionCount(|x|, u)
    ensures r.Ok? && |x| >= u ==> r.value == PyDecisions(x, u, angle)
  {
    if u < 0 then Err(NegativeDimension)
    else if u == 0 then Err(ZeroSliceStep)
    else
      match Product(x, u)
      case Err(e) => Err(e)
      case Ok(p) =>
        DecideProduct(x, u, angle);
        Ok(Decide(p, u, angle))
  }

  /** The decisions the Python demodulator takes from an input at least one symbol
      long: decision `j` is the sign of the phase of `x[i]·conj(x[i − u])` at the
      `j`-th sampled position `i`. */
  function PyDecisions(x: seq<Complex>, u: int, angle: Complex -> real): (r: seq<Bit>)
    requires u >= 1
    ensures |r| == DecisionCount(|x|, u)
  {
    var s := Samples(|x|, u);
    seq(|s|, j requires 0 <= j < |s| => PyDecision(x, u, angle, s[j]))
  }

  /** The Python decision at sample `i`: 1 when the phase of `x[i]·conj(x[i − u])` is
      negative. */
  function PyDecision(x: seq<Complex>, u: int, angle: Complex -> real, i: int): Bit
    requires u >= 1
  {
    if u <= i < |x| then PyBit(angle(Mul(x[i], Conj(x[i - u])))) else 0
  }

  /** A sample past the first symbol is multiplied by the conjugate of the sample one
      symbol back. */
  lemma ProductAt(x: seq<Complex>, u: int, k: int)
    requires 1 <= u <= k < |x|
    ensures Product(x, u).Ok? && Product(x, u).value[k] == Mul(x[k], Conj(x[k - u]))
  {
  }

  /** The sampled positions of the product are those of the input, and none of them
      falls in the zero-padded first symbol. */
  lemma DecideProduct(x: seq<Complex>, u: int, angle: Complex -> real)
    requires u >= 1 && Product(x, u).Ok?
    ensures |x| >= u ==> Decide(Product(x, u).value, u, angle) == PyDecisions(x, u, angle)
    ensures |x| < u ==> Decide(Product(x, u).value, u, angle) == []
    ensures |Decide(Product(x, u).value, u, angle)| == DecisionCount(|x|, u)
  {
    if |x| >= u {
      var d := Decide(Product(x, u).value, u, angle);
      var e := PyDecisions(x, u, angle);
      DecideLength(x, u, angle);
      forall j | 0 <= j < |e|
        ensures d[j] == e[j]
      {
        DecideAt(x, u, angle, j);
      }
    } else {
      assert DecisionCount(|x|, u) == 0;
    }
  }

  lemma DecideLength(x: seq<Complex>, u: int, angle: Complex -> real)
    requires 1 <= u <= |x|
    ensures Product(x, u).Ok?
    ensures Schedule(2 * u - 1, PyStop(|Product(x, u).value|, -u), u) == Samples(|x|, u)
    ensures |Decide(Product(x, u).value, u, angle)| == DecisionCount(|x|, u)
  {
    SamplesSchedule(|x|, u);
  }

  lemma DecideAt(x: seq<Complex>, u: int, angle: Complex -> real, j: int)
    requires 1 <= u <= |x| && 0 <= j < DecisionCount(|x|, u)
    ensures Product(x, u).Ok? && |Decide(Product(x, u).value, u, angle)| == DecisionCount(|x|, u)
    ensures Decide(Product(x, u).value, u, angle)[j] == PyDecisions(x, u, angle)[j]
  {
    DecideLength(x, u, angle);
    ProductAt(x, u, Samples(|x|, u)[j]);
  }

  // ---------------------------------------------------------------------------
  // The STM32 port.

  /** delayVector: zeros for the first `timeDelay` slots, then the input shifted right
      by `timeDelay`. */
  method DelayVector(input: seq<Complex>, timeDelay: nat) returns (delayed: seq<Complex>)
    ensures |delayed| == |input|
    ensures forall i :: 0 <= i < |input| ==> delayed[i] == if i < timeDelay then Zero else input[i - timeDelay]
    ensures |input| >= timeDelay ==> delayed == Delayed(input, timeDelay)
  {
    delayed := [];
    var i := 0;
    while i < |input|
      invariant i <= |input| && |delayed| == i
      invariant forall k :: 0 <= k < i ==> delayed[k] == if k < timeDelay then Zero else input[k - timeDelay]
    {
      if i < timeDelay {
        delayed := delayed + [Zero];
      } else {
        delayed := delayed + [input[i - timeDelay]];
      }
      i := i + 1;
    }
  }

  /** computeMultSignals: each slot becomes `conj(input[i])·delayed[i]`, the conjugate
      of the Python product `input[i]·conj(delayed[i])`. */
  method ComputeMultSignals(input: seq<Complex>, delayed: seq<Complex>) returns (buffer: seq<Complex>)
    requires |delayed| == |input|
    ensures |buffer| == |input|
    ensures forall i :: 0 <= i < |input| ==> buffer[i] == Mul(Conj(input[i]), delayed[i])
    ensures forall i :: 0 <= i < |input| ==> buffer[i] == Conj(Mul(input[i], Conj(delayed[i])))
  {
    buffer := [];
    var i := 0;
    while i < |input|
      invariant i <= |input| && |buffer| == i
      invariant forall k :: 0 <= k < i ==> buffer[k] == Mul(Conj(input[k]), delayed[k])
      invariant forall k :: 0 <= k < i ==> buffer[k] == Conj(Mul(input[k], Conj(delayed[k])))
    {
      ConjOfProduct(input[i], delayed[i]);
      buffer := buffer + [Mul(Conj(input[i]), delayed[i])];
      i := i + 1;
    }
  }

  /** The C decision: 1 when the phase is positive. */
  function CBit(phase: real): Bit
  {
    if phase > 0.0 then 1 else 0
  }

  /** The decision computeOutput takes on slot `i` of the product buffer. */
  function SlotBit(buffer: seq<Complex>, arg: Complex -> real, i: int): Bit
  {
    if 0 <= i < |buffer| then CBit(arg(buffer[i])) else 0
  }

  /** computeOutput: walks the sampled positions with `positionOutput` counting the
      entries written, writes them contiguously from index 0, and leaves the rest of
      the output buffer alone. It writes past the entries it is given only if the
      buffer is shorter than the decision count, which the precondition excludes. */
  method ComputeOutput(output0: seq<int>, buffer: seq<Complex>, timeDelay: int, arg: Complex -> real)
    returns (output: seq<int>, written: nat)
    requires timeDelay >= 1 && |output0| >= DecisionCount(|buffer|, timeDelay)
    ensures written == DecisionCount(|buffer|, timeDelay)
    ensures |output| == |output0| && output[written..] == output0[written..]
    ensures forall j :: 0 <= j < written ==>
      output[j] == SlotBit(buffer, arg, Slots(|buffer|, timeDelay)[j])
  {
    ghost var s := Slots(|buffer|, timeDelay);
    SlotsStart(|buffer|, timeDelay);
    output := output0;
    var positionOutput := 0;
    var i := 2 * timeDelay - 1;
    while i < |buffer| - timeDelay
      invariant 0 <= positionOutput <= |s|
      invariant positionOutput < |s| ==> i == s[positionOutput]
      invariant positionOutput == |s| ==> i >= |buffer| - timeDelay
      invariant |output| == |output0|
      invariant forall j :: positionOutput <= j < |output| ==> output[j] == output0[j]
      invariant forall j :: 0 <= j < positionOutput ==> output[j] == SlotBit(buffer, arg, s[j])
      decreases |buffer| - i
    {
      SlotsNext(|buffer|, timeDelay, positionOutput);
      if arg(buffer[i]) > 0.0 {
        output := output[positionOutput := 1];
      } else {
        output := output[positionOutput := 0];
      }
      positionOutput := positionOutput + 1;
      i := i + timeDelay;
    }
    written := positionOutput;
    assert output[written..] == output0[written..];
  }

  /** The decisions the C port takes: decision `j` is 1 when the phase of
      `conj(x[i])·x[i − timeDelay]` at the `j`-th sampled position `i` is positive. */
  function CDecisions(x: seq<Complex>, timeDelay: int, arg: Complex -> real): (r: seq<Bit>)
    requires timeDelay >= 1
    ensures |r| == DecisionCount(|x|, timeDelay)
  {
    var s := Samples(|x|, timeDelay);
    seq(|s|, j requires 0 <= j < |s| => CDecision(x, timeDelay, arg, s[j]))
  }

  /** The C decision at sample `i`: 1 when the phase of `conj(x[i])·x[i − timeDelay]`
      is positive. */
  function CDecision(x: seq<Complex>, timeDelay: int, arg: Complex -> real, i: int): Bit
    requires timeDelay >= 1
  {
    if timeDelay <= i < |x| then CBit(arg(Mul(Conj(x[i]), x[i - timeDelay]))) else 0
  }

  /** demodulate: delay, multiply, decide. The first `DecisionCount` entries of the
      output are the decisions; the in-place overwrite of the input buffer is not
      returned. */
  method Demodulate(input: seq<Complex>, output0: seq<int>, timeDelay: int, arg: Complex -> real)
    returns (output: seq<int>)
    requires timeDelay >= 1 && |output0| >= DecisionCount(|input|, timeDelay)
    ensures |output| == |output0|
    ensures output[..DecisionCount(|input|, timeDelay)] == CDecisions(input, timeDelay, arg)
    ensures output[DecisionCount(|input|, timeDelay)..] == output0[DecisionCount(|input|, timeDelay)..]
  {
    var delayed := DelayVector(input, timeDelay);
    var buffer := ComputeMultSignals(input, delayed);
    var written;
    output, written := ComputeOutput(output0, buffer, timeDelay, arg);
    DecisionsFromBuffer(input, delayed, buffer, output, timeDelay, arg);
  }

  /** The entries computeOutput writes from the product buffer are the C decisions on
      the input. */
  lemma DecisionsFromBuffer(input: seq<Complex>, delayed: seq<Complex>, buffer: seq<Complex>,
                            output: seq<int>, timeDelay: int, arg: Complex -> real)
    requires timeDelay >= 1 && |delayed| == |input| && |buffer| == |input|
    requires forall i :: 0 <= i < |input| ==> delayed[i] == if i < timeDelay then Zero else input[i - timeDelay]
    requires forall i :: 0 <= i < |input| ==> buffer[i] == Mul(Conj(input[i]), delayed[i])
    requires DecisionCount(|input|, timeDelay) <= |output|
    requires forall j :: 0 <= j < DecisionCount(|input|, timeDelay) ==>
      output[j] == SlotBit(buffer, arg, Slots(|input|, timeDelay)[j])
    ensures output[..DecisionCount(|input|, timeDelay)] == CDecisions(input, timeDelay, arg)
  {
    SamplesSchedule(|input|, timeDelay);
    var s := Samples(|input|, timeDelay);
    assert Slots(|input|, timeDelay) == s;
    var c := CDecisions(input, timeDelay, arg);
    forall j | 0 <= j < |s|
      ensures output[j] == c[j]
    {
      SlotDecision(input, buffer, timeDelay, arg, s[j], delayed[s[j]]);
    }
    assert output[..|s|] == c;
  }

  /** At a sampled slot the product buffer holds `conj(x[i])·x[i − timeDelay]`. */
  lemma SlotDecision(input: seq<Complex>, buffer: seq<Complex>, timeDelay: int,
                     arg: Complex -> real, i: int, d: Complex)
    requires timeDelay >= 1 && timeDelay <= i < |input| == |buffer|
    requires d == input[i - timeDelay] && buffer[i] == Mul(Conj(input[i]), d)
    ensures SlotBit(buffer, arg, i) == CDecision(input, timeDelay, arg, i)
  {
  }

  /** main.c:177-179: the output buffer holds `sizeSignal / timeDelay − 2` integers,
      which demodulate fills completely. `heap` is the buffer's unspecified initial
      contents. */
  method ReceiveBlock(input: seq<Complex>, timeDelay: int, arg: Complex -> real, heap: seq<int>)
    returns (output: seq<int>)
    requires timeDelay >= 1 && |input| / timeDelay >= 2
    requires |heap| == |input| / timeDelay - 2
    ensures |output| == |input| / timeDelay - 2
    ensures output == CDecisions(input, timeDelay, arg)
  {
    DecisionCountIsDiv(|input|, timeDelay);
    output := Demodulate(input, heap, timeDelay, arg);
  }

  /** One decision agrees when the phase function is odd under conjugation. */
  lemma DecisionAgrees(a: Complex, b: Complex, angle: Complex -> real)
    requires forall z :: angle(Conj(z)) == -angle(z)
    ensures PyBit(angle(Mul(a, Conj(b)))) == CBit(angle(Mul(Conj(a), b)))
  {
    ConjOfProduct(a, b);
    assert angle(Conj(Mul(a, Conj(b)))) == -angle(Mul(a, Conj(b)));
  }

  /** The two implementations take the same decisions whenever the phase function is
      odd under conjugation: the C port tests the conjugated product for a positive
      phase, Python the product for a negative one. Oddness is an idealisation of
      `atan2`: at phase +pi (a negative real product, whose conjugate has the same
      phase) Python decides 0 and C decides 1, and agreement is not claimed there. */
  lemma CAgreesWithPython(x: seq<Complex>, u: int, angle: Complex -> real)
    requires u >= 1 && |x| >= u
    requires forall z :: angle(Conj(z)) == -angle(z)
    ensures DemodGmsk(x, u, angle) == Ok(CDecisions(x, u, angle))
  {
    var p := PyDecisions(x, u, angle);
    var c := CDecisions(x, u, angle);
    var s := Samples(|x|, u);
    forall j | 0 <= j < |s|
      ensures p[j] == c[j]
    {
      DecisionAgrees(x[s[j]], x[s[j] - u], angle);
    }
    assert p == c;
  }
}
