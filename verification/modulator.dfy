/** The transmit-side NRZ mapping (Modulator.binary_to_nrz_signal): every bit becomes
    `upsampling` samples of +1 for a one and −1 for a zero. The source computes it as
    `2·b − 1` passed through scipy's `upfirdn` with the rectangular filter
    `[1] * upsampling`, which up-samples by putting `upsampling − 1` zeros after every
    symbol and then convolves; that computation is modelled step by step and proved
    equal to the plain pulse train. */
module Modulator {
  import opened Common

  /** `[1] * upsampling` is empty for a non-positive factor, and `upfirdn` rejects an
      empty filter. */
  datatype ModulatorError = EmptyFilter

  /** The NRZ level of one bit. */
  function Level(b: Bit): int
  {
    2 * b - 1
  }

  /** numpy's element-wise `2 * v - 1`. */
  function Levels(bits: seq<Bit>): (r: seq<int>)
    ensures |r| == |bits|
    ensures forall k :: 0 <= k < |bits| ==> r[k] == Level(bits[k])
  {
    seq(|bits|, k requires 0 <= k < |bits| => Level(bits[k]))
  }

  /** `upfirdn`'s up-sampling: input sample `q` lands at position `q·up`, every other
      position holds 0. */
  function Upsample(x: seq<int>, up: int): (r: seq<int>)
    requires up >= 1
    ensures |r| == |x| * up
  {
    seq(|x| * up, k requires 0 <= k < |x| * up =>
      DivBelow(k, up, |x|);
      if k % up == 0 then x[k / up] else 0)
  }

  /** The signal value at index `i`, zero outside the signal (the convolution's
      implicit zero extension). */
  function At(s: seq<int>, i: int): int
  {
    if 0 <= i < |s| then s[i] else 0
  }

  /** The first `m` taps of the FIR filter `h` at output position `n`:
      the sum of `h[j]·s[n − j]` over `j < m`. */
  function Taps(h: seq<int>, s: seq<int>, n: int, m: nat): int
    requires m <= |h|
  {
    if m == 0 then 0 else Taps(h, s, n, m - 1) + h[m - 1] * At(s, n - (m - 1))
  }

  /** scipy.signal.upfirdn(h, x, up) with no down-sampling: up-sample, convolve with
      `h`, and keep the `(|x| − 1)·up + |h|` leading samples of the full convolution. */
  function UpFirDn(h: seq<int>, x: seq<int>, up: int): (r: seq<int>)
    requires up >= 1
  {
    var s := Upsample(x, up);
    var len := (|x| - 1) * up + |h|;
    seq(if len < 0 then 0 else len, n => Taps(h, s, n, |h|))
  }

  /** The reference pulse train: each bit held for `u` samples. */
  function Pulses(bits: seq<Bit>, u: nat): (r: seq<int>)
    ensures |r| == |bits| * u
    ensures forall k :: 0 <= k < |r| ==> r[k] == 1 || r[k] == -1
  {
    if bits == [] then [] else seq(u, _ => Level(bits[0])) + Pulses(bits[1..], u)
  }

  /** Modulator.binary_to_nrz_signal, as the source computes it. */
  function NrzSignal(bits: seq<Bit>, upsampling: int): (r: Result<seq<int>, ModulatorError>)
    ensures r.Err? <==> upsampling < 1
    ensures r.Ok? ==> r.value == Pulses(bits, upsampling)
  {
    if upsampling < 1 then Err(EmptyFilter)
    else
      RectangularUpFirDn(bits, upsampling);
      Ok(UpFirDn(Ones(upsampling), Levels(bits), upsampling))
  }

  // ---------------------------------------------------------------------------
  // The rectangular filter rebuilds the pulse train.

  /** Stepping back `j < u` positions from `n` reaches a multiple of `u` exactly when
      `j` is `n`'s offset in its block, and then lands on the block's start. */
  lemma BlockStart(n: int, j: int, u: int)
    requires u >= 1 && 0 <= j < u && j <= n
    ensures (n - j) % u == 0 <==> j == n % u
    ensures j == n % u ==> (n - j) / u == n / u
  {
    var q, r := n / u, n % u;
    if j <= r {
      DivModUnique(n - j, u, q, r - j);
    } else {
      assert q >= 1;
      DivModUnique(n - j, u, q - 1, u + r - j);
    }
  }

  /** The first `m` taps of the rectangular filter pick up the block's symbol once the
      window reaches back to the block start, and nothing before. */
  lemma {:induction false} RectangularTaps(x: seq<int>, u: int, n: int, m: nat)
    requires u >= 1 && 0 <= n < |x| * u && m <= u
    ensures 0 <= n / u < |x|
    ensures Taps(Ones(u), Upsample(x, u), n, m) == (if m > n % u then x[n / u] else 0)
  {
    DivBelow(n, u, |x|);
    if m > 0 {
      RectangularTaps(x, u, n, m - 1);
      var j := m - 1;
      if j <= n {
        BlockStart(n, j, u);
        DivBelow(n - j, u, |x|);
      }
    }
  }

  /** Sample `k` of the pulse train is the level of bit `k / u`. */
  lemma PulsesSample(bits: seq<Bit>, u: int, k: int)
    requires u >= 1 && 0 <= k < |bits| * u
    ensures 0 <= k / u < |bits|
    ensures Pulses(bits, u)[k] == Level(bits[k / u])
  {
    DivBelow(k, u, |bits|);
    var q, r := k / u, k % u;
    assert k == q * u + r;
    PulsesAt(bits, u, q, r);
  }

  /** Offset `r` in block `q` holds the level of bit `q`. */
  lemma {:induction false} PulsesAt(bits: seq<Bit>, u: int, q: int, r: int)
    requires u >= 1 && 0 <= q < |bits| && 0 <= r < u
    ensures q * u + r < |bits| * u
    ensures Pulses(bits, u)[q * u + r] == Level(bits[q])
    decreases q
  {
    if q == 0 {
      PulsesHead(bits, u, r);
    } else {
      PulsesAt(bits[1..], u, q - 1, r);
      assert q * u + r == (q - 1) * u + r + u;
      assert |bits| * u == (|bits| - 1) * u + u;
      PulsesTail(bits, u, q * u + r);
    }
  }

  /** The first `u` samples are the first bit's level. */
  lemma PulsesHead(bits: seq<Bit>, u: int, k: int)
    requires u >= 1 && 0 <= k < u && bits != []
    ensures k < |Pulses(bits, u)| && Pulses(bits, u)[k] == Level(bits[0])
  {
    MulAtLeast(|bits|, u);
    var head := seq(u, _ => Level(bits[0]));
    assert Pulses(bits, u) == head + Pulses(bits[1..], u);
    assert head[k] == Level(bits[0]);
  }

  /** After them come the samples of the remaining bits. */
  lemma PulsesTail(bits: seq<Bit>, u: int, k: int)
    requires u >= 1 && u <= k < |bits| * u
    ensures bits != [] && k - u < |bits[1..]| * u
    ensures Pulses(bits, u)[k] == Pulses(bits[1..], u)[k - u]
  {
    assert |bits| * u == u + (|bits| - 1) * u;
    var head := seq(u, _ => Level(bits[0]));
    assert Pulses(bits, u) == head + Pulses(bits[1..], u);
  }

  lemma RectangularUpFirDn(bits: seq<Bit>, u: int)
    requires u >= 1
    ensures UpFirDn(Ones(u), Levels(bits), u) == Pulses(bits, u)
  {
    var r := UpFirDn(Ones(u), Levels(bits), u);
    var p := Pulses(bits, u);
    assert |r| == |p|;
    forall k | 0 <= k < |r|
      ensures r[k] == p[k]
    {
      RectangularTaps(Levels(bits), u, k, u);
      PulsesSample(bits, u, k);
    }
  }

  // ---------------------------------------------------------------------------
  // Properties of the NRZ signal.

  /** The output has `upsampling` samples per bit, each the level of its bit. */
  lemma NrzSample(bits: seq<Bit>, upsampling: int, k: int)
    requires upsampling >= 1 && 0 <= k < |bits| * upsampling
    ensures 0 <= k / upsampling < |bits|
    ensures NrzSignal(bits, upsampling).value[k] == Level(bits[k / upsampling])
  {
    PulsesSample(bits, upsampling, k);
  }

  lemma {:induction false} PulsesAppend(a: seq<Bit>, b: seq<Bit>, u: nat)
    ensures Pulses(a + b, u) == Pulses(a, u) + Pulses(b, u)
  {
    if a != [] {
      assert (a + b)[1..] == a[1..] + b;
      PulsesAppend(a[1..], b, u);
    } else {
      assert a + b == b;
    }
  }

  /** The mapping works bit by bit: it distributes over concatenation. */
  lemma NrzAppend(a: seq<Bit>, b: seq<Bit>, upsampling: int)
    requires upsampling >= 1
    ensures NrzSignal(a + b, upsampling).value
         == NrzSignal(a, upsampling).value + NrzSignal(b, upsampling).value
  {
    PulsesAppend(a, b, upsampling);
  }
}
