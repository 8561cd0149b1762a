/** Shared vocabulary of the AIS model: bits, bit vectors, failure-carrying
    results, Python-style clamped slicing and big-endian binary numbers. */
module Common {

  /** A binary digit, as the numpy 0/1 arrays of the receive/transmit chain hold them. */
  type Bit = b: int | 0 <= b <= 1

  datatype Option<T> = None | Some(value: T)

  /** The outcome of an operation that the source can abort with an exception. */
  datatype Result<T, E> = Ok(value: T) | Err(error: E)

  function Zeros(n: nat): (r: seq<Bit>)
    ensures |r| == n
    ensures forall i :: 0 <= i < n ==> r[i] == 0
  {
    seq(n, _ => 0)
  }

  function Ones(n: nat): (r: seq<Bit>)
    ensures |r| == n
    ensures forall i :: 0 <= i < n ==> r[i] == 1
  {
    seq(n, _ => 1)
  }

  predicate AllOnes(s: seq<Bit>)
  {
    forall i :: 0 <= i < |s| ==> s[i] == 1
  }

  predicate AllZeros(s: seq<Bit>)
  {
    forall i :: 0 <= i < |s| ==> s[i] == 0
  }

  function XorBit(a: Bit, b: Bit): Bit
  {
    if a == b then 0 else 1
  }

  /** Element-wise exclusive or, numpy's `logical_xor` on two equal-length vectors. */
  function Xor(a: seq<Bit>, b: seq<Bit>): (r: seq<Bit>)
    requires |a| == |b|
    ensures |r| == |a|
    ensures forall i :: 0 <= i < |a| ==> r[i] == XorBit(a[i], b[i])
  {
    seq(|a|, i requires 0 <= i < |a| => XorBit(a[i], b[i]))
  }

  /** Python's `s[lo:hi]` for non-negative bounds: both bounds are clamped to the length. */
  function Slice<T>(s: seq<T>, lo: nat, hi: nat): (r: seq<T>)
    ensures lo <= hi <= |s| ==> r == s[lo..hi]
    ensures |s| <= lo || hi <= lo ==> r == []
    ensures lo <= |s| <= hi ==> r == s[lo..]
  {
    var l := if lo < |s| then lo else |s|;
    var h := if hi < |s| then hi else |s|;
    if l < h then s[l..h] else []
  }

  function Pow2(n: nat): (r: nat)
    ensures r >= 1
  {
    if n == 0 then 1 else 2 * Pow2(n - 1)
  }

  /** The value of a bit vector read most-significant bit first. */
  function BinToNat(s: seq<Bit>): (r: nat)
    ensures r < Pow2(|s|)
  {
    if |s| == 0 then 0 else 2 * BinToNat(s[..|s| - 1]) + s[|s| - 1]
  }

  /** The `w`-bit big-endian representation of `v`. */
  function NatToBits(v: nat, w: nat): (r: seq<Bit>)
    requires v < Pow2(w)
    ensures |r| == w
    ensures BinToNat(r) == v
  {
    if w == 0 then []
    else
      var r := NatToBits(v / 2, w - 1) + [v % 2];
      assert r[..|r| - 1] == NatToBits(v / 2, w - 1);
      r
  }

  /** Reading bits is injective at a fixed width: `NatToBits` is a two-sided inverse. */
  lemma {:induction false} BitsOfValue(s: seq<Bit>)
    ensures NatToBits(BinToNat(s), |s|) == s
  {
    if |s| > 0 {
      var init := s[..|s| - 1];
      var b := s[|s| - 1];
      var q := BinToNat(init);
      var v := BinToNat(s);
      DivModUnique(v, 2, q, b);
      BitsOfValue(init);
      assert NatToBits(v, |s|) == NatToBits(q, |s| - 1) + [b];
      assert s == init + [b];
    }
  }

  /** Leading zeros do not change the value. */
  lemma {:induction false} LeadingZeros(n: nat, s: seq<Bit>)
    ensures BinToNat(Zeros(n) + s) == BinToNat(s)
    decreases |s|
  {
    if |s| == 0 {
      assert Zeros(n) + s == Zeros(n);
      ZerosValue(n);
    } else {
      var s' := s[..|s| - 1];
      assert (Zeros(n) + s)[..|Zeros(n) + s| - 1] == Zeros(n) + s';
      LeadingZeros(n, s');
    }
  }

  lemma {:induction false} ZerosValue(n: nat)
    ensures BinToNat(Zeros(n)) == 0
  {
    if n > 0 {
      assert Zeros(n)[..n - 1] == Zeros(n - 1);
      ZerosValue(n - 1);
    }
  }

  // ---------------------------------------------------------------------------
  // Index arithmetic for the sample schedules of the modulator and demodulator.

  /** Euclidean division is fixed by any quotient and remainder that rebuild `a`. */
  lemma DivModUnique(a: int, d: int, q: int, r: int)
    requires d >= 1 && 0 <= r < d && a == q * d + r
    ensures a / d == q && a % d == r
  {
    var q', r' := a / d, a % d;
    assert (q - q') * d == r' - r;
    if q > q' {
      MulAtLeast(q - q', d);
    } else if q < q' {
      MulAtLeast(q' - q, d);
    }
  }

  lemma MulAtLeast(k: int, d: int)
    requires k >= 1 && d >= 1
    ensures k * d >= d
  {
  }

  /** A position below `n·d` lies in one of the first `n` blocks of `d`. */
  lemma DivBelow(k: int, d: int, n: int)
    requires d >= 1 && 0 <= k < n * d
    ensures 0 <= k / d < n
  {
  }
}
