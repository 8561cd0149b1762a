/** The 16-bit frame check sequence (compute_crc, add_checksum, remove_checksum).

    The source computes the CRC-16-CCITT remainder with a 17-cell shift register over
    the "augmented" message: 16 zeros are appended, the first 16 message bits are
    inverted (the all-ones initial value folded into the data), every further bit is
    shifted in and the polynomial x^16 + x^12 + x^5 + 1 is subtracted whenever a one
    drops out at the top; the last 16 cells, inverted, are the checksum. */
module Crc {
  import opened Common

  const CrcWidth: nat := 16

  /** x^16 + x^12 + x^5 + 1, highest coefficient first (`bin(2**16 + 2**12 + 2**5 + 2**0)`). */
  const Poly: seq<Bit> := [1, 0, 0, 0, 1, 0, 0, 0, 0, 0, 0, 1, 0, 0, 0, 0, 1]

  /** One loop turn: `reg = reg[1:] + [bit]`, then `reg ^= poly` if `reg[0] == 1`. */
  function Step(reg: seq<Bit>, bit: Bit): (r: seq<Bit>)
    requires |reg| == 17
    ensures |r| == 17 && r[0] == 0
  {
    var shifted := reg[1..] + [bit];
    if shifted[0] == 1 then Xor(shifted, Poly) else shifted
  }

  /** The register after shifting in every bit of `input`, first bit first. */
  function Run(reg: seq<Bit>, input: seq<Bit>): (r: seq<Bit>)
    requires |reg| == 17
    ensures |r| == 17
    decreases |input|
  {
    if input == [] then reg else Run(Step(reg, input[0]), input[1..])
  }

  /** compute_crc: the 16 checksum bits of `bits`, as the source's shift register finds them. */
  function ComputeCrc(bits: seq<Bit>): (r: seq<Bit>)
    ensures |r| == CrcWidth
  {
    var a := bits + Zeros(CrcWidth);
    var am := Xor(a[..CrcWidth], Ones(CrcWidth)) + a[CrcWidth..];
    var reg := Run([0] + am[..CrcWidth], am[CrcWidth..]);
    Xor(reg[1..], Ones(CrcWidth))
  }

  // ---------------------------------------------------------------------------
  // Reference: the direct (non-augmented) CRC-16-CCITT with initial register 0xFFFF
  // and final exclusive or 0xFFFF, one message bit per step, most significant first.

  function DirectStep(reg: seq<Bit>, bit: Bit): (r: seq<Bit>)
    requires |reg| == 16
    ensures |r| == 16
  {
    var top := XorBit(reg[0], bit);
    var shifted := reg[1..] + [0];
    if top == 1 then Xor(shifted, Poly[1..]) else shifted
  }

  function DirectRun(reg: seq<Bit>, input: seq<Bit>): (r: seq<Bit>)
    requires |reg| == 16
    ensures |r| == 16
    decreases |input|
  {
    if input == [] then reg else DirectRun(DirectStep(reg, input[0]), input[1..])
  }

  function CrcCcitt(bits: seq<Bit>): (r: seq<Bit>)
    ensures |r| == CrcWidth
  {
    Xor(DirectRun(Ones(16), bits), Ones(16))
  }

  lemma {:induction false} RunSnoc(reg: seq<Bit>, input: seq<Bit>, bit: Bit)
    requires |reg| == 17
    ensures Run(reg, input + [bit]) == Step(Run(reg, input), bit)
    decreases |input|
  {
    if input == [] {
      assert Run(Step(reg, bit), []) == Step(reg, bit);
    } else {
      assert (input + [bit])[1..] == input[1..] + [bit];
      RunSnoc(Step(reg, input[0]), input[1..], bit);
    }
  }

  lemma {:induction false} DirectRunSnoc(reg: seq<Bit>, input: seq<Bit>, bit: Bit)
    requires |reg| == 16
    ensures DirectRun(reg, input + [bit]) == DirectStep(DirectRun(reg, input), bit)
    decreases |input|
  {
    if input == [] {
      assert DirectRun(DirectStep(reg, bit), []) == DirectStep(reg, bit);
    } else {
      assert (input + [bit])[1..] == input[1..] + [bit];
      DirectRunSnoc(DirectStep(reg, input[0]), input[1..], bit);
    }
  }

  /** One step of the augmented register equals one step of the direct register,
      offset by the 16 message bits still waiting in the augmented register. */
  lemma StepsAgree(d: seq<Bit>, w: seq<Bit>, x: Bit)
    requires |d| == 16 && |w| == 16
    ensures Step([0] + Xor(d, w), x) == [0] + Xor(DirectStep(d, w[0]), w[1..] + [x])
  {
    var lhs := Step([0] + Xor(d, w), x);
    var rhs := [0] + Xor(DirectStep(d, w[0]), w[1..] + [x]);
    forall j | 0 <= j < 17
      ensures lhs[j] == rhs[j]
    {
    }
  }

  /** The invariant of the augmented loop: after loading `a[..16]` (inverted) and shifting
      in the rest, the register holds the direct register of all but the last 16 bits,
      plus those 16 bits. */
  lemma {:induction false} AugmentedInvariant(a: seq<Bit>)
    requires |a| >= 16
    ensures Run([0] + Xor(a[..16], Ones(16)), a[16..])
         == [0] + Xor(DirectRun(Ones(16), a[..|a| - 16]), a[|a| - 16..])
    decreases |a|
  {
    var n := |a|;
    if n == 16 {
      AugmentedBase(a);
    } else {
      var a' := a[..n - 1];
      var x := a[n - 1];
      AugmentedInvariant(a');
      LastWindows(a);
      AugmentedStep([0] + Xor(a[..16], Ones(16)), a'[16..], a'[..n - 17], a'[n - 17..], x);
    }
  }

  /** Before any bit is shifted in, the direct register is still its initial value. */
  lemma AugmentedBase(a: seq<Bit>)
    requires |a| == 16
    ensures Run([0] + Xor(a[..16], Ones(16)), a[16..])
         == [0] + Xor(DirectRun(Ones(16), a[..0]), a[0..])
  {
    assert a[16..] == [] && a[..0] == [] && a[..16] == a[0..] == a;
    var l := Xor(a, Ones(16));
    var r := Xor(Ones(16), a);
    forall i | 0 <= i < 16
      ensures l[i] == r[i]
    {
    }
  }

  /** How the slices of the invariant move when one bit is appended. */
  lemma LastWindows(a: seq<Bit>)
    requires |a| >= 17
    ensures a[..|a| - 1][..16] == a[..16]
    ensures a[16..] == a[..|a| - 1][16..] + [a[|a| - 1]]
    ensures a[..|a| - 16] == a[..|a| - 1][..|a| - 17] + [a[..|a| - 1][|a| - 17..][0]]
    ensures a[|a| - 16..] == a[..|a| - 1][|a| - 17..][1..] + [a[|a| - 1]]
  {
  }

  /** One more bit keeps the invariant: the augmented register's oldest waiting bit moves
      into the direct register. */
  lemma AugmentedStep(r0: seq<Bit>, m: seq<Bit>, p: seq<Bit>, w: seq<Bit>, x: Bit)
    requires |r0| == 17 && |w| == 16
    requires Run(r0, m) == [0] + Xor(DirectRun(Ones(16), p), w)
    ensures Run(r0, m + [x]) == [0] + Xor(DirectRun(Ones(16), p + [w[0]]), w[1..] + [x])
  {
    RunSnoc(r0, m, x);
    StepsAgree(DirectRun(Ones(16), p), w, x);
    DirectRunSnoc(Ones(16), p, w[0]);
  }

  /** The source's checksum is the standard CRC-16-CCITT of the message (initial value
      0xFFFF, final exclusive or 0xFFFF, message bits most significant first). */
  lemma ComputeCrcIsCcitt(bits: seq<Bit>)
    ensures ComputeCrc(bits) == CrcCcitt(bits)
  {
    var a := bits + Zeros(16);
    AugmentedInvariant(a);
    assert a[..|a| - 16] == bits;
    assert a[|a| - 16..] == Zeros(16);
    var d := DirectRun(Ones(16), bits);
    assert Xor(d, Zeros(16)) == d;
    var am := Xor(a[..16], Ones(16)) + a[16..];
    assert am[..16] == Xor(a[..16], Ones(16)) && am[16..] == a[16..];
  }

  /** The checksum of the empty message is sixteen zeros. */
  lemma CrcOfEmpty()
    ensures ComputeCrc([]) == Zeros(16)
  {
    ComputeCrcIsCcitt([]);
    assert DirectRun(Ones(16), []) == Ones(16);
  }

  // ---------------------------------------------------------------------------
  // Linearity of the direct register, and why a single flipped bit is always caught.

  lemma DirectStepLinear(r1: seq<Bit>, r2: seq<Bit>, a: Bit, b: Bit)
    requires |r1| == 16 && |r2| == 16
    ensures DirectStep(Xor(r1, r2), XorBit(a, b)) == Xor(DirectStep(r1, a), DirectStep(r2, b))
  {
    var lhs := DirectStep(Xor(r1, r2), XorBit(a, b));
    var rhs := Xor(DirectStep(r1, a), DirectStep(r2, b));
    forall j | 0 <= j < 16
      ensures lhs[j] == rhs[j]
    {
    }
  }

  lemma {:induction false} DirectRunLinear(r1: seq<Bit>, r2: seq<Bit>, a: seq<Bit>, b: seq<Bit>)
    requires |r1| == 16 && |r2| == 16 && |a| == |b|
    ensures DirectRun(Xor(r1, r2), Xor(a, b)) == Xor(DirectRun(r1, a), DirectRun(r2, b))
    decreases |a|
  {
    if a != [] {
      DirectStepLinear(r1, r2, a[0], b[0]);
      assert Xor(a, b)[1..] == Xor(a[1..], b[1..]);
      DirectRunLinear(DirectStep(r1, a[0]), DirectStep(r2, b[0]), a[1..], b[1..]);
    }
  }

  predicate NonZero(r: seq<Bit>)
  {
    exists i :: 0 <= i < |r| && r[i] == 1
  }

  lemma {:induction false} ZeroRegisterStaysZero(n: nat)
    ensures DirectRun(Zeros(16), Zeros(n)) == Zeros(16)
  {
    if n > 0 {
      assert DirectStep(Zeros(16), 0) == Zeros(16);
      assert Zeros(n)[1..] == Zeros(n - 1);
      ZeroRegisterStaysZero(n - 1);
    }
  }

  /** Shifting zeros into a non-zero register never clears it: the constant term of the
      polynomial refills the bottom cell whenever a one drops out at the top. */
  lemma {:induction false} NonZeroStaysNonZero(r: seq<Bit>, n: nat)
    requires |r| == 16 && NonZero(r)
    ensures NonZero(DirectRun(r, Zeros(n)))
    decreases n
  {
    if n > 0 {
      var s := DirectStep(r, 0);
      StepKeepsNonZero(r);
      assert Zeros(n)[1..] == Zeros(n - 1);
      assert DirectRun(r, Zeros(n)) == DirectRun(s, Zeros(n - 1));
      NonZeroStaysNonZero(s, n - 1);
    }
  }

  lemma StepKeepsNonZero(r: seq<Bit>)
    requires |r| == 16 && NonZero(r)
    ensures NonZero(DirectStep(r, 0))
  {
    var s := DirectStep(r, 0);
    if r[0] == 1 {
      assert s[15] == 1;
    } else {
      var i :| 0 <= i < 16 && r[i] == 1;
      assert s[i - 1] == 1;
    }
  }

  function Unit(n: nat, k: nat): (e: seq<Bit>)
    requires k < n
    ensures |e| == n
  {
    Zeros(k) + [1] + Zeros(n - k - 1)
  }

  /** A message with a single one in it has a non-zero register. */
  lemma {:induction false} UnitSyndrome(n: nat, k: nat)
    requires k < n
    ensures NonZero(DirectRun(Zeros(16), Unit(n, k)))
  {
    var e := Unit(n, k);
    DirectRunAppend(Zeros(16), Zeros(k), [1] + Zeros(n - k - 1));
    assert e == Zeros(k) + ([1] + Zeros(n - k - 1));
    ZeroRegisterStaysZero(k);
    var s := DirectStep(Zeros(16), 1);
    assert s[15] == 1;
    assert DirectRun(Zeros(16), [1] + Zeros(n - k - 1)) == DirectRun(s, Zeros(n - k - 1));
    NonZeroStaysNonZero(s, n - k - 1);
  }

  lemma {:induction false} DirectRunAppend(reg: seq<Bit>, a: seq<Bit>, b: seq<Bit>)
    requires |reg| == 16
    ensures DirectRun(reg, a + b) == DirectRun(DirectRun(reg, a), b)
    decreases |a|
  {
    if a == [] {
      assert a + b == b;
    } else {
      assert (a + b)[1..] == a[1..] + b;
      DirectRunAppend(DirectStep(reg, a[0]), a[1..], b);
    }
  }

  /** Bit `k` of `s` inverted. */
  function FlipBit(s: seq<Bit>, k: nat): (r: seq<Bit>)
    requires k < |s|
    ensures |r| == |s| && r[k] != s[k]
    ensures forall i :: 0 <= i < |s| && i != k ==> r[i] == s[i]
  {
    s[k := 1 - s[k]]
  }

  /** CRC-16 detects every single-bit error in the message. */
  lemma SingleBitChangesCrc(m: seq<Bit>, k: nat)
    requires k < |m|
    ensures ComputeCrc(FlipBit(m, k)) != ComputeCrc(m)
  {
    var n := |m|;
    var e := Unit(n, k);
    assert FlipBit(m, k) == Xor(m, e);
    assert Xor(Ones(16), Zeros(16)) == Ones(16);
    DirectRunLinear(Ones(16), Zeros(16), m, e);
    var d := DirectRun(Ones(16), m);
    var syn := DirectRun(Zeros(16), e);
    UnitSyndrome(n, k);
    var i :| 0 <= i < 16 && syn[i] == 1;
    ComputeCrcIsCcitt(m);
    ComputeCrcIsCcitt(FlipBit(m, k));
    assert CrcCcitt(FlipBit(m, k))[i] != CrcCcitt(m)[i];
  }

  // ---------------------------------------------------------------------------
  // Appending and verifying the checksum.

  /** add_checksum: the message followed by its 16 checksum bits. */
  function AddChecksum(bits: seq<Bit>): (r: seq<Bit>)
    ensures |r| == |bits| + CrcWidth
    ensures r[..|bits|] == bits
  {
    bits + ComputeCrc(bits)
  }

  /** The decoder's checksum verdict travels with the data instead of living in the
      decoder instance (`correct_checksum`). */
  datatype Checked = Checked(bits: seq<Bit>, crcOk: bool)

  datatype CrcError = ChecksumShapeMismatch  // numpy cannot broadcast (16,) against (n,)

  /** remove_checksum. From 16 bits on: the last 16 bits are the received checksum and the
      verdict compares it with the checksum of the rest. Shorter inputs follow numpy:
      one bit is broadcast against all 16 computed bits; any other length fails. */
  function RemoveChecksum(v: seq<Bit>): (r: Result<Checked, CrcError>)
    ensures |v| >= CrcWidth ==> r.Ok? && r.value.bits == v[..|v| - CrcWidth]
    ensures |v| >= CrcWidth ==> (r.value.crcOk <==> ComputeCrc(v[..|v| - CrcWidth]) == v[|v| - CrcWidth..])
    ensures |v| >= CrcWidth ==> (r.value.crcOk <==> v == AddChecksum(r.value.bits))
    ensures r.Err? <==> |v| == 0 || 2 <= |v| < CrcWidth
    ensures |v| == 1 ==> r == Ok(Checked([], v[0] == 0))
  {
    var n := |v|;
    if n >= CrcWidth then
      var data := v[..n - CrcWidth];
      assert v == data + v[n - CrcWidth..];
      Ok(Checked(data, ComputeCrc(data) == v[n - CrcWidth..]))
    else if n == 1 then
      var crc := ComputeCrc([]);
      CrcOfEmpty();
      assert crc[0] == 0;
      Ok(Checked([], forall j :: 0 <= j < CrcWidth ==> crc[j] == v[0]))
    else
      Err(ChecksumShapeMismatch)
  }

  /** Verifying a freshly checksummed message gives the message back with a true verdict. */
  lemma ChecksumRoundTrip(bits: seq<Bit>)
    ensures RemoveChecksum(AddChecksum(bits)) == Ok(Checked(bits, true))
  {
    var v := AddChecksum(bits);
    assert v[..|v| - CrcWidth] == bits;
  }

  /** Flipping any single bit of a checksummed message, in the data or in the checksum,
      makes the verdict false. */
  lemma SingleBitErrorDetected(bits: seq<Bit>, k: nat)
    requires k < |bits| + CrcWidth
    ensures RemoveChecksum(FlipBit(AddChecksum(bits), k)).Ok?
    ensures !RemoveChecksum(FlipBit(AddChecksum(bits), k)).value.crcOk
  {
    var v := AddChecksum(bits);
    var f := FlipBit(v, k);
    var n := |bits|;
    if k < n {
      assert f[..n] == FlipBit(bits, k);
      assert f[n..] == ComputeCrc(bits);
      SingleBitChangesCrc(bits, k);
    } else {
      assert f[..n] == bits;
      assert f[n..][k - n] != ComputeCrc(bits)[k - n];
    }
  }
}
