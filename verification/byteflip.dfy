/** Byte-wise bit-order reversal. The encoder (GenAIS.flip_bits) reverses every
    group of eight, including a trailing partial group; the decoder
    (Decoder.flip_bits) drops a trailing partial group first. */
module ByteFlip {
  import opened Common

  function Reverse(s: seq<Bit>): (r: seq<Bit>)
    ensures |r| == |s|
    ensures forall k :: 0 <= k < |s| ==> r[k] == s[|s| - 1 - k]
  {
    seq(|s|, k requires 0 <= k < |s| => s[|s| - 1 - k])
  }

  /** Where bit `k` of an `n`-bit vector comes from after the encoder's flip: the mirror
      position inside its own group of eight (the last group may be shorter). */
  function Mirror(k: nat, n: nat): nat
    requires k < n
  {
    var start := k - k % 8;
    var stop := if start + 8 <= n then start + 8 else n;
    start + stop - 1 - k
  }

  /** GenAIS.flip_bits: `out[i:i+8] = flip(bits[i:i+8])` for i = 0, 8, 16, … */
  function FlipEncode(b: seq<Bit>): (r: seq<Bit>)
    ensures |r| == |b|
    decreases |b|
  {
    if |b| <= 8 then Reverse(b) else Reverse(b[..8]) + FlipEncode(b[8..])
  }

  /** Bit `k` of the encoder's output is input bit `Mirror(k, |b|)`. */
  lemma {:induction false} FlipEncodeAt(b: seq<Bit>, k: nat)
    requires k < |b|
    ensures Mirror(k, |b|) < |b| && FlipEncode(b)[k] == b[Mirror(k, |b|)]
    decreases |b|
  {
    if |b| <= 8 {
      assert k % 8 == k;
    } else if k < 8 {
      assert k % 8 == k;
      assert FlipEncode(b)[k] == Reverse(b[..8])[k];
    } else {
      FlipEncodeAt(b[8..], k - 8);
      ByteShift(k);
      assert FlipEncode(b)[k] == FlipEncode(b[8..])[k - 8];
    }
  }

  /** One byte further on, the offset inside the byte is the same. */
  lemma ByteShift(k: int)
    requires k >= 8
    ensures (k - 8) % 8 == k % 8
  {
    DivModUnique(k - 8, 8, k / 8 - 1, k % 8);
  }

  lemma FlipEncodeAll(b: seq<Bit>)
    ensures forall k :: 0 <= k < |b| ==> Mirror(k, |b|) < |b| && FlipEncode(b)[k] == b[Mirror(k, |b|)]
  {
    forall k | 0 <= k < |b|
      ensures Mirror(k, |b|) < |b| && FlipEncode(b)[k] == b[Mirror(k, |b|)]
    {
      FlipEncodeAt(b, k);
    }
  }

  /** The encoder's flip is an involution, on every length. */
  lemma FlipEncodeInvolution(b: seq<Bit>)
    ensures FlipEncode(FlipEncode(b)) == b
  {
    var e := FlipEncode(b);
    var r := FlipEncode(e);
    forall k | 0 <= k < |b|
      ensures r[k] == b[k]
    {
      MirrorInvolution(k, |b|);
      FlipEncodeAt(e, k);
      FlipEncodeAt(b, Mirror(k, |b|));
    }
  }

  lemma MirrorInvolution(k: nat, n: nat)
    requires k < n
    ensures Mirror(k, n) < n && Mirror(Mirror(k, n), n) == k
  {
    var m := Mirror(k, n);
    assert m - m % 8 == k - k % 8;
  }

  /** Decoder.flip_bits: only the `n − n mod 8` leading bits are kept, each byte reversed. */
  function FlipDecode(b: seq<Bit>): (r: seq<Bit>)
    ensures |r| == |b| - |b| % 8 && |r| % 8 == 0
  {
    WholeBytes(|b|);
    FlipEncode(b[..|b| - |b| % 8])
  }

  /** Bit `k` of the decoder's output is bit `7 − k mod 8` of its byte. */
  lemma FlipDecodeAt(b: seq<Bit>, k: nat)
    requires k < |FlipDecode(b)|
    ensures k - k % 8 + 7 - k % 8 < |b|
    ensures FlipDecode(b)[k] == b[k - k % 8 + 7 - k % 8]
  {
    var m := |b| - |b| % 8;
    WholeBytes(|b|);
    MirrorWhole(k, m);
    FlipEncodeAt(b[..m], k);
  }

  /** On whole bytes every group is a full byte: bit `k` comes from `7 − k mod 8` in its
      own byte. */
  lemma MirrorWhole(k: nat, m: nat)
    requires m % 8 == 0 && k < m
    ensures Mirror(k, m) == k - k % 8 + 7 - k % 8
  {
    assert k - k % 8 == (k / 8) * 8;
    assert m == (m / 8) * 8;
    assert k / 8 < m / 8;
  }

  /** Cutting an `n`-bit vector down to whole bytes leaves a multiple of eight bits. */
  lemma WholeBytes(n: nat)
    ensures (n - n % 8) % 8 == 0
  {
    DivModUnique(n - n % 8, 8, n / 8, 0);
  }

  /** On whole bytes the decoder keeps everything and flips like the encoder. */
  lemma FlipDecodeWhole(b: seq<Bit>)
    requires |b| % 8 == 0
    ensures FlipDecode(b) == FlipEncode(b)
  {
    var m := |b| - |b| % 8;
    assert m == |b|;
    assert b[..m] == b;
    assert FlipDecode(b) == FlipEncode(b[..m]);
  }

  /** On whole bytes the decoder undoes the encoder. */
  lemma FlipRoundTrip(b: seq<Bit>)
    requires |b| % 8 == 0
    ensures FlipDecode(FlipEncode(b)) == b
  {
    FlipDecodeWhole(FlipEncode(b));
    FlipEncodeInvolution(b);
  }

  /** A trailing partial byte is dropped by the decoder: it sees only the whole bytes. */
  lemma FlipDecodeTruncates(b: seq<Bit>)
    ensures FlipDecode(b) == FlipDecode(b[..|b| - |b| % 8])
    ensures FlipEncode(FlipDecode(b)) == b[..|b| - |b| % 8]
  {
    var t := b[..|b| - |b| % 8];
    WholeBytes(|b|);
    FlipDecodeWhole(t);
    assert FlipDecode(b) == FlipEncode(t);
    FlipEncodeInvolution(t);
  }
}
