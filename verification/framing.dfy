/** Packet framing (GenAIS.add_preamble_flag) and deframing (Decoder.remove_preamble_flag):
    eight ramp-up zeros, the 24-bit training sequence, the start flag, the data, the end
    flag and a 24-bit zero buffer. */
module Framing {
  import opened Common

  /** The training sequence: twelve repetitions of `0 1`. */
  const Preamble: seq<Bit> := [0, 1, 0, 1, 0, 1, 0, 1, 0, 1, 0, 1, 0, 1, 0, 1, 0, 1, 0, 1, 0, 1, 0, 1]

  /** The HDLC start and end flag `01111110`. */
  const Flag: seq<Bit> := [0, 1, 1, 1, 1, 1, 1, 0]

  /** Everything in front of the data: ramp-up, training sequence, start flag (40 bits). */
  function Header(): (h: seq<Bit>)
    ensures |h| == 40
  {
    Zeros(8) + Preamble + Flag
  }

  /** Everything after the data: end flag and buffer (32 bits). */
  function Trailer(): (t: seq<Bit>)
    ensures |t| == 32
  {
    Flag + Zeros(24)
  }

  lemma PreambleAlternates()
    ensures |Preamble| == 24
    ensures forall k :: 0 <= k < 24 ==> Preamble[k] == k % 2
  {
  }

  /** GenAIS.add_preamble_flag. */
  function AddPreambleFlag(b: seq<Bit>): (r: seq<Bit>)
    ensures |r| == |b| + 72
    ensures r[..40] == Header() && r[40..|r| - 32] == b && r[|r| - 32..] == Trailer()
  {
    var r := Header() + b + Trailer();
    assert r[..40] == Header();
    assert r[40..|r| - 32] == b;
    r
  }

  /** Decoder.remove_preamble_flag: numpy's `v[40:-32]`, which is empty on 72 bits or fewer. */
  function RemovePreambleFlag(v: seq<Bit>): (r: seq<Bit>)
    ensures |v| <= 72 ==> r == []
    ensures |v| > 72 ==> |r| == |v| - 72 && v == v[..40] + r + v[|v| - 32..]
  {
    var hi := if |v| >= 32 then |v| - 32 else 0;
    var r := Slice(v, 40, hi);
    assert |v| > 72 ==> v == v[..40] + v[40..|v| - 32] + v[|v| - 32..];
    r
  }

  /** Deframing recovers the data of every framed packet, including the empty one. */
  lemma DeframeFrame(b: seq<Bit>)
    ensures RemovePreambleFlag(AddPreambleFlag(b)) == b
  {
    var r := AddPreambleFlag(b);
    if |r| <= 72 {
      assert b == r[40..|r| - 32];
    }
  }

  /** Framing restores a received packet whose first 40 and last 32 bits are the fixed
      ones; it needs at least one data bit, since 72 bits deframe to nothing anyway. */
  lemma FrameDeframe(v: seq<Bit>)
    requires |v| > 72 && v[..40] == Header() && v[|v| - 32..] == Trailer()
    ensures AddPreambleFlag(RemovePreambleFlag(v)) == v
  {
  }
}
