/** The preamble correlator (Detector.preamble_detector): NRZI-decode the demodulated bits,
    score every candidate 256-bit block by the ±1 inner product of its bits 8..39 with the
    training sequence and start flag, take the first best block and compare its score
    with a threshold. */
module Detector {
  import opened Common
  import Framing
  import Nrzi

  /** Bits per candidate block. */
  const BlockLen: nat := 256
  /** The scored window inside a block: after the eight ramp-up bits, 32 bits long. */
  const WindowLo: nat := 8
  const WindowHi: nat := 40

  /** Detector.__init__: the 24-bit preamble followed by the 8-bit flag. */
  function DetectionSequence(): (d: seq<Bit>)
    ensures |d| == WindowHi - WindowLo
  {
    [0, 1, 0, 1, 0, 1, 0, 1, 0, 1, 0, 1, 0, 1, 0, 1, 0, 1, 0, 1, 0, 1, 0, 1]
    + [0, 1, 1, 1, 1, 1, 1, 0]
  }

  /** The detector looks for exactly what the encoder's framing puts after the ramp-up. */
  lemma DetectionSequenceIsFrameStart()
    ensures DetectionSequence() == Framing.Preamble + Framing.Flag
    ensures Framing.Header()[WindowLo..WindowHi] == DetectionSequence()
  {
    assert Framing.Header() == Zeros(8) + (Framing.Preamble + Framing.Flag);
  }

  /** The antipodal value of a bit, `2 b − 1`. */
  function Sign(b: Bit): int
  {
    2 * b - 1
  }

  /** The ±1 inner product `(2a − 1) · (2b − 1)`. */
  function Dot(a: seq<Bit>, b: seq<Bit>): int
    requires |a| == |b|
    decreases |a|
  {
    if a == [] then 0 else Sign(a[0]) * Sign(b[0]) + Dot(a[1..], b[1..])
  }

  /** The number of positions where two equal-length vectors differ. */
  function Hamming(a: seq<Bit>, b: seq<Bit>): (h: nat)
    requires |a| == |b|
    ensures h <= |a|
    ensures h == 0 <==> a == b
    decreases |a|
  {
    if a == [] then 0
    else
      assert a != b ==> a[0] != b[0] || a[1..] != b[1..] by {
        if a[0] == b[0] && a[1..] == b[1..] {
          assert a == [a[0]] + a[1..] && b == [b[0]] + b[1..];
        }
      }
      (if a[0] == b[0] then 0 else 1) + Hamming(a[1..], b[1..])
  }

  /** Agreements count +1 and disagreements −1. */
  lemma {:induction false} DotIsAgreements(a: seq<Bit>, b: seq<Bit>)
    requires |a| == |b|
    ensures Dot(a, b) == |a| - 2 * Hamming(a, b)
    decreases |a|
  {
    if a != [] {
      DotIsAgreements(a[1..], b[1..]);
    }
  }

  /** The preamble and flag sit in the window of the block starting at `start`. */
  predicate MatchAt(u: seq<Bit>, start: nat)
    requires start + WindowHi <= |u|
  {
    u[start + WindowLo..start + WindowHi] == DetectionSequence()
  }

  /** The score of the block starting at `start` of the NRZI-decoded stream `u`: the ±1
      inner product of its window with the preamble and flag. */
  function Score(u: seq<Bit>, start: nat): (s: int)
    requires start + BlockLen <= |u|
  {
    Dot(u[start + WindowLo..start + WindowHi], DetectionSequence())
  }

  /** A score is 32 minus twice the number of window bits that differ from the preamble
      and flag, so it is 32 exactly on a match. */
  lemma ScoreIsAgreements(u: seq<Bit>, start: nat)
    requires start + BlockLen <= |u|
    ensures Score(u, start) == 32 - 2 * Hamming(u[start + WindowLo..start + WindowHi], DetectionSequence())
    ensures Score(u, start) == 32 <==> MatchAt(u, start)
  {
    DotIsAgreements(u[start + WindowLo..start + WindowHi], DetectionSequence());
  }

  /** The inner products of the first `n` candidate starts (`inner_products`). */
  function Scores(u: seq<Bit>, n: nat): (s: seq<int>)
    requires n == 0 || n + BlockLen <= |u| + 1
    ensures |s| == n
    ensures forall j :: 0 <= j < n ==> s[j] == Score(u, j)
  {
    seq(n, j requires 0 <= j < n => Score(u, j))
  }

  /** numpy's `argmax`: the first position of the maximum. */
  function FirstArgmax(s: seq<int>): (best: nat)
    requires |s| >= 1
    ensures best < |s|
    ensures forall j :: 0 <= j < |s| ==> s[j] <= s[best]
    ensures forall j :: 0 <= j < best ==> s[j] < s[best]
    decreases |s|
  {
    if |s| == 1 then 0
    else
      var b := FirstArgmax(s[..|s| - 1]);
      assert forall j :: 0 <= j < |s| - 1 ==> s[..|s| - 1][j] == s[j];
      if s[|s| - 1] > s[b] then |s| - 1 else b
  }

  /** With no candidate the score matrix is empty, and its product with the ±1 detection
      sequence raises ValueError (mismatched inner dimensions). */
  datatype DetectorError = NoCandidateBlock

  /** The detector's answer: the decision, the block on detection, and the best index,
      which is reported even when nothing is detected. */
  datatype Detection = Detection(detected: bool, block: Option<seq<Bit>>, index: nat)

  /** Score the first `n` starts of `u` and decide. */
  function DetectAmong(u: seq<Bit>, n: nat, threshold: int): (r: Result<Detection, DetectorError>)
    requires n == 0 || n + BlockLen <= |u| + 1
    ensures r.Err? <==> n == 0
    ensures r.Ok? ==> r.value.index < n
    ensures r.Ok? ==> forall j :: 0 <= j < n ==> Score(u, j) <= Score(u, r.value.index)
    ensures r.Ok? ==> forall j :: 0 <= j < r.value.index ==> Score(u, j) < Score(u, r.value.index)
    ensures r.Ok? ==> (r.value.detected <==> Score(u, r.value.index) >= threshold)
    ensures r.Ok? ==> (r.value.block.Some? <==> r.value.detected)
    ensures r.Ok? && r.value.detected ==>
      r.value.block.value == u[r.value.index..r.value.index + BlockLen]
  {
    if n == 0 then Err(NoCandidateBlock)
    else Ok(Decision(u, FirstArgmax(Scores(u, n)), threshold))
  }

  /** The threshold test on the best block. */
  function Decision(u: seq<Bit>, best: nat, threshold: int): Detection
    requires best + BlockLen <= |u|
  {
    if Score(u, best) >= threshold then Detection(true, Some(u[best..best + BlockLen]), best)
    else Detection(false, None, best)
  }

  /** Detector.preamble_detector as written: the candidate starts are `range(0, N − 256)`,
      so the last full block, starting at `N − 256`, is never scored, and an input of 256
      bits or fewer has no candidate at all. */
  function PreambleDetector(v: seq<Bit>, threshold: int): (r: Result<Detection, DetectorError>)
    ensures r.Err? <==> |v| <= BlockLen
    ensures r.Ok? ==> r.value.index + BlockLen < |v|
    ensures r.Ok? && r.value.detected ==>
      r.value.block == Some(Nrzi.NrziInv(v)[r.value.index..r.value.index + BlockLen])
    ensures r.Ok? ==> (r.value.detected <==> Score(Nrzi.NrziInv(v), r.value.index) >= threshold)
    ensures r.Ok? ==> forall j :: 0 <= j < |v| - BlockLen ==>
      Score(Nrzi.NrziInv(v), j) <= Score(Nrzi.NrziInv(v), r.value.index)
    ensures r.Ok? ==> forall j :: 0 <= j < r.value.index ==>
      Score(Nrzi.NrziInv(v), j) < Score(Nrzi.NrziInv(v), r.value.index)
    ensures r.Ok? ==> (r.value.block.Some? <==> r.value.detected)
  {
    var u := Nrzi.NrziInv(v);
    var n := if |u| > BlockLen then |u| - BlockLen else 0;
    DetectAmong(u, n, threshold)
  }

  /** The corrected detector: every start of a full block, `0 .. N − 256`, is a candidate. */
  function PreambleDetectorAllBlocks(v: seq<Bit>, threshold: int): (r: Result<Detection, DetectorError>)
    ensures r.Err? <==> |v| < BlockLen
    ensures r.Ok? ==> r.value.index + BlockLen <= |v|
    ensures r.Ok? && r.value.detected ==>
      r.value.block == Some(Nrzi.NrziInv(v)[r.value.index..r.value.index + BlockLen])
    ensures r.Ok? ==> (r.value.detected <==> Score(Nrzi.NrziInv(v), r.value.index) >= threshold)
    ensures r.Ok? ==> forall j :: 0 <= j <= |v| - BlockLen ==>
      Score(Nrzi.NrziInv(v), j) <= Score(Nrzi.NrziInv(v), r.value.index)
    ensures r.Ok? ==> forall j :: 0 <= j < r.value.index ==>
      Score(Nrzi.NrziInv(v), j) < Score(Nrzi.NrziInv(v), r.value.index)
    ensures r.Ok? ==> (r.value.block.Some? <==> r.value.detected)
  {
    var u := Nrzi.NrziInv(v);
    var n := if |u| >= BlockLen then |u| - BlockLen + 1 else 0;
    DetectAmong(u, n, threshold)
  }

  // ---------------------------------------------------------------------------
  // Properties of the decision.

  /** Lowering the threshold keeps a detection, at the same index. */
  lemma ThresholdMonotone(v: seq<Bit>, t: int, t': int)
    requires t' <= t
    requires PreambleDetector(v, t).Ok? && PreambleDetector(v, t).value.detected
    ensures PreambleDetector(v, t').Ok? && PreambleDetector(v, t').value.detected
    ensures PreambleDetector(v, t').value.index == PreambleDetector(v, t).value.index
  {
  }

  /** The index does not depend on the threshold, detected or not. */
  lemma IndexIndependentOfThreshold(v: seq<Bit>, t: int, t': int)
    requires PreambleDetector(v, t).Ok?
    ensures PreambleDetector(v, t').Ok?
    ensures PreambleDetector(v, t').value.index == PreambleDetector(v, t).value.index
  {
  }

  /** At threshold 32 a detection is an exact 32-bit match of the preamble and flag at the
      reported block, and the first one: no earlier candidate matches. */
  lemma ExactMatchAtFullThreshold(v: seq<Bit>)
    requires PreambleDetector(v, 32).Ok?
    ensures var r := PreambleDetector(v, 32).value;
            r.detected <==> MatchAt(Nrzi.NrziInv(v), r.index)
    ensures var r := PreambleDetector(v, 32).value;
            forall j :: 0 <= j < r.index ==> !MatchAt(Nrzi.NrziInv(v), j)
  {
    var r := PreambleDetector(v, 32).value;
    var u := Nrzi.NrziInv(v);
    ScoreIsAgreements(u, r.index);
    forall j | 0 <= j < r.index
      ensures !MatchAt(u, j)
    {
      ScoreIsAgreements(u, j);
      assert Score(u, j) < Score(u, r.index);
    }
  }

  /** Any exact match among the candidates is found at threshold 32. */
  lemma MatchIsDetected(v: seq<Bit>, j: nat)
    requires j + BlockLen < |v| && MatchAt(Nrzi.NrziInv(v), j)
    ensures PreambleDetector(v, 32).Ok? && PreambleDetector(v, 32).value.detected
    ensures PreambleDetector(v, 32).value.index <= j
  {
    var u := Nrzi.NrziInv(v);
    var r := PreambleDetector(v, 32).value;
    ScoreIsAgreements(u, j);
    ScoreIsAgreements(u, r.index);
    assert Score(u, j) <= Score(u, r.index);
  }

  // ---------------------------------------------------------------------------
  // Detecting a transmitted packet.

  /** NRZI decoding only looks one level back: inside a segment `e` received after any
      prefix, the decoded bits from the second one on are those of `e` decoded alone,
      from any starting level. */
  lemma NrziInvLocal(pre: seq<Bit>, e: seq<Bit>, post: seq<Bit>, level: Bit, k: nat)
    requires 1 <= k < |e|
    ensures Nrzi.NrziInv(pre + e + post)[|pre| + k] == Nrzi.NrziInvFrom(e, level)[k]
  {
    var v := pre + e + post;
    assert v[|pre| + k] == e[k] && v[|pre| + k - 1] == e[k - 1];
  }

  /** A packet framed and NRZI-coded by the encoder, from whatever line level, and
      received after any prefix, matches the preamble and flag exactly at its own start. */
  lemma PacketMatches(pre: seq<Bit>, bits: seq<Bit>, post: seq<Bit>, level: Bit)
    ensures var v := pre + Nrzi.NrziFrom(Framing.AddPreambleFlag(bits), level) + post;
            |pre| + WindowHi <= |Nrzi.NrziInv(v)| && MatchAt(Nrzi.NrziInv(v), |pre|)
  {
    var x := Framing.AddPreambleFlag(bits);
    var e := Nrzi.NrziFrom(x, level);
    var v := pre + e + post;
    var u := Nrzi.NrziInv(v);
    Nrzi.NrziInvOfNrziFrom(x, level);
    DetectionSequenceIsFrameStart();
    forall k | WindowLo <= k < WindowHi
      ensures u[|pre| + k] == x[k]
    {
      NrziInvLocal(pre, e, post, level, k);
    }
    assert u[|pre| + WindowLo..|pre| + WindowHi] == x[WindowLo..WindowHi];
    assert x[WindowLo..WindowHi] == x[..40][WindowLo..WindowHi];
  }

  /** Such a packet scores 32 at its start, so it is detected at threshold 32 as soon as
      its start is a candidate: for the detector as written, when a block start lies
      beyond it. */
  lemma PacketDetected(pre: seq<Bit>, bits: seq<Bit>, post: seq<Bit>, level: Bit)
    requires BlockLen < |bits| + 72 + |post|
    ensures var v := pre + Nrzi.NrziFrom(Framing.AddPreambleFlag(bits), level) + post;
            PreambleDetector(v, 32).Ok? && PreambleDetector(v, 32).value.detected
            && PreambleDetector(v, 32).value.index <= |pre|
  {
    PacketMatches(pre, bits, post, level);
    MatchIsDetected(pre + Nrzi.NrziFrom(Framing.AddPreambleFlag(bits), level) + post, |pre|);
  }

  /** With every full block a candidate, a packet is detected as soon as a whole block
      fits from its start, including a packet that exactly fills the received bits. */
  lemma PacketDetectedAllBlocks(pre: seq<Bit>, bits: seq<Bit>, post: seq<Bit>, level: Bit)
    requires BlockLen <= |bits| + 72 + |post|
    ensures var v := pre + Nrzi.NrziFrom(Framing.AddPreambleFlag(bits), level) + post;
            PreambleDetectorAllBlocks(v, 32).Ok? && PreambleDetectorAllBlocks(v, 32).value.detected
            && PreambleDetectorAllBlocks(v, 32).value.index <= |pre|
  {
    PacketMatches(pre, bits, post, level);
    AllBlocksMatchIsDetected(pre + Nrzi.NrziFrom(Framing.AddPreambleFlag(bits), level) + post, |pre|);
  }

  // ---------------------------------------------------------------------------
  // The last block.

  /** With every full block a candidate, any exact match is found at threshold 32. */
  lemma AllBlocksMatchIsDetected(v: seq<Bit>, j: nat)
    requires j + BlockLen <= |v| && MatchAt(Nrzi.NrziInv(v), j)
    ensures PreambleDetectorAllBlocks(v, 32).Ok? && PreambleDetectorAllBlocks(v, 32).value.detected
    ensures PreambleDetectorAllBlocks(v, 32).value.index <= j
  {
    var u := Nrzi.NrziInv(v);
    var r := PreambleDetectorAllBlocks(v, 32).value;
    ScoreIsAgreements(u, j);
    ScoreIsAgreements(u, r.index);
    assert Score(u, j) <= Score(u, r.index);
  }

  /** One more candidate that scores no higher than the best changes nothing. */
  lemma ExtendCandidates(u: seq<Bit>, n: nat, t: int)
    requires 1 <= n && n + BlockLen <= |u|
    requires Score(u, n) <= Score(u, DetectAmong(u, n, t).value.index)
    ensures DetectAmong(u, n + 1, t) == DetectAmong(u, n, t)
  {
    var s := Scores(u, n + 1);
    var s' := Scores(u, n);
    assert s[..n] == s';
    ArgmaxSnoc(s);
  }

  /** A last entry no larger than the maximum before it leaves the first argmax alone. */
  lemma ArgmaxSnoc(s: seq<int>)
    requires |s| >= 2 && s[|s| - 1] <= s[FirstArgmax(s[..|s| - 1])]
    ensures FirstArgmax(s) == FirstArgmax(s[..|s| - 1])
  {
  }

  /** Where the last block scores no higher than the best earlier one, the two detectors
      agree. */
  lemma AllBlocksAgrees(v: seq<Bit>, t: int)
    requires |v| > BlockLen
    requires Score(Nrzi.NrziInv(v), |v| - BlockLen) <= Score(Nrzi.NrziInv(v), PreambleDetector(v, t).value.index)
    ensures PreambleDetectorAllBlocks(v, t) == PreambleDetector(v, t)
  {
    var u := Nrzi.NrziInv(v);
    var n := |v| - BlockLen;
    DetectorAmong(v, t);
    var d := DetectAmong(u, n, t);
    assert PreambleDetector(v, t) == d;
    ExtendCandidates(u, n, t);
    AllBlocksAmong(v, t);
  }

  /** The detector as written scores the first `N − 256` starts. */
  lemma DetectorAmong(v: seq<Bit>, t: int)
    requires |v| > BlockLen
    ensures PreambleDetector(v, t) == DetectAmong(Nrzi.NrziInv(v), |v| - BlockLen, t)
  {
    assert |Nrzi.NrziInv(v)| == |v|;
  }

  /** The corrected detector scores one start more. */
  lemma AllBlocksAmong(v: seq<Bit>, t: int)
    requires |v| > BlockLen
    ensures PreambleDetectorAllBlocks(v, t) == DetectAmong(Nrzi.NrziInv(v), |v| - BlockLen + 1, t)
  {
    assert |Nrzi.NrziInv(v)| == |v|;
  }

  /** A packet whose 256-bit block exactly fills the received bits: the block matches the
      preamble and flag at start 0, yet the detector as written has no candidate and
      fails, while the corrected one detects it at index 0. */
  lemma LastBlockMissed()
    ensures var v := Nrzi.Nrzi(Framing.Header() + Zeros(216));
            |v| == BlockLen && MatchAt(Nrzi.NrziInv(v), 0)
            && PreambleDetector(v, 32).Err?
            && PreambleDetectorAllBlocks(v, 32) == Ok(Detection(true, Some(Nrzi.NrziInv(v)), 0))
  {
    var x := Framing.Header() + Zeros(216);
    var v := Nrzi.Nrzi(x);
    Nrzi.NrziRoundTrip(x);
    DetectionSequenceIsFrameStart();
    assert x[WindowLo..WindowHi] == Framing.Header()[WindowLo..WindowHi];
    AllBlocksMatchIsDetected(v, 0);
    assert Nrzi.NrziInv(v)[0..BlockLen] == Nrzi.NrziInv(v);
  }
}
