/** NRZI line coding (GenAIS.nrzi) and its inverse (Decoder.nrzi_inv, and the identical
    Detector.nrzi_inv). The encoder holds its level on a one and toggles it on a zero;
    the decoder emits a one exactly when a level repeats the previous one. Both start
    from level 0. */
module Nrzi {
  import opened Common

  /** The encoder from a given voltage level. */
  function NrziFrom(b: seq<Bit>, level: Bit): (r: seq<Bit>)
    ensures |r| == |b|
    ensures |b| > 0 ==> (r[0] == level <==> b[0] == 1)
    ensures forall k :: 0 < k < |b| ==> (r[k] == r[k - 1] <==> b[k] == 1)
    decreases |b|
  {
    if b == [] then []
    else
      var next: Bit := if b[0] == 1 then level else 1 - level;
      var tail := NrziFrom(b[1..], next);
      var r := [next] + tail;
      forall k | 1 < k < |b|
        ensures r[k] == r[k - 1] <==> b[k] == 1
      {
        assert r[k] == tail[k - 1] && r[k - 1] == tail[k - 2] && b[k] == b[1..][k - 1];
      }
      r
  }

  /** GenAIS.nrzi: the line level starts at 0. */
  function Nrzi(b: seq<Bit>): (r: seq<Bit>)
    ensures |r| == |b|
    ensures |b| > 0 ==> (r[0] == 0 <==> b[0] == 1)
    ensures forall k :: 0 < k < |b| ==> (r[k] == r[k - 1] <==> b[k] == 1)
  {
    NrziFrom(b, 0)
  }

  /** The decoder with the previous level `state`. */
  function NrziInvFrom(e: seq<Bit>, state: Bit): (r: seq<Bit>)
    ensures |r| == |e|
    ensures |e| > 0 ==> (r[0] == 1 <==> e[0] == state)
    ensures forall k :: 0 < k < |e| ==> (r[k] == 1 <==> e[k] == e[k - 1])
    decreases |e|
  {
    if e == [] then []
    else
      var tail := NrziInvFrom(e[1..], e[0]);
      var r := [if e[0] != state then 0 else 1] + tail;
      forall k | 1 < k < |e|
        ensures r[k] == 1 <==> e[k] == e[k - 1]
      {
        assert r[k] == tail[k - 1] && e[k] == e[1..][k - 1] && e[k - 1] == e[1..][k - 2];
      }
      r
  }

  /** Decoder.nrzi_inv and Detector.nrzi_inv: the state starts at 0. */
  function NrziInv(e: seq<Bit>): (r: seq<Bit>)
    ensures |r| == |e|
    ensures |e| > 0 ==> (r[0] == 1 <==> e[0] == 0)
    ensures forall k :: 0 < k < |e| ==> (r[k] == 1 <==> e[k] == e[k - 1])
  {
    NrziInvFrom(e, 0)
  }

  /** Decoding undoes encoding, from any common starting level. */
  lemma {:induction false} NrziInvOfNrziFrom(b: seq<Bit>, level: Bit)
    ensures NrziInvFrom(NrziFrom(b, level), level) == b
    decreases |b|
  {
    if b != [] {
      var next: Bit := if b[0] == 1 then level else 1 - level;
      NrziInvOfNrziFrom(b[1..], next);
      assert NrziFrom(b, level)[1..] == NrziFrom(b[1..], next);
      assert b == [b[0]] + b[1..];
    }
  }

  /** Encoding undoes decoding, from any common starting level; a first level of 1 is
      no exception. */
  lemma {:induction false} NrziOfNrziInvFrom(e: seq<Bit>, state: Bit)
    ensures NrziFrom(NrziInvFrom(e, state), state) == e
    decreases |e|
  {
    if e != [] {
      NrziOfNrziInvFrom(e[1..], e[0]);
      var b := NrziInvFrom(e, state);
      assert b[1..] == NrziInvFrom(e[1..], e[0]);
      assert NrziFrom(b, state) == [e[0]] + NrziFrom(b[1..], e[0]);
      assert e == [e[0]] + e[1..];
    }
  }

  lemma NrziRoundTrip(b: seq<Bit>)
    ensures NrziInv(Nrzi(b)) == b
  {
    NrziInvOfNrziFrom(b, 0);
  }

  lemma NrziInvRoundTrip(e: seq<Bit>)
    ensures Nrzi(NrziInv(e)) == e
  {
    NrziOfNrziInvFrom(e, 0);
  }

  /** Decoding is prefix-closed: the first bits of a decoded stream depend only on the
      first levels received. */
  lemma {:induction false} NrziInvPrefix(e: seq<Bit>, k: nat)
    requires k <= |e|
    ensures NrziInv(e)[..k] == NrziInv(e[..k])
  {
    var r := NrziInv(e);
    var p := NrziInv(e[..k]);
    forall j | 0 <= j < k
      ensures r[j] == p[j]
    {
      if j > 0 {
        assert e[..k][j] == e[j] && e[..k][j - 1] == e[j - 1];
      }
    }
  }
}
