/** HDLC bit stuffing (GenAIS.bit_stuffing) and its inverse (Decoder.bit_stuffing_inv).

    Both source routines scan with a five-bit window that ends at index `i`. The
    reference definitions `Stuff` and `Destuff` below read the same rule bit by bit with
    a counter of the ones seen since the last zero: a fifth one is followed by an
    inserted zero (stuffing), or by a bit that is dropped whatever it is (destuffing).
    The two loop methods are proved to compute exactly the reference functions. */
module Stuffing {
  import opened Common

  /** The number of ones at the end of `s`. */
  function TrailingOnes(s: seq<Bit>): (n: nat)
    ensures n <= |s|
  {
    if s == [] || s[|s| - 1] == 0 then 0 else TrailingOnes(s[..|s| - 1]) + 1
  }

  lemma TrailingOnesSnoc(s: seq<Bit>, x: Bit)
    ensures TrailingOnes(s + [x]) == if x == 1 then TrailingOnes(s) + 1 else 0
  {
    assert (s + [x])[..|s|] == s;
  }

  /** A suffix of `k` ones is what a trailing-ones count of at least `k` means. */
  lemma {:induction false} TrailingOnesSuffix(s: seq<Bit>, k: nat)
    requires k <= |s|
    ensures TrailingOnes(s) >= k <==> AllOnes(s[|s| - k..])
  {
    if k > 0 {
      var s' := s[..|s| - 1];
      TrailingOnesSuffix(s', k - 1);
      assert s[|s| - k..] == s'[|s'| - (k - 1)..] + [s[|s| - 1]];
    }
  }

  // ---------------------------------------------------------------------------
  // Reference definitions.

  /** Stuffing with `c` ones already seen: after the fifth one in a row a zero is inserted
      and counting restarts. */
  function StuffFrom(b: seq<Bit>, c: nat): seq<Bit>
    decreases |b|
  {
    if b == [] then []
    else if b[0] == 1 then
      if c >= 4 then [1, 0] + StuffFrom(b[1..], 0) else [1] + StuffFrom(b[1..], c + 1)
    else [0] + StuffFrom(b[1..], 0)
  }

  function Stuff(b: seq<Bit>): seq<Bit>
  {
    StuffFrom(b, 0)
  }

  /** Destuffing with `c` ones already seen: the bit after the fifth one in a row is
      dropped, whatever its value, and counting restarts after it. */
  function DestuffFrom(b: seq<Bit>, c: nat): seq<Bit>
    decreases |b|
  {
    if b == [] then []
    else if b[0] == 1 then
      if c >= 4 then [1] + (if |b| == 1 then [] else DestuffFrom(b[2..], 0))
      else [1] + DestuffFrom(b[1..], c + 1)
    else [0] + DestuffFrom(b[1..], 0)
  }

  function Destuff(b: seq<Bit>): seq<Bit>
  {
    DestuffFrom(b, 0)
  }

  /** Too few bits to complete a run of five: nothing is inserted. */
  lemma {:induction false} StuffShortRun(b: seq<Bit>, c: nat)
    requires c + |b| <= 4
    ensures StuffFrom(b, c) == b
    decreases |b|
  {
    if b != [] {
      StuffShortRun(b[1..], if b[0] == 1 then c + 1 else 0);
    }
  }

  /** Too few bits to complete a run of five: nothing is dropped. */
  lemma {:induction false} DestuffShortRun(b: seq<Bit>, c: nat)
    requires c + |b| <= 4
    ensures DestuffFrom(b, c) == b
    decreases |b|
  {
    if b != [] {
      DestuffShortRun(b[1..], if b[0] == 1 then c + 1 else 0);
    }
  }

  // ---------------------------------------------------------------------------
  // The source loops.

  /** The five-bit window `bits[i-4 : i+1]` compared with `np.ones(5)`: a window cut short
      by the end of the array has the wrong shape and never matches. */
  predicate WindowAllOnes(v: seq<Bit>, i: nat)
    requires i >= 4
  {
    Slice(v, i - 4, i + 1) == Ones(5)
  }

  /** When the window ends at `|a|`, inside `a + rest`, it matches exactly when `a` ends
      with four ones and the next bit is a one. */
  lemma WindowAtBoundary(a: seq<Bit>, rest: seq<Bit>)
    requires |a| >= 4
    ensures WindowAllOnes(a + rest, |a|) <==> rest != [] && TrailingOnes(a) >= 4 && rest[0] == 1
  {
    TrailingOnesSuffix(a, 4);
    if rest != [] {
      WindowInside(a, rest);
    } else {
      assert |Slice(a + rest, |a| - 4, |a| + 1)| == 4;
    }
  }

  /** A window with a bit after it is the last four bits of `a` and that bit. */
  lemma WindowInside(a: seq<Bit>, rest: seq<Bit>)
    requires |a| >= 4 && rest != []
    ensures WindowAllOnes(a + rest, |a|) <==> AllOnes(a[|a| - 4..]) && rest[0] == 1
  {
    var v := a + rest;
    var i := |a|;
    var w := v[i - 4..i + 1];
    assert Slice(v, i - 4, i + 1) == w;
    assert w == a[|a| - 4..] + [rest[0]];
    OnesWindow(a[|a| - 4..], rest[0]);
  }

  /** Four bits and one more are five ones exactly when all of them are ones. */
  lemma OnesWindow(s: seq<Bit>, x: Bit)
    requires |s| == 4
    ensures s + [x] == Ones(5) <==> AllOnes(s) && x == 1
  {
    if AllOnes(s) && x == 1 {
      assert forall k :: 0 <= k < 5 ==> (s + [x])[k] == Ones(5)[k];
      assert s + [x] == Ones(5);
    }
    if s + [x] == Ones(5) {
      var w := s + [x];
      forall k | 0 <= k < 4
        ensures s[k] == 1
      {
        assert s[k] == w[k] == Ones(5)[k];
      }
      assert x == w[4] == Ones(5)[4];
    }
  }

  /** One bit that does not complete a run moves from the pending input to the output. */
  lemma StuffCopyStep(a: seq<Bit>, rest: seq<Bit>)
    requires rest != [] && !(TrailingOnes(a) >= 4 && rest[0] == 1)
    ensures TrailingOnes(a + [rest[0]]) == if rest[0] == 1 then TrailingOnes(a) + 1 else 0
    ensures a + StuffFrom(rest, TrailingOnes(a))
         == (a + [rest[0]]) + StuffFrom(rest[1..], TrailingOnes(a + [rest[0]]))
  {
    TrailingOnesSnoc(a, rest[0]);
  }

  /** The fifth one of a run moves to the output followed by the inserted zero. */
  lemma StuffInsertStep(a: seq<Bit>, rest: seq<Bit>)
    requires rest != [] && TrailingOnes(a) >= 4 && rest[0] == 1
    ensures TrailingOnes(a + [1, 0]) == 0
    ensures a + StuffFrom(rest, TrailingOnes(a)) == (a + [1, 0]) + StuffFrom(rest[1..], 0)
  {
    var s := a + [1, 0];
    assert s[|s| - 1] == 0;
    var tail := StuffFrom(rest[1..], 0);
    assert StuffFrom(rest, TrailingOnes(a)) == [1, 0] + tail;
    assert a + ([1, 0] + tail) == s + tail;
  }

  /** Skipping `d` windows that cannot match: `d` pending bits move to the output unchanged. */
  lemma {:induction false} StuffSkip(a: seq<Bit>, rest: seq<Bit>, d: nat) returns (a': seq<Bit>, rest': seq<Bit>)
    requires d <= |rest| && (rest == [] || TrailingOnes(a) + d <= 4)
    ensures a' + rest' == a + rest && |a'| == |a| + d
    ensures rest' == [] || TrailingOnes(a') <= 4
    ensures a' + StuffFrom(rest', TrailingOnes(a')) == a + StuffFrom(rest, TrailingOnes(a))
    decreases d
  {
    if d == 0 {
      a', rest' := a, rest;
    } else {
      StuffCopyStep(a, rest);
      a', rest' := StuffSkip(a + [rest[0]], rest[1..], d - 1);
    }
  }

  /** The encoder loop's invariant: the array is `a + rest`, where `a` is final and
      `rest` is the input not yet stuffed, and the `d` windows ending between `|a|` and
      `i` cannot match. */
  predicate StuffInv(bits: seq<Bit>, v: seq<Bit>, i: nat, a: seq<Bit>, rest: seq<Bit>, d: nat)
  {
    v == a + rest && i == |a| + d && i >= 4
    && (rest == [] || TrailingOnes(a) + d <= 4)
    && a + StuffFrom(rest, TrailingOnes(a)) == Stuff(bits)
  }

  /** A window of five ones: a zero goes in after it and the scan jumps onto that zero. */
  lemma StuffInsert(bits: seq<Bit>, v: seq<Bit>, i: nat, a: seq<Bit>, rest: seq<Bit>, d: nat)
    returns (a': seq<Bit>, rest': seq<Bit>)
    requires StuffInv(bits, v, i, a, rest, d) && i <= |v| && WindowAllOnes(v, i)
    ensures i + 1 <= |v|
    ensures StuffInv(bits, v[..i + 1] + [0] + v[i + 1..], i + 5, a', rest', 3)
  {
    var a1, r1 := StuffSkip(a, rest, d);
    WindowAtBoundary(a1, r1);
    StuffInsertStep(a1, r1);
    a', rest' := a1 + [1, 0], r1[1..];
    assert v[..i + 1] == a1 + [1];
    assert v[i + 1..] == r1[1..];
  }

  /** Any other window: the scan moves one place. */
  lemma StuffKeep(bits: seq<Bit>, v: seq<Bit>, i: nat, a: seq<Bit>, rest: seq<Bit>, d: nat)
    returns (a': seq<Bit>, rest': seq<Bit>, d': nat)
    requires StuffInv(bits, v, i, a, rest, d) && i <= |v| && !WindowAllOnes(v, i)
    ensures StuffInv(bits, v, i + 1, a', rest', d')
  {
    var a1, r1 := StuffSkip(a, rest, d);
    WindowAtBoundary(a1, r1);
    if r1 == [] {
      a', rest', d' := a1, r1, 1;
    } else {
      StuffCopyStep(a1, r1);
      a', rest', d' := a1 + [r1[0]], r1[1..], 0;
    }
  }

  /** Once the window runs past the end, the pending bits are too few to be stuffed. */
  lemma StuffDone(bits: seq<Bit>, v: seq<Bit>, i: nat, a: seq<Bit>, rest: seq<Bit>, d: nat)
    requires StuffInv(bits, v, i, a, rest, d) && i > |v|
    ensures v == Stuff(bits)
  {
    if rest != [] {
      StuffShortRun(rest, TrailingOnes(a));
    }
  }

  /** GenAIS.bit_stuffing: the array grows by one zero after every window of five ones, the
      scan then jumps five places (onto the inserted zero) and otherwise one place. */
  method BitStuffing(bits: seq<Bit>) returns (v: seq<Bit>)
    ensures v == Stuff(bits)
  {
    v := bits;
    var i: nat := 4;
    ghost var a: seq<Bit> := [];
    ghost var rest := bits;
    ghost var d: nat := 4;
    while i <= |v|
      invariant StuffInv(bits, v, i, a, rest, d)
      decreases |v| + 1 - i
    {
      if WindowAllOnes(v, i) {
        a, rest := StuffInsert(bits, v, i, a, rest, d);
        d := 3;
        v := v[..i + 1] + [0] + v[i + 1..];
        i := i + 5;
      } else {
        a, rest, d := StuffKeep(bits, v, i, a, rest, d);
        i := i + 1;
      }
    }
    StuffDone(bits, v, i, a, rest, d);
  }

  /** What the decoder still owes once `v[i0..k]` has been scanned: that segment, then the
      destuffed remainder with the run of ones the segment ends in. */
  function Pending(v: seq<Bit>, i0: nat, k: nat): seq<Bit>
    requires i0 <= k <= |v|
  {
    v[i0..k] + DestuffFrom(v[k..], TrailingOnes(v[i0..k]))
  }

  lemma DestuffCopyStep(v: seq<Bit>, i0: nat, i: nat)
    requires i0 <= i < |v| && !(TrailingOnes(v[i0..i]) >= 4 && v[i] == 1)
    ensures TrailingOnes(v[i0..i + 1]) == if v[i] == 1 then TrailingOnes(v[i0..i]) + 1 else 0
    ensures Pending(v, i0, i) == Pending(v, i0, i + 1)
  {
    assert v[i0..i + 1] == v[i0..i] + [v[i]];
    TrailingOnesSnoc(v[i0..i], v[i]);
    assert v[i..][1..] == v[i + 1..];
  }

  /** The bit after a fifth one is dropped. */
  lemma DestuffFromDrop(b: seq<Bit>, c: nat)
    requires b != [] && b[0] == 1 && c >= 4
    ensures DestuffFrom(b, c) == [1] + (if |b| == 1 then [] else DestuffFrom(b[2..], 0))
  {
  }

  /** Dropping after a scanned segment: the fifth one joins the segment and the next
      bit disappears. */
  lemma DropSplit(seg: seq<Bit>, s: seq<Bit>, c: nat)
    requires s != [] && s[0] == 1 && c >= 4
    ensures seg + DestuffFrom(s, c) == (seg + [1]) + (if |s| == 1 then [] else DestuffFrom(s[2..], 0))
  {
    DestuffFromDrop(s, c);
  }

  lemma DestuffDropStep(v: seq<Bit>, i0: nat, i: nat)
    requires i0 <= i < |v| && TrailingOnes(v[i0..i]) >= 4 && v[i] == 1
    ensures Pending(v, i0, i) == v[i0..i + 1] + (if i + 1 == |v| then [] else DestuffFrom(v[i + 2..], 0))
  {
    var s := v[i..];
    var seg := v[i0..i];
    var c := TrailingOnes(seg);
    assert Pending(v, i0, i) == seg + DestuffFrom(s, c);
    assert s[0] == 1;
    DropSplit(seg, s, c);
    assert v[i0..i + 1] == seg + [1];
    if i + 1 < |v| {
      assert s[2..] == v[i + 2..];
    }
  }

  /** Scanning restarts with an empty segment. */
  lemma PendingStart(v: seq<Bit>, j: nat)
    requires j <= |v|
    ensures TrailingOnes(v[j..j]) == 0
    ensures Pending(v, j, j) == DestuffFrom(v[j..], 0)
  {
    assert v[j..j] == [];
  }

  lemma {:induction false} DestuffSkip(v: seq<Bit>, i0: nat, k: nat, d: nat)
    requires i0 <= k && k + d <= |v| && TrailingOnes(v[i0..k]) + d <= 4
    ensures TrailingOnes(v[i0..k + d]) <= 4
    ensures Pending(v, i0, k + d) == Pending(v, i0, k)
    decreases d
  {
    if d > 0 {
      DestuffCopyStep(v, i0, k);
      DestuffSkip(v, i0, k + 1, d - 1);
    }
  }

  /** The decoder's window, ending at `i` at least four bits after the last drop, matches
      exactly when the scanned segment ends in four ones and `v[i]` is a one. */
  lemma DestuffWindow(v: seq<Bit>, i0: nat, i: nat)
    requires i0 + 4 <= i < |v|
    ensures Slice(v, i - 4, i + 1) == Ones(5) <==> TrailingOnes(v[i0..i]) >= 4 && v[i] == 1
  {
    WindowAtBoundary(v[i0..i], v[i..]);
    assert v[i0..i] + v[i..] == v[i0..];
    assert Slice(v, i - 4, i + 1) == Slice(v[i0..], i - i0 - 4, i - i0 + 1);
  }

  /** The decoder loop's invariant. While `i0 <= |v|`, `v[i0..k]` has been scanned
      without finding a run and the `d` windows ending between `k` and `i` reach back
      before `i0` and are not looked at; once the last drop lands past the end
      (`i0 == |v| + 1`) the output is complete. */
  predicate DestuffInv(v: seq<Bit>, out: seq<Bit>, i0: nat, i: nat, k: nat, d: nat)
  {
    i0 <= i
    && (i0 <= |v| ==>
          i0 <= k <= |v| && i == k + d && k - i0 + d >= 4
          && TrailingOnes(v[i0..k]) + d <= 4
          && out + Pending(v, i0, k) == Destuff(v))
    && (i0 > |v| ==> i0 == |v| + 1 && out == Destuff(v))
  }

  /** A window of five ones: the segment up to the window's end goes out, the next bit is
      skipped, and scanning restarts two places further. */
  lemma DestuffDrop(v: seq<Bit>, out: seq<Bit>, i0: nat, i: nat, k: nat, d: nat)
    requires DestuffInv(v, out, i0, i, k, d) && i < |v| && Slice(v, i - 4, i + 1) == Ones(5)
    ensures i0 <= i
    ensures DestuffInv(v, out + v[i0..i + 1], i + 2, i + 6, i + 2, 4)
  {
    DestuffSkip(v, i0, k, d);
    DestuffWindow(v, i0, i);
    DestuffDropStep(v, i0, i);
    if i + 1 < |v| {
      DropInside(v, out, i0, i);
    }
  }

  /** A drop before the end: scanning restarts two bits on with an empty segment. */
  lemma DropInside(v: seq<Bit>, out: seq<Bit>, i0: nat, i: nat)
    requires i0 <= i && i + 2 <= |v|
    requires out + Pending(v, i0, i) == Destuff(v)
    requires Pending(v, i0, i) == v[i0..i + 1] + DestuffFrom(v[i + 2..], 0)
    ensures DestuffInv(v, out + v[i0..i + 1], i + 2, i + 6, i + 2, 4)
  {
    PendingStart(v, i + 2);
    var seg := v[i0..i + 1];
    var tail := DestuffFrom(v[i + 2..], 0);
    assert (out + seg) + tail == out + (seg + tail);
  }

  /** Any other window: the scan moves one place. */
  lemma DestuffKeep(v: seq<Bit>, out: seq<Bit>, i0: nat, i: nat, k: nat, d: nat)
    requires DestuffInv(v, out, i0, i, k, d) && i < |v| && Slice(v, i - 4, i + 1) != Ones(5)
    ensures DestuffInv(v, out, i0, i + 1, i + 1, 0)
  {
    DestuffSkip(v, i0, k, d);
    DestuffWindow(v, i0, i);
    DestuffCopyStep(v, i0, i);
  }

  /** After the scan the unscanned tail is copied verbatim, which completes the output. */
  lemma DestuffDone(v: seq<Bit>, out: seq<Bit>, i0: nat, i: nat, k: nat, d: nat)
    requires DestuffInv(v, out, i0, i, k, d) && i >= |v|
    ensures out + Slice(v, i0, |v|) == Destuff(v)
  {
    if i0 <= |v| {
      DestuffShortRun(v[k..], TrailingOnes(v[i0..k]));
      assert v[i0..k] + v[k..] == v[i0..];
    }
  }

  /** Decoder.bit_stuffing_inv: on a window of five ones the segment since the last dropped
      bit is copied out up to the window's end, the next bit is skipped, and the scan jumps
      six places; the tail after the last run is copied verbatim. */
  method BitStuffingInv(v: seq<Bit>) returns (out: seq<Bit>)
    ensures out == Destuff(v)
  {
    var n := |v|;
    var i: nat := 4;
    var i0: nat := 0;
    out := [];
    ghost var k: nat := 0;
    ghost var d: nat := 4;
    assert v[0..0] == [] && v[0..] == v;
    while i < n
      invariant DestuffInv(v, out, i0, i, k, d)
      decreases n - i
    {
      if Slice(v, i - 4, i + 1) == Ones(5) {
        DestuffDrop(v, out, i0, i, k, d);
        out := out + v[i0..i + 1];
        i0, k, d := i + 2, i + 2, 4;
        i := i + 6;
      } else {
        DestuffKeep(v, out, i0, i, k, d);
        i := i + 1;
        k, d := i, 0;
      }
    }
    DestuffDone(v, out, i0, i, k, d);
    out := out + Slice(v, i0, n);
  }

  // ---------------------------------------------------------------------------
  // Properties.

  lemma {:induction false} DestuffStuffFrom(b: seq<Bit>, c: nat)
    ensures DestuffFrom(StuffFrom(b, c), c) == b
    decreases |b|
  {
    if b != [] {
      var b' := b[1..];
      if b[0] == 1 && c >= 4 {
        DestuffStuffFrom(b', 0);
        var s := [1, 0] + StuffFrom(b', 0);
        assert s[2..] == StuffFrom(b', 0);
      } else {
        var c' := if b[0] == 1 then c + 1 else 0;
        DestuffStuffFrom(b', c');
        assert ([b[0]] + StuffFrom(b', c'))[1..] == StuffFrom(b', c');
      }
    }
  }

  /** Destuffing is a left inverse of stuffing, for every bit sequence. */
  lemma DestuffStuff(b: seq<Bit>)
    ensures Destuff(Stuff(b)) == b
  {
    DestuffStuffFrom(b, 0);
  }

  /** Six ones in a row start at `i`: the flag's run, which stuffing must never produce. */
  predicate SixOnesAt(s: seq<Bit>, i: nat)
    requires i + 6 <= |s|
  {
    forall j :: i <= j < i + 6 ==> s[j] == 1
  }

  /** No run of more than five ones, counting the `c` ones before `s`. */
  predicate RunsAtMostFive(s: seq<Bit>, c: nat)
    decreases |s|
  {
    s == [] ||
    if s[0] == 1 then c < 5 && RunsAtMostFive(s[1..], c + 1) else RunsAtMostFive(s[1..], 0)
  }

  lemma {:induction false} StuffBoundsRuns(b: seq<Bit>, c: nat)
    requires c <= 4
    ensures RunsAtMostFive(StuffFrom(b, c), c)
    decreases |b|
  {
    if b != [] {
      var b' := b[1..];
      if b[0] == 1 && c == 4 {
        StuffBoundsRuns(b', 0);
        var s := [1, 0] + StuffFrom(b', 0);
        assert s[1..][1..] == StuffFrom(b', 0);
      } else {
        var c' := if b[0] == 1 then c + 1 else 0;
        StuffBoundsRuns(b', c');
        assert ([b[0]] + StuffFrom(b', c'))[1..] == StuffFrom(b', c');
      }
    }
  }

  lemma {:induction false} OnesPrefixBounded(s: seq<Bit>, c: nat, k: nat)
    requires RunsAtMostFive(s, c) && 1 <= k <= |s| && AllOnes(s[..k])
    ensures c + k <= 5
    decreases k
  {
    assert s[0] == s[..k][0];
    if k > 1 {
      assert s[1..][..k - 1] == s[..k][1..];
      OnesPrefixBounded(s[1..], c + 1, k - 1);
    }
  }

  lemma {:induction false} NoSixOnes(s: seq<Bit>, c: nat)
    requires RunsAtMostFive(s, c)
    ensures forall i :: 0 <= i && i + 6 <= |s| ==> !SixOnesAt(s, i)
    decreases |s|
  {
    if s != [] {
      var c' := if s[0] == 1 then c + 1 else 0;
      NoSixOnes(s[1..], c');
      forall i | 0 <= i && i + 6 <= |s|
        ensures !SixOnesAt(s, i)
      {
        if i == 0 {
          if SixOnesAt(s, 0) {
            assert AllOnes(s[..6]);
            OnesPrefixBounded(s, c, 6);
          }
        } else {
          assert SixOnesAt(s[1..], i - 1) == SixOnesAt(s, i);
        }
      }
    }
  }

  /** A stuffed stream never holds six ones in a row, so it cannot imitate the flag. */
  lemma StuffedHasNoSixOnes(b: seq<Bit>)
    ensures forall i :: 0 <= i && i + 6 <= |Stuff(b)| ==> !SixOnesAt(Stuff(b), i)
  {
    StuffBoundsRuns(b, 0);
    NoSixOnes(Stuff(b), 0);
  }

  lemma {:induction false} StuffLengthFrom(b: seq<Bit>, c: nat)
    requires c <= 4
    ensures |b| <= |StuffFrom(b, c)| <= |b| + (|b| + c) / 5
    decreases |b|
  {
    if b != [] {
      var c' := if b[0] == 1 && c < 4 then c + 1 else 0;
      StuffLengthFrom(b[1..], c');
    }
  }

  /** Stuffing only inserts: the output is at least as long as the input and at most one
      bit longer per five input bits. */
  lemma StuffLength(b: seq<Bit>)
    ensures |b| <= |Stuff(b)| <= |b| + |b| / 5
  {
    StuffLengthFrom(b, 0);
  }

  lemma {:induction false} DestuffLengthFrom(b: seq<Bit>, c: nat)
    ensures |DestuffFrom(b, c)| <= |b|
    decreases |b|
  {
    if b != [] {
      if b[0] == 1 && c >= 4 {
        if |b| > 1 {
          DestuffLengthFrom(b[2..], 0);
        }
      } else {
        DestuffLengthFrom(b[1..], if b[0] == 1 then c + 1 else 0);
      }
    }
  }

  /** Destuffing only removes bits. */
  lemma DestuffLength(b: seq<Bit>)
    ensures |Destuff(b)| <= |b|
  {
    DestuffLengthFrom(b, 0);
  }
}
