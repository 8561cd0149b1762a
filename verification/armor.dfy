/** Six-bit ASCII de-armoring of an AIVDM/AIVDO sentence (GenAIS.get_message_bit):
    the payload is the sixth comma-separated field, and every payload character
    contributes the binary digits of its six-bit value, zero-filled to six. */
module Armor {
  import opened Common

  datatype ArmorError =
    | MissingPayloadField        // `split(',')[5]` raises IndexError
    | NegativeSixBitValue(c: char) // `int('-')` raises ValueError for characters below '0'

  /** Python's `str.split(',')`: the texts between consecutive commas. */
  function SplitOnComma(s: string): (r: seq<string>)
    ensures |r| >= 1
    ensures forall i :: 0 <= i < |r| ==> ',' !in r[i]
    decreases |s|
  {
    if s == [] then [[]]
    else
      var rest := SplitOnComma(s[1..]);
      if s[0] == ',' then [[]] + rest
      else [[s[0]] + rest[0]] + rest[1..]
  }

  function JoinWithComma(fields: seq<string>): string
    requires |fields| >= 1
  {
    if |fields| == 1 then fields[0] else fields[0] + [','] + JoinWithComma(fields[1..])
  }

  /** Splitting loses nothing: joining the fields with commas gives the sentence back,
      and there is one more field than there are commas. */
  lemma SplitJoin(s: string)
    ensures JoinWithComma(SplitOnComma(s)) == s
    ensures |SplitOnComma(s)| == multiset(s)[','] + 1
  {
    JoinSplit(s);
    SplitCount(s);
  }

  lemma {:induction false} JoinSplit(s: string)
    ensures JoinWithComma(SplitOnComma(s)) == s
    decreases |s|
  {
    if s != [] {
      var rest := SplitOnComma(s[1..]);
      JoinSplit(s[1..]);
      if s[0] == ',' {
        JoinCons([], rest);
      } else {
        JoinExtend(s[0], rest);
      }
      assert s == [s[0]] + s[1..];
    }
  }

  /** A comma starts the sentence: an empty first field. */
  lemma JoinCons(f: string, rest: seq<string>)
    requires |rest| >= 1
    ensures JoinWithComma([f] + rest) == f + [','] + JoinWithComma(rest)
  {
    assert ([f] + rest)[1..] == rest;
  }

  /** Any other character joins the first field. */
  lemma JoinExtend(c: char, rest: seq<string>)
    requires |rest| >= 1
    ensures JoinWithComma([[c] + rest[0]] + rest[1..]) == [c] + JoinWithComma(rest)
  {
    if |rest| > 1 {
      var j := JoinWithComma(rest[1..]);
      JoinCons([c] + rest[0], rest[1..]);
      JoinCons(rest[0], rest[1..]);
      assert [rest[0]] + rest[1..] == rest;
      ConcatAssoc([c], rest[0], [','], j);
    } else {
      assert [[c] + rest[0]] + rest[1..] == [[c] + rest[0]];
    }
  }

  lemma ConcatAssoc(a: string, b: string, c: string, d: string)
    ensures (a + b) + c + d == a + (b + c + d)
  {
  }

  lemma {:induction false} SplitCount(s: string)
    ensures |SplitOnComma(s)| == multiset(s)[','] + 1
    decreases |s|
  {
    if s != [] {
      SplitCount(s[1..]);
      assert s == [s[0]] + s[1..];
      assert multiset(s) == multiset([s[0]]) + multiset(s[1..]);
    }
  }

  /** The payload field of the sentence (`ais_msg.split(',')[5]`). */
  function PayloadField(msg: string): (r: Result<string, ArmorError>)
    ensures r.Ok? <==> multiset(msg)[','] >= 5
    ensures r.Ok? ==> ',' !in r.value
  {
    SplitJoin(msg);
    var fields := SplitOnComma(msg);
    if |fields| <= 5 then Err(MissingPayloadField) else Ok(fields[5])
  }

  /** The six-bit value of an armored character: code − 48 below 'X' (88), code − 56 from 'X' on. */
  function SixBitValue(c: char): int
  {
    if c as int < 88 then c as int - 48 else c as int - 56
  }

  /** The characters of the AIS six-bit armor: '0'..'W' and '`'..'w'. */
  predicate ValidArmorChar(c: char)
  {
    48 <= c as int < 88 || 96 <= c as int < 120
  }

  /** The armor character of a six-bit value, as the sentence encoder writes it. */
  function ArmorChar(v: nat): (c: char)
    requires v < 64
    ensures ValidArmorChar(c)
    ensures SixBitValue(c) == v
  {
    if v < 40 then (v + 48) as char else (v + 56) as char
  }

  /** On the armor alphabet the character-to-value map is a bijection onto 0..63. */
  lemma ArmorBijection(c: char)
    requires ValidArmorChar(c)
    ensures 0 <= SixBitValue(c) < 64
    ensures ArmorChar(SixBitValue(c)) == c
  {
  }

  lemma ArmorInjective(c: char, d: char)
    requires ValidArmorChar(c) && ValidArmorChar(d)
    requires SixBitValue(c) == SixBitValue(d)
    ensures c == d
  {
    ArmorBijection(c);
    ArmorBijection(d);
  }

  /** Python's `bin(v)` without the '0b' prefix: no leading zeros, "0" for zero. */
  function BinDigits(v: nat): (r: seq<Bit>)
    ensures 1 <= |r|
    ensures BinToNat(r) == v
    ensures v > 0 ==> r[0] == 1
  {
    if v < 2 then [v]
    else
      var r := BinDigits(v / 2) + [v % 2];
      assert r[..|r| - 1] == BinDigits(v / 2);
      r
  }

  /** `bin(v)` has at most `k` digits exactly when `v < 2^k`. */
  lemma {:induction false} DigitsWidth(v: nat, k: nat)
    requires 1 <= k
    ensures |BinDigits(v)| <= k <==> v < Pow2(k)
  {
    if v >= 2 {
      if k > 1 {
        DigitsWidth(v / 2, k - 1);
      }
    }
  }

  /** Python's `zfill(w)`: left-pad with zeros up to `w` digits, never truncate. */
  function ZFill(s: seq<Bit>, w: nat): (r: seq<Bit>)
    ensures |r| == if |s| < w then w else |s|
    ensures BinToNat(r) == BinToNat(s)
  {
    if |s| >= w then s
    else
      LeadingZeros(w - |s|, s);
      Zeros(w - |s|) + s
  }

  /** The bits one payload character contributes (get_message_bit, one loop turn). */
  function CharBits(c: char): (r: Result<seq<Bit>, ArmorError>)
    ensures r.Err? <==> c as int < 48
    ensures r.Ok? ==> BinToNat(r.value) == SixBitValue(c) && |r.value| >= 6
    ensures ValidArmorChar(c) ==> r.Ok? && |r.value| == 6
  {
    var v := SixBitValue(c);
    if v < 0 then Err(NegativeSixBitValue(c))
    else
      DigitsWidth(v, 6);
      Ok(ZFill(BinDigits(v), 6))
  }

  /** The concatenated bits of a whole payload, characters in input order. */
  function PayloadBits(p: string): (r: Result<seq<Bit>, ArmorError>)
    ensures r.Err? <==> exists i :: 0 <= i < |p| && p[i] as int < 48
    ensures r.Ok? ==> |r.value| >= 6 * |p|
    decreases |p|
  {
    if p == [] then Ok([])
    else
      match CharBits(p[0])
      case Err(e) => Err(e)
      case Ok(head) =>
        match PayloadBits(p[1..])
        case Err(e) =>
          assert exists i :: 0 <= i < |p| && p[i] as int < 48 by {
            var i :| 0 <= i < |p[1..]| && p[1..][i] as int < 48;
            assert p[i + 1] as int < 48;
          }
          Err(e)
        case Ok(tail) => Ok(head + tail)
  }

  /** get_message_bit: the payload of the sentence, de-armored. */
  function MessageBits(msg: string): (r: Result<seq<Bit>, ArmorError>)
    ensures multiset(msg)[','] < 5 ==> r == Err(MissingPayloadField)
    ensures r.Ok? ==> PayloadField(msg).Ok? && |r.value| >= 6 * |PayloadField(msg).value|
  {
    match PayloadField(msg)
    case Err(e) => Err(e)
    case Ok(p) => PayloadBits(p)
  }

  predicate ValidPayload(p: string)
  {
    forall i :: 0 <= i < |p| ==> ValidArmorChar(p[i])
  }

  /** On an armor-alphabet payload the output has exactly six bits per character, and
      the `i`-th group of six, read most-significant bit first, is the value of `p[i]`. */
  lemma {:induction false} PayloadGroups(p: string)
    requires ValidPayload(p)
    ensures PayloadBits(p).Ok?
    ensures |PayloadBits(p).value| == 6 * |p|
    ensures forall i :: 0 <= i < |p| ==>
      BinToNat(PayloadBits(p).value[6 * i .. 6 * i + 6]) == SixBitValue(p[i])
    decreases |p|
  {
    if p != [] {
      PayloadGroups(p[1..]);
      var head := CharBits(p[0]).value;
      var tail := PayloadBits(p[1..]).value;
      PayloadCons(p);
      var bits := head + tail;
      forall i | 0 <= i < |p|
        ensures BinToNat(bits[6 * i .. 6 * i + 6]) == SixBitValue(p[i])
      {
        if i == 0 {
          assert bits[0..6] == head;
        } else {
          GroupShift(head, tail, i);
          assert p[1..][i - 1] == p[i];
        }
      }
    }
  }

  /** A valid payload's bits are its first character's six followed by the rest's. */
  lemma PayloadCons(p: string)
    requires ValidPayload(p) && p != []
    ensures CharBits(p[0]).Ok? && |CharBits(p[0]).value| == 6
    ensures PayloadBits(p[1..]).Ok?
    ensures PayloadBits(p) == Ok(CharBits(p[0]).value + PayloadBits(p[1..]).value)
  {
    assert ValidArmorChar(p[0]);
  }

  /** Group `i` of `head + tail`, past the six bits of `head`, is group `i − 1` of `tail`. */
  lemma GroupShift(head: seq<Bit>, tail: seq<Bit>, i: int)
    requires |head| == 6 && 1 <= i && 6 * i + 6 <= |head| + |tail|
    ensures (head + tail)[6 * i .. 6 * i + 6] == tail[6 * (i - 1) .. 6 * (i - 1) + 6]
  {
  }


  /** The sentence encoder's armoring of a bit vector whose length is a multiple of six. */
  function Armor(bits: seq<Bit>): (p: string)
    requires |bits| % 6 == 0
    ensures |p| == |bits| / 6
    ensures ValidPayload(p)
    decreases |bits|
  {
    if bits == [] then []
    else [ArmorChar(BinToNat(bits[..6]))] + Armor(bits[6..])
  }

  /** De-armoring inverts armoring: every bit vector of a multiple-of-six length is
      recovered from its armored payload. */
  lemma {:induction false} ArmorRoundTrip(bits: seq<Bit>)
    requires |bits| % 6 == 0
    ensures PayloadBits(Armor(bits)) == Ok(bits)
    decreases |bits|
  {
    if bits != [] {
      ArmorRoundTrip(bits[6..]);
      var p := Armor(bits);
      var v := BinToNat(bits[..6]);
      assert p[0] == ArmorChar(v);
      assert p[1..] == Armor(bits[6..]);
      DigitsWidth(v, 6);
      var head := ZFill(BinDigits(v), 6);
      assert |head| == 6 && BinToNat(head) == v;
      BitsOfValue(head);
      BitsOfValue(bits[..6]);
      assert head == bits[..6];
      assert bits == bits[..6] + bits[6..];
    }
  }
}
