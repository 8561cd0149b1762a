/** The whole link-layer codec: GenAIS.get_ais_packet on the transmit side and
    Decoder.decode on the receive side, with the CRC verdict returned alongside the
    bits instead of kept in the decoder's `correct_checksum` attribute. */
module Codec {
  import opened Common
  import Armor
  import ByteFlip
  import Crc
  import Stuffing
  import Framing
  import Nrzi

  /** The link-layer frame of a data bit vector, before line coding: byte flip, CRC,
      stuffing, framing. */
  function Frame(bits: seq<Bit>): (f: seq<Bit>)
    ensures |f| >= |bits| + 88
  {
    var c := Crc.AddChecksum(ByteFlip.FlipEncode(bits));
    Stuffing.StuffLength(c);
    Framing.AddPreambleFlag(Stuffing.Stuff(c))
  }

  /** GenAIS.get_ais_packet: the sentence's payload bits, framed and NRZI-coded. */
  function GetAisPacket(msg: string): (r: Result<seq<Bit>, Armor.ArmorError>)
    ensures r.Ok? <==> Armor.MessageBits(msg).Ok?
    ensures r.Ok? ==> r.value == Nrzi.Nrzi(Frame(Armor.MessageBits(msg).value))
  {
    match Armor.MessageBits(msg)
    case Err(e) => Err(e)
    case Ok(bits) => Ok(Nrzi.Nrzi(Frame(bits)))
  }

  /** Decoder.decode on NRZI-decoded bits: deframe, destuff, split off and check the
      CRC, undo the byte flip. Only the CRC split can fail. */
  function Decode(v: seq<Bit>): (r: Result<Crc.Checked, Crc.CrcError>)
    ensures r.Ok? ==> |r.value.bits| % 8 == 0
  {
    var d := Stuffing.Destuff(Framing.RemovePreambleFlag(v));
    match Crc.RemoveChecksum(d)
    case Err(e) => Err(e)
    case Ok(c) => Ok(Crc.Checked(ByteFlip.FlipDecode(c.bits), c.crcOk))
  }

  /** Every frame decodes to its data with a good CRC, when the data is whole bytes. */
  lemma DecodeFrame(bits: seq<Bit>)
    requires |bits| % 8 == 0
    ensures Decode(Frame(bits)) == Ok(Crc.Checked(bits, true))
  {
    var c := Crc.AddChecksum(ByteFlip.FlipEncode(bits));
    Framing.DeframeFrame(Stuffing.Stuff(c));
    Stuffing.DestuffStuff(c);
    Crc.ChecksumRoundTrip(ByteFlip.FlipEncode(bits));
    ByteFlip.FlipRoundTrip(bits);
  }

  /** A received frame whose data is not whole bytes loses its trailing partial byte,
      and still passes the CRC. */
  lemma DecodeFrameTruncates(bits: seq<Bit>)
    ensures Decode(Frame(bits)).Ok?
    ensures Decode(Frame(bits)).value.crcOk
    ensures Decode(Frame(bits)).value.bits == ByteFlip.FlipDecode(ByteFlip.FlipEncode(bits))
  {
    var c := Crc.AddChecksum(ByteFlip.FlipEncode(bits));
    Framing.DeframeFrame(Stuffing.Stuff(c));
    Stuffing.DestuffStuff(c);
    Crc.ChecksumRoundTrip(ByteFlip.FlipEncode(bits));
  }

  /** End to end: the receiver's NRZI decoding followed by Decoder.decode returns the
      sentence's payload bits with a good CRC, whenever the payload is whole bytes
      (its length a multiple of four characters). */
  lemma PacketRoundTrip(msg: string)
    requires Armor.MessageBits(msg).Ok? && |Armor.MessageBits(msg).value| % 8 == 0
    ensures GetAisPacket(msg).Ok?
    ensures Decode(Nrzi.NrziInv(GetAisPacket(msg).value)) == Ok(Crc.Checked(Armor.MessageBits(msg).value, true))
  {
    var bits := Armor.MessageBits(msg).value;
    Nrzi.NrziRoundTrip(Frame(bits));
    DecodeFrame(bits);
  }
}
