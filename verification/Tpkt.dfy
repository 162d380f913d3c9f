/** TPKT framing (conpot/protocols/s7comm/tpkt.py; section 6 of RFC 1006). */
module Tpkt {
  import opened Bytes

  datatype Packet = Packet(version: byte, reserved: byte, packetLength: nat, payload: seq<byte>)

  /** `TPKT(version, payload)` */
  function Make(version: byte, payload: seq<byte>): Packet {
    Packet(version, 0, |payload| + 4, payload)
  }

  /** `pack`; None is the struct.error of a length that does not fit. */
  function Pack(p: Packet): Option<seq<byte>> {
    if p.packetLength >= 0x1_0000 then None
    else Some([p.version, p.reserved, Hi(p.packetLength), Lo(p.packetLength)] + p.payload)
  }

  /** `parse`; the length counts the header, yet the slice starts behind it. */
  function Parse(packet: seq<byte>): Option<Packet> {
    if |packet| < 4 then None
    else
      var length := Word(packet[2], packet[3]);
      Some(Packet(packet[0], packet[1], length, Slice(packet, 4, 4 + length)))
  }

  class TPKT {
    var packet: Packet

    constructor (version: byte, payload: seq<byte>)
      ensures packet == Make(version, payload)
    {
      packet := Packet(version, 0, |payload| + 4, payload);
    }

    /** False is a ParseException, which leaves the object alone. */
    method ParseFrom(raw: seq<byte>) returns (ok: bool)
      modifies this
      ensures ok <==> Parse(raw).Some?
      ensures packet == if ok then Parse(raw).value else old(packet)
    {
      if |raw| < 4 {
        return false;
      }
      var length: nat := Word(raw[2], raw[3]);
      packet := packet.(version := raw[0], reserved := raw[1], packetLength := length);
      packet := packet.(payload := Slice(raw, 4, 4 + length));
      return true;
    }
  }

  /** Packing then parsing gives the packet back, except that up to four bytes of whatever follows it in
      the same read are taken into the payload. */
  lemma RoundTrip(version: byte, payload: seq<byte>, following: seq<byte>)
    requires |payload| + 4 < 0x1_0000
    ensures var packed := Pack(Make(version, payload));
      && packed.Some? && |packed.value| == |payload| + 4
      && Parse(packed.value + following)
         == Some(Make(version, payload).(payload := payload + Slice(following, 0, 4)))
  {
    var length := |payload| + 4;
    var header: seq<byte> := [version, 0, Hi(length), Lo(length)];
    var raw := header + payload + following;
    assert raw[..4] == header && raw[2] == Hi(length) && raw[3] == Lo(length);
    WordRoundTrip(length);
    SliceBehind(header, payload, following);
    assert Parse(raw) == Some(Packet(version, 0, length, Slice(raw, 4, 4 + length)));
  }

  lemma SliceBehind(header: seq<byte>, payload: seq<byte>, following: seq<byte>)
    requires |header| == 4
    ensures Slice(header + payload + following, 4, 8 + |payload|) == payload + Slice(following, 0, 4)
  {
    var raw := header + payload + following;
    assert raw[4..] == payload + following;
  }

  /** The payload survives if and only if nothing follows the packet. */
  lemma PayloadIffAlone(version: byte, payload: seq<byte>, following: seq<byte>)
    requires |payload| + 4 < 0x1_0000
    ensures Parse(Pack(Make(version, payload)).value + following).value.payload == payload <==> following == []
  {
    RoundTrip(version, payload, following);
    assert |payload + Slice(following, 0, 4)| == |payload| + |Slice(following, 0, 4)|;
  }
}
