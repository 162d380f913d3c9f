/** The connection handshake of the S7 server (conpot/protocols/s7comm/s7_server.py): COTP connection
    request and confirm, then the negotiation of the S7 session. */
module S7Handshake {
  import opened Bytes
  import opened Tpkt
  import opened Cotp
  import opened S7

  const CONNECT: byte := 0xe0
  const CONFIRM: byte := 0xd0

  /** `COTP()` */
  const EMPTY_BASE := MakeBase(0, 0, [], [])

  /** `COTPConnectionPacket()` */
  const EMPTY_FIELDS := Fields(0, 0, 0, 0, 0, 0)

  /** TPKT(3, COTP(type, opt, payload).pack()).pack() */
  function Wrap(tpduType: byte, optField: byte, payload: seq<byte>): Option<seq<byte>> {
    match PackBase(MakeBase(tpduType, optField, payload, []))
    case None => None
    case Some(cotp) => Tpkt.Pack(Tpkt.Make(3, cotp))
  }

  /** COTP().parse(TPKT().parse(data).payload) */
  function Unwrap(raw: seq<byte>): Option<Base> {
    match Tpkt.Parse(raw)
    case None => None
    case Some(t) => ParseBase(EMPTY_BASE, t.payload)
  }

  /** What a client sends first. */
  function RequestPacket(f: Fields): Option<seq<byte>> {
    match AssembleRequest(f)
    case None => None
    case Some(payload) => Wrap(CONNECT, 0, payload)
  }

  /** The confirm packet for a request: references swapped, no options, a size that is not sent. */
  function Swapped(f: Fields): Fields {
    Fields(f.srcRef, f.dstRef, 0, f.srcTsap, f.dstTsap, 0x0a)
  }

  function Accepted(raw: seq<byte>): Option<seq<byte>> {
    match Unwrap(raw)
    case None => None
    case Some(base) =>
      if base.tpduType != CONNECT then None
      else
        var (outcome, request) := Dissect(EMPTY_FIELDS, base.payload);
        if outcome != Dissected then None else Wrap(CONFIRM, 0, AssembleConfirm(Swapped(request)))
  }

  /** What the server answers to a first packet; None is an exception or a packet it ignores. */
  method Accept(raw: seq<byte>) returns (reply: Option<seq<byte>>)
    ensures reply == Accepted(raw)
  {
    var tpkt := Tpkt.Parse(raw);
    if tpkt == None {
      return None;
    }
    var base := ParseBase(EMPTY_BASE, tpkt.value.payload);
    if base == None || base.value.tpduType != CONNECT {
      return None;
    }
    var request := new ConnectionPacket(EMPTY_FIELDS);
    var outcome := request.DissectFrom(base.value.payload);
    if outcome != Dissected {
      return None;
    }
    var r := request.fields;
    var response := Fields(r.srcRef, r.dstRef, 0, r.srcTsap, r.dstTsap, 0x0a);
    reply := Wrap(CONFIRM, 0, AssembleConfirm(response));
  }

  /** A short COTP packet that is not data survives its wrapping. */
  lemma WrapRoundTrip(tpduType: byte, payload: seq<byte>)
    requires tpduType != DATA && 0 < |payload| <= 254
    ensures Wrap(tpduType, 0, payload).Some?
    ensures Unwrap(Wrap(tpduType, 0, payload).value) == Some(MakeBase(tpduType, 0, payload, []))
  {
    OtherRoundTrip(EMPTY_BASE, tpduType, payload, []);
    var cotp := PackBase(MakeBase(tpduType, 0, payload, [])).value;
    Tpkt.RoundTrip(3, cotp, []);
    var raw := Tpkt.Pack(Tpkt.Make(3, cotp)).value;
    assert raw + [] == raw && cotp + Slice([], 0, 4) == cotp;
  }

  /** A connection request is confirmed, and from the confirm packet the client reads its own references,
      swapped, and both TSAPs; the size is not in it. */
  lemma HandshakeConfirms(f: Fields, g: Fields)
    ensures RequestPacket(f).Some? <==> f.tpduSize <= 0xff
    ensures RequestPacket(f).Some? ==>
      var reply := Accepted(RequestPacket(f).value);
      && reply.Some? && Unwrap(reply.value).Some? && Unwrap(reply.value).value.tpduType == CONFIRM
      && Dissect(g, Unwrap(reply.value).value.payload)
         == (Dissected, Fields(f.srcRef, f.dstRef, 0, f.srcTsap, f.dstTsap, g.tpduSize))
  {
    if f.tpduSize <= 0xff {
      var request, confirm := AssembleRequest(f).value, AssembleConfirm(Swapped(f));
      WrapRoundTrip(CONNECT, request);
      WrapRoundTrip(CONFIRM, confirm);
      AssembleRoundTrip(EMPTY_FIELDS, f);
      AssembleRoundTrip(g, Swapped(f));
    }
  }

  const NEGOTIATE: byte := 0xf0

  /** The answer to the first S7 packet: its parameters come back in a response with its request id. */
  function Negotiated(raw: seq<byte>): Option<seq<byte>> {
    match ReceiveStack(EMPTY_BASE, MakePdu(0, 0, 0, 0, [], []), raw)
    case None => None
    case Some((base, outcome, pdu)) =>
      if base.tpduType != DATA || outcome != PduParsed(NEGOTIATE) || pdu.pduType != 1 then None
      else SendStack(0x80, MakePdu(3, 0, pdu.requestId, 0, pdu.parameters, []))
  }

  /** A negotiation request, whatever its data, is answered if and only if the answer fits its length field,
      and then by a response with its request id and its parameters, no data, and result 0. */
  lemma NegotiationEchoes(optField: byte, p: Pdu, before: Pdu)
    requires WellFormed(p) && p.pduType == 1 && p.parameters != [] && p.parameters[0] == NEGOTIATE
    requires Length(p) + 7 < 0x1_0000
    ensures SendStack(optField, p).Some?
    ensures var reply := Negotiated(SendStack(optField, p).value);
      && (reply.Some? <==> |p.parameters| + 19 < 0x1_0000)
      && (reply.Some? ==>
            var received := ReceiveStack(EMPTY_BASE, before, reply.value);
            && received.Some? && received.value.1 == PduParsed(NEGOTIATE)
            && received.value.2 == Pdu(MAGIC, 3, 0, p.requestId, |p.parameters|, 0, OneTuple(0), p.parameters, []))
  {
    var answer := MakePdu(3, 0, p.requestId, 0, p.parameters, []);
    StackRoundTrip(EMPTY_BASE, MakePdu(0, 0, 0, 0, [], []), optField, p);
    StackRoundTrip(EMPTY_BASE, before, 0x80, answer);
  }
}
