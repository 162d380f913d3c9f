/** The session object that frames, unframes, builds and parses IPMI messages
    (conpot/protocols/ipmi/fakesession.py, `_checksum` of conpot/protocols/ipmi/ipmi_server.py). */
module IpmiSession {
  import opened Bytes
  import opened IpmiFraming

  // ----- message codec

  function Sum(data: seq<byte>): nat {
    if data == [] then 0 else Sum(data[..|data| - 1]) + data[|data| - 1]
  }

  /** `n ^ 0xff` on an unbounded integer: only the low byte is touched. */
  function XorLowByte(n: nat): nat {
    n - n % 0x100 + (0xff - n % 0x100)
  }

  /** `_checksum` */
  method Checksum8(data: seq<byte>) returns (csum: byte)
    ensures (Sum(data) + csum) % 0x100 == 0
    ensures csum == ChecksumOf(data)
  {
    var total: nat := 0;
    for i := 0 to |data|
      invariant total == Sum(data[..i])
    {
      assert data[..i + 1][..i] == data[..i];
      total := total + data[i];
    }
    assert data[..|data|] == data;
    var flipped := XorLowByte(total);
    var next := flipped + 1;
    csum := next % 0x100;
    ChecksumCancels(data);
  }

  function ChecksumOf(data: seq<byte>): byte {
    (XorLowByte(Sum(data)) + 1) % 0x100
  }

  /** Data and checksum sum to zero modulo 256, however large the sum. */
  lemma ChecksumCancels(data: seq<byte>)
    ensures (Sum(data) + ChecksumOf(data)) % 0x100 == 0
  {
    var n := Sum(data);
    var q, r := n / 0x100, n % 0x100;
    if r == 0 {
      DivModUnique(XorLowByte(n) + 1, 0x100, q + 1, 0);
      DivModUnique(n, 0x100, q, 0);
    } else {
      DivModUnique(XorLowByte(n) + 1, 0x100, q, 0x100 - r);
      DivModUnique(n + (0x100 - r), 0x100, q + 1, 0);
    }
  }

  /** No other byte does that: the receiver may check the sum or recompute the checksum. */
  lemma ChecksumIsUnique(data: seq<byte>, c: byte)
    requires (Sum(data) + c) % 0x100 == 0
    ensures c == ChecksumOf(data)
  {
    ChecksumCancels(data);
    var n, d := Sum(data), ChecksumOf(data);
    var q, q' := (n + c) / 0x100, (n + d) / 0x100;
    assert n + c == 0x100 * q && n + d == 0x100 * q';
    assert -0x100 < 0x100 * (q - q') < 0x100;
  }

  /** The addresses a session stamps on its messages. */
  datatype Addresses = Addresses(clientAddr: byte, rqAddr: byte, seqLun: byte)

  function MessageHeader(a: Addresses, netfn: nat): seq<byte>
    requires netfn < 0x40
  {
    [a.clientAddr, netfn * 4]
  }

  function MessageBody(a: Addresses, command: byte, data: seq<byte>): seq<byte> {
    [a.rqAddr, a.seqLun, command] + data
  }

  /** The unbridged `_make_ipmi_payload`. */
  function Message(a: Addresses, netfn: nat, command: byte, data: seq<byte>): (m: seq<byte>)
    requires netfn < 0x40
    ensures |m| == 7 + |data|
  {
    var header, body := MessageHeader(a, netfn), MessageBody(a, command, data);
    header + [ChecksumOf(header)] + body + [ChecksumOf(body)]
  }

  /** What `_ipmi15` and `_parse_payload` take from a message. */
  datatype Response = Response(netfn: byte, command: byte, data: seq<byte>, clientAddr: byte, seqLun: byte)

  function Parsed(payload: seq<byte>): Option<Response> {
    if |payload| < 7 then None
    else Some(Response(payload[1] / 4, payload[5], payload[6..|payload| - 1], payload[3], payload[4]))
  }

  /** The parser undoes the builder, and both parts of the message sum to zero modulo 256. */
  lemma MessageRoundTrip(a: Addresses, netfn: nat, command: byte, data: seq<byte>)
    requires netfn < 0x40
    ensures var m := Message(a, netfn, command, data);
      && Parsed(m) == Some(Response(netfn, command, data, a.rqAddr, a.seqLun))
      && Sum(m[..3]) % 0x100 == 0 && Sum(m[3..]) % 0x100 == 0
  {
    var header, body := MessageHeader(a, netfn), MessageBody(a, command, data);
    var m := Message(a, netfn, command, data);
    assert m[..3] == header + [ChecksumOf(header)];
    assert m[3..] == body + [ChecksumOf(body)];
    assert m[6..|m| - 1] == data;
    SumWithChecksum(header);
    SumWithChecksum(body);
  }

  lemma SumWithChecksum(data: seq<byte>)
    ensures Sum(data + [ChecksumOf(data)]) % 0x100 == 0
  {
    var whole := data + [ChecksumOf(data)];
    assert whole[..|data|] == data;
    ChecksumCancels(data);
  }

  /** A message built, framed, received and parsed is the message that was meant. */
  lemma WholeStack(suite: Suite, e: Endpoint, r: Receiver, n: uint32, iv: seq<byte>,
                   a: Addresses, netfn: nat, command: byte, data: seq<byte>)
    requires netfn < 0x40 && SizeField(e, Message(a, netfn, command, data)) < 0x1_0000
    requires e.integrity && |iv| == 16 && suite.Lawful()
    requires r.localSid == e.sessionId && r.k1 == Some(e.k1) && r.aesKey == e.aesKey
    requires SequenceAccepted(r.remSeqNumber, n)
    ensures var raw := Packet(suite, e, n, 0, Message(a, netfn, command, data), iv);
      var delivery := Receive(suite, r, raw).0;
      delivery.Delivered? && Parsed(delivery.bytes) == Some(Response(netfn, command, data, a.rqAddr, a.seqLun))
  {
    FramingRoundTrip(suite, e, r, n, 0, Message(a, netfn, command, data), iv);
    MessageRoundTrip(a, netfn, command, data);
  }

  // ----- the state of a session

  datatype Item = Item(payload: seq<byte>, payloadType: Option<byte>, retry: bool)

  /** The reply that is expected, whether the request was repeated, and the replies then to be ignored. */
  datatype Expected = Expected(netfn: nat, command: nat, retried: bool, taboo: map<(nat, nat, byte), nat>)

  const NO_REPLY := 0x1ff

  /** `waiting` says whether the session is registered for the retry timer. */
  datatype Session = Session(version15: bool, endpoint: Endpoint, receiver: Receiver, addresses: Addresses,
                             clientNetfn: nat, clientCommand: byte, sequenceNumber: nat,
                             lastPayload: Option<seq<byte>>, lastType: Option<byte>, pending: seq<Item>,
                             netPacket: seq<byte>, stage: nat, waiting: bool, expected: Expected)
  {
    /** A payload is outstanding. */
    predicate Busy() {
      lastPayload.Some? && lastPayload.value != []
    }

    /** Why a payload cannot be transmitted, if it cannot. */
    function Refusal(payload: Option<seq<byte>>, payloadType: Option<byte>): Option<SendError> {
      if version15 then
        if payloadType == None && (endpoint.integrity || endpoint.confidentiality) then Some(NoPayload)
        else if sequenceNumber >= 0x1_0000_0000 then Some(StructError)
        else if payload == None then Some(NoPayload)
        else if |payload.value| > 0xff then Some(StructError)
        else None
      else if payloadType == None then Some(NoPayload)
      else if payloadType.value == 2 then Some(OemPayload)
      else if !KnownType(payloadType.value) then Some(UnrecognizedPayload)
      else if sequenceNumber >= 0x1_0000_0000 then Some(StructError)
      else if payload == None then Some(NoPayload)
      else if SizeField(endpoint, payload.value) >= 0x1_0000 then Some(StructError)
      else None
    }

    function PacketFor(suite: Suite, payload: seq<byte>, payloadType: Option<byte>, iv: seq<byte>): seq<byte>
      requires Refusal(Some(payload), payloadType) == None
    {
      if version15 then Packet15(suite, endpoint, sequenceNumber, payload)
      else Packet(suite, endpoint, sequenceNumber, payloadType.value, payload, iv)
    }
  }

  /** A deferred packet is left to the retry timer. */
  datatype Sent = Queued | Transmitted(packet: seq<byte>) | Deferred(packet: seq<byte>) | Refused(error: SendError)

  /** The packet is built and handed on, unless something raises before. */
  function Dispatch(suite: Suite, s: Session, payload: Option<seq<byte>>, payloadType: Option<byte>, retry: bool,
                    defer: bool, iv: seq<byte>): (Sent, Session) {
    match s.Refusal(payload, payloadType)
    case Some(error) => (Refused(error), s)
    case None =>
      var packet := s.PacketFor(suite, payload.value, payloadType, iv);
      (if defer then Deferred(packet) else Transmitted(packet),
       s.(netPacket := packet, stage := s.stage + 1, sequenceNumber := NextNumber(s.sequenceNumber),
          waiting := s.waiting || defer || retry))
  }

  /** `send_payload`: over an outstanding payload, a new one is queued; with no payload at all, the
      outstanding one is sent again. */
  function Send(suite: Suite, s: Session, item: Item, defer: bool, iv: seq<byte>): (Sent, Session) {
    if item.payload != [] && s.Busy() then (Queued, s.(pending := s.pending + [item]))
    else
      var payload := if item.payload == [] then s.lastPayload else Some(item.payload);
      var payloadType := if item.payloadType == None then s.lastType else item.payloadType;
      var kept := if item.retry then s.(lastPayload := payload, lastType := payloadType) else s;
      Dispatch(suite, kept, payload, payloadType, item.retry, defer, iv)
  }

  /** What the receipt of SOL data means for the sender: an outstanding SOL payload is done, and the next
      one in the queue is sent. */
  function Acknowledge(suite: Suite, s: Session, iv: seq<byte>): (Option<Sent>, Session) {
    if s.lastType != Some(1) then (None, s)
    else
      var done := s.(lastPayload := None, lastType := None, waiting := false);
      if s.pending == [] then (None, done)
      else
        var (r, next) := Send(suite, done.(pending := s.pending[1..]), s.pending[0], false, iv);
        (Some(r), next)
  }

  /** No reply is expected any more; if the request was repeated, a second one will be ignored. */
  function Settled(e: Expected, seqLun: byte): Expected {
    Expected(NO_REPLY, NO_REPLY, false, if e.retried then e.taboo[(e.netfn, e.command, seqLun) := 16] else e.taboo)
  }

  /** `_make_ipmi_payload`, unbridged: the message, and the reply to expect. */
  function Compose(s: Session, netfn: nat, command: byte, data: seq<byte>): (seq<byte>, Session)
    requires netfn < 0x40
  {
    (Message(s.addresses, netfn, command, data),
     s.(expected := s.expected.(command := command as nat, netfn := netfn + 1)))
  }

  /** `_parse_payload`: what was outstanding is forgotten, the queue is not looked at. A message without room
      for a command and a checksum raises after that. */
  function ParseMessage(s: Session, payload: seq<byte>): (Option<Response>, Session)
    requires |payload| >= 6
  {
    var response := if |payload| == 6 then None
                    else Some(Response(payload[1] / 4, payload[5], payload[6..|payload| - 1], s.addresses.clientAddr,
                                       s.addresses.seqLun));
    (response, s.(expected := Settled(s.expected, s.addresses.seqLun), waiting := false, lastPayload := None,
                  lastType := None))
  }

  /** `_ipmi15`: a message that is too short raises after the fields read so far are set. */
  function TakeMessage(s: Session, payload: seq<byte>): (Option<Response>, Session) {
    if |payload| <= 4 then (None, s)
    else
      var addressed := s.(addresses := s.addresses.(seqLun := payload[4], clientAddr := payload[3]),
                          clientNetfn := payload[1] / 4 + 1);
      if |payload| == 5 then (None, addressed) else ParseMessage(addressed.(clientCommand := payload[5]), payload)
  }

  /** What a message is parsed to does not depend on the session. */
  lemma TakenIsParsed(s: Session, payload: seq<byte>)
    ensures TakeMessage(s, payload).0 == Parsed(payload)
  {
  }

  datatype Reaction = Reaction(delivery: Delivery, response: Option<Response>, sent: Option<Sent>)

  /** `_ipmi20` with what it sets off in the session. */
  function React(suite: Suite, s: Session, raw: seq<byte>, iv: seq<byte>): (Reaction, Session) {
    var (d, receiver) := Receive(suite, s.receiver, raw);
    var received := s.(receiver := receiver);
    if d.Delivered? && d.payloadType == 0 then
      var (response, next) := TakeMessage(received, d.bytes);
      (Reaction(d, response, None), next)
    else if d.Delivered? then
      var (sent, next) := Acknowledge(suite, received, iv);
      (Reaction(d, None, sent), next)
    else (Reaction(d, None, None), received)
  }

  // ----- the session object

  /** `FakeSession` */
  class FakeSession {
    const suite: Suite
    var version15: bool
    var endpoint: Endpoint
    var receiver: Receiver
    var addresses: Addresses
    var clientNetfn: nat
    var clientCommand: byte
    var sequenceNumber: nat
    var lastPayload: Option<seq<byte>>
    var lastPayloadType: Option<byte>
    var pendingPayloads: seq<Item>
    var netPacket: seq<byte>
    var stage: nat
    var waiting: bool
    var expected: Expected

    function State(): Session
      reads this
    {
      Session(version15, endpoint, receiver, addresses, clientNetfn, clientCommand, sequenceNumber, lastPayload,
              lastPayloadType, pendingPayloads, netPacket, stage, waiting, expected)
    }

    constructor (suite: Suite, version15: bool, endpoint: Endpoint, receiver: Receiver, addresses: Addresses,
                 sequenceNumber: nat)
      ensures this.suite == suite
      ensures State() == Session(version15, endpoint, receiver, addresses, 0, 0, sequenceNumber, None, None, [], [], 0,
                                 false, Expected(NO_REPLY, NO_REPLY, false, map[]))
    {
      this.suite, this.version15, this.endpoint, this.receiver := suite, version15, endpoint, receiver;
      this.addresses, this.sequenceNumber := addresses, sequenceNumber;
      clientNetfn, clientCommand := 0, 0;
      lastPayload, lastPayloadType, pendingPayloads := None, None, [];
      netPacket, stage, waiting := [], 0, false;
      expected := Expected(NO_REPLY, NO_REPLY, false, map[]);
    }

    /** The unbridged `_make_ipmi_payload`. */
    method MakeIpmiPayload(netfn: nat, command: byte, data: seq<byte>) returns (payload: seq<byte>)
      requires netfn < 0x40
      modifies this
      ensures (payload, State()) == Compose(old(State()), netfn, command, data)
    {
      expected := expected.(command := command as nat);
      expected := expected.(netfn := netfn + 1);
      var header: seq<byte> := [addresses.clientAddr, netfn * 4];
      var reqBody: seq<byte> := [addresses.rqAddr, addresses.seqLun, command] + data;
      var headSum := Checksum8(header);
      var bodySum := Checksum8(reqBody);
      payload := header + [headSum] + reqBody + [bodySum];
    }

    /** `send_payload` */
    method SendPayload(payload: seq<byte>, payloadType: Option<byte>, retry: bool, defer: bool, iv: seq<byte>)
      returns (r: Sent)
      modifies this
      ensures (r, State()) == Send(suite, old(State()), Item(payload, payloadType, retry), defer, iv)
    {
      if payload != [] && State().Busy() {
        pendingPayloads := pendingPayloads + [Item(payload, payloadType, retry)];
        return Queued;
      }
      hide Dispatch;
      var actualType := payloadType;
      if actualType == None {
        actualType := lastPayloadType;
      }
      var actual := Some(payload);
      if payload == [] {
        actual := lastPayload;
      }
      if retry {
        lastPayload := actual;
        lastPayloadType := actualType;
      }
      r := DispatchPayload(actual, actualType, retry, defer, iv);
    }

    /** The rest of `send_payload`: in IPMI 2.0 the payload type is checked, then the packet is built. */
    method DispatchPayload(payload: Option<seq<byte>>, payloadType: Option<byte>, retry: bool, defer: bool,
                           iv: seq<byte>)
      returns (r: Sent)
      modifies this
      ensures (r, State()) == Dispatch(suite, old(State()), payload, payloadType, retry, defer, iv)
    {
      hide Packet, Packet15, SizeField;
      if payloadType == None && (!version15 || endpoint.integrity || endpoint.confidentiality) {
        return Refused(NoPayload);
      }
      if !version15 {
        if payloadType.value == 2 {
          return Refused(OemPayload);
        }
        if !KnownType(payloadType.value) {
          return Refused(UnrecognizedPayload);
        }
      }
      if sequenceNumber >= 0x1_0000_0000 {
        return Refused(StructError);
      }
      if payload == None {
        return Refused(NoPayload);
      }
      if (if version15 then |payload.value| > 0xff else SizeField(endpoint, payload.value) >= 0x1_0000) {
        return Refused(StructError);
      }
      var message: seq<byte>;
      if version15 {
        message := BuildPacket15(payload.value);
      } else {
        message := BuildPacket(payloadType.value, payload.value, iv);
      }
      netPacket := message;
      stage := stage + 1;
      XmitPacket(retry, defer);
      r := if defer then Deferred(message) else Transmitted(message);
    }

    /** `_xmit_packet`, but for the socket and the times. */
    method XmitPacket(retry: bool, defer: bool)
      modifies this`sequenceNumber, this`waiting
      ensures sequenceNumber == NextNumber(old(sequenceNumber))
      ensures waiting == (old(waiting) || defer || retry)
    {
      if sequenceNumber != 0 {
        sequenceNumber := sequenceNumber + 1;
      }
      if defer {
        waiting := true;
        return;
      }
      if retry {
        waiting := true;
      }
    }

    /** The IPMI 1.5 branch of `send_payload`. */
    method BuildPacket15(payload: seq<byte>) returns (message: seq<byte>)
      requires sequenceNumber < 0x1_0000_0000 && |payload| <= 0xff
      ensures message == Packet15(suite, endpoint, sequenceNumber, payload)
    {
      message := [0x06, 0x00, 0xff, 0x07];
      message := message + [endpoint.authType];
      message := message + LittleEndian4(sequenceNumber);
      message := message + LittleEndian4(endpoint.sessionId);
      assert message == Header15(endpoint, sequenceNumber);
      if endpoint.authType != 0 {
        message := message + suite.code15(sequenceNumber, payload);
      }
      assert message == Header15(endpoint, sequenceNumber) + Code15(suite, endpoint, sequenceNumber, payload);
      ghost var signed: seq<byte> := message;
      var size: byte := |payload|;
      message := message + [size];
      message := message + payload;
      assert message == signed + Sized(payload);
      var totalLength := 34 + |message|;
      if LegacyPad(totalLength) {
        message := message + [0];
      } else {
        assert message + [] == message;
      }
    }

    /** The part of `send_payload` that grows the packet. */
    method BuildPacket(bareType: byte, payload: seq<byte>, iv: seq<byte>) returns (message: seq<byte>)
      requires bareType < 0x40 && sequenceNumber < 0x1_0000_0000 && SizeField(endpoint, payload) < 0x1_0000
      ensures message == Packet(suite, endpoint, sequenceNumber, bareType, payload, iv)
    {
      message := [0x06, 0x00, 0xff, 0x07];
      message := message + [endpoint.authType];
      message := message + [TypeByte(endpoint, bareType)];
      message := message + LittleEndian4(endpoint.sessionId);
      message := message + LittleEndian4(sequenceNumber);
      ghost var size := SizeField(endpoint, payload);
      var pSize := |payload|;
      if endpoint.confidentiality {
        var pad := (pSize + 1) % 16;
        if pad != 0 {
          pad := 16 - pad;
        }
        var newPSize := pSize + pad + 17;
        assert newPSize == size;
        message := message + [newPSize % 0x100];
        message := message + [newPSize / 0x100];
        assert message == Header(endpoint, sequenceNumber, bareType, size);
        var payloadToCrypt := AesPad(payload);
        var crypted := suite.encrypt(endpoint.aesKey, iv, payloadToCrypt);
        message := message + (iv + crypted);
      } else {
        message := message + [pSize % 0x100];
        message := message + [pSize / 0x100];
        assert message == Header(endpoint, sequenceNumber, bareType, size);
        message := message + payload;
      }
      ghost var framed := Header(endpoint, sequenceNumber, bareType, size) + Body(suite, endpoint, payload, iv);
      assert message == framed;
      if endpoint.integrity {
        var neededPad := (|message| - 2) % 4;
        if neededPad != 0 {
          neededPad := 4 - neededPad;
        }
        message := message + (Fill(neededPad) + [neededPad, 7]);
        assert message == framed + Trailer(|framed|);
        var authCode := suite.hmac(endpoint.k1, message[4..])[..12];
        message := message + authCode;
      } else {
        assert framed + [] == framed;
      }
    }

    /** The opening of `_parse_payload`. */
    method ExpectNothing()
      modifies this`expected
      ensures expected == Settled(old(expected), addresses.seqLun)
    {
      if expected.retried {
        expected := expected.(retried := false);
        expected := expected.(taboo := expected.taboo[(expected.netfn, expected.command, addresses.seqLun) := 16]);
      }
      expected := expected.(netfn := NO_REPLY);
      expected := expected.(command := NO_REPLY);
    }

    /** `_parse_payload` deletes from the list piece by piece. */
    method ParsePayload(original: seq<byte>) returns (r: Option<Response>)
      requires |original| >= 6
      modifies this
      ensures (r, State()) == ParseMessage(old(State()), original)
    {
      hide Settled;
      ExpectNothing();
      waiting := false;
      lastPayload := None;
      lastPayloadType := None;
      var netfn := original[1] / 4;
      var payload: seq<byte> := original[5..];
      payload := payload[..|payload| - 1];
      if |payload| == 0 {
        return None;
      }
      var command := payload[0];
      payload := payload[1..];
      assert payload == original[6..|original| - 1];
      r := Some(Response(netfn, command, payload, addresses.clientAddr, addresses.seqLun));
    }

    /** `_ipmi15` */
    method Ipmi15(payload: seq<byte>) returns (r: Option<Response>)
      modifies this
      ensures (r, State()) == TakeMessage(old(State()), payload)
    {
      if |payload| <= 4 {
        return None;
      }
      addresses := addresses.(seqLun := payload[4]);
      addresses := addresses.(clientAddr := payload[3]);
      clientNetfn := payload[1] / 4 + 1;
      if |payload| <= 5 {
        return None;
      }
      clientCommand := payload[5];
      r := ParsePayload(payload);
    }

    /** The SOL branch of `_ipmi20`. */
    method AcknowledgeSol(iv: seq<byte>) returns (sent: Option<Sent>)
      modifies this
      ensures (sent, State()) == Acknowledge(suite, old(State()), iv)
    {
      sent := None;
      if lastPayloadType == Some(1) {
        lastPayload := None;
        lastPayloadType := None;
        waiting := false;
        if |pendingPayloads| > 0 {
          var item := pendingPayloads[0];
          pendingPayloads := pendingPayloads[1..];
          var r := SendPayload(item.payload, item.payloadType, item.retry, false, iv);
          sent := Some(r);
        }
      }
    }

    /** `_ipmi20`, with what it sets off. */
    method Ipmi20(raw: seq<byte>, iv: seq<byte>) returns (r: Reaction)
      modifies this
      ensures (r, State()) == React(suite, old(State()), raw, iv)
    {
      var d := Unframe(raw);
      var response: Option<Response>, sent: Option<Sent> := None, None;
      if d.Delivered? && d.payloadType == 0 {
        response := Ipmi15(d.bytes);
      } else if d.Delivered? {
        sent := AcknowledgeSol(iv);
      }
      r := Reaction(d, response, sent);
    }

    /** The checks of `_ipmi20`: the sequence number is stored before the payload is opened. */
    method Unframe(raw: seq<byte>) returns (d: Delivery)
      modifies this`receiver
      ensures (d, receiver) == Receive(suite, old(receiver), raw)
    {
      if |raw| < 6 {
        return Crashed;
      }
      var payloadType := raw[5] % 0x40;
      if payloadType == 0x10 {
        return OpenRequest(Slice(raw, 16, |raw|));
      } else if payloadType == 0x11 {
        return Ignored;
      } else if payloadType == 0x12 {
        return Rakp1(Slice(raw, 16, |raw|));
      } else if payloadType == 0x13 {
        return Ignored;
      } else if payloadType == 0x14 {
        return Rakp3(Slice(raw, 16, |raw|));
      } else if payloadType == 0x15 {
        return Ignored;
      } else if payloadType != 0 && payloadType != 1 {
        return Closed;
      }
      if raw[5] / 0x40 % 2 == 0 {
        return Closed;
      }
      var encryptionBit := raw[5] / 0x80 == 1;
      var authCode := Slice(raw, Monus(|raw|, 12), |raw|);
      if receiver.k1 == None {
        return Closed;
      }
      if authCode != AuthCode(suite, receiver.k1.value, Slice(raw, 4, Monus(|raw|, 12))) {
        return Closed;
      }
      if |raw| < 10 {
        return Crashed;
      }
      if FromLittleEndian4(raw[6..10]) != receiver.localSid {
        return Closed;
      }
      if |raw| < 14 {
        return Crashed;
      }
      var remSeqNumber := FromLittleEndian4(raw[10..14]);
      if !SequenceAccepted(receiver.remSeqNumber, remSeqNumber) {
        return Closed;
      }
      receiver := receiver.(remSeqNumber := Some(remSeqNumber));
      if |raw| < 16 {
        return Crashed;
      }
      var payload := Extract(suite, receiver.aesKey, raw, encryptionBit);
      d := if payload.Some? then Delivered(payloadType, payload.value) else Crashed;
    }
  }
}
