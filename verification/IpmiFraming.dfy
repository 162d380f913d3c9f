/** RMCP+ framing of IPMI 2.0 sessions (conpot/protocols/ipmi/fakesession.py; IPMI v2.0, section 13). */
module IpmiFraming {
  import opened Bytes

  /** SHA-1 sized authentication codes and AES-CBC, taken as given. */
  type Digest = s: seq<byte> | |s| == 20 witness seq(20, _ => 0)
  type Code = s: seq<byte> | |s| == 16 witness seq(16, _ => 0)
  type Key = seq<byte>

  /** `code15` is the code of an IPMI 1.5 session, of a sequence number and a payload; the password and the
      session id in it are those of the session. */
  datatype Suite = Suite(hmac: (Key, seq<byte>) -> Digest, code15: (uint32, seq<byte>) -> Code,
                         encrypt: (Key, seq<byte>, seq<byte>) -> seq<byte>,
                         decrypt: (Key, seq<byte>, seq<byte>) -> seq<byte>)
  {
    /** CBC keeps the length of whole blocks and decryption inverts encryption. */
    ghost predicate Lawful() {
      forall key, iv, data :: |data| % 16 == 0 ==>
        |encrypt(key, iv, data)| == |data| && decrypt(key, iv, encrypt(key, iv, data)) == data
    }
  }

  type uint32 = n: int | 0 <= n < 0x1_0000_0000

  /** `struct.pack("<I", n)` */
  function LittleEndian4(n: uint32): (s: seq<byte>)
    ensures |s| == 4
  {
    var low: word, high: word := n % 0x1_0000, n / 0x1_0000;
    [Lo(low), Hi(low), Lo(high), Hi(high)]
  }

  function FromLittleEndian4(s: seq<byte>): (n: uint32)
    requires |s| == 4
  {
    Word(s[1], s[0]) as int + Word(s[3], s[2]) as int * 0x1_0000
  }

  lemma LittleEndian4RoundTrip(n: uint32)
    ensures FromLittleEndian4(LittleEndian4(n)) == n
  {
    WordRoundTrip(n % 0x1_0000);
    WordRoundTrip(n / 0x1_0000);
  }

  function Monus(a: nat, b: nat): nat {
    if a >= b then a - b else 0
  }

  // ----- padding

  function NeededPad(length: nat): (n: nat)
    ensures n < 16 && (length + 1 + n) % 16 == 0
  {
    if (length + 1) % 16 == 0 then 0 else 16 - (length + 1) % 16
  }

  /** 1, 2, ..., n */
  function Ramp(n: nat): (s: seq<byte>)
    requires n < 16
    ensures |s| == n
  {
    if n == 0 then [] else Ramp(n - 1) + [n]
  }

  function AesPadded(data: seq<byte>): (s: seq<byte>)
    ensures |s| == |data| + NeededPad(|data|) + 1 && |s| % 16 == 0
  {
    data + Ramp(NeededPad(|data|)) + [NeededPad(|data|)]
  }

  /** `_aespad` */
  method AesPad(data: seq<byte>) returns (newData: seq<byte>)
    ensures newData == AesPadded(data)
  {
    newData := data;
    var currLen := |data| + 1;
    var neededPad := currLen % 16;
    if neededPad != 0 {
      neededPad := 16 - neededPad;
    }
    var padVal := 1;
    while padVal <= neededPad
      invariant 1 <= padVal <= neededPad + 1 && newData == data + Ramp(padVal - 1)
    {
      newData := newData + [padVal];
      padVal := padVal + 1;
    }
    newData := newData + [neededPad];
  }

  /** Drop the pad bytes and the pad length, as the receiver does. */
  function Unpad(s: seq<byte>): seq<byte>
    requires s != []
  {
    s[..Monus(|s|, s[|s| - 1] as nat + 1)]
  }

  lemma UnpadPadded(data: seq<byte>)
    ensures Unpad(AesPadded(data)) == data
  {
  }

  // ----- packets

  datatype Endpoint = Endpoint(authType: byte, integrity: bool, confidentiality: bool,
                               sessionId: uint32, k1: Key, aesKey: Key)

  datatype SendError = OemPayload | UnrecognizedPayload | NoPayload | StructError

  /** The payload types pyghmi knows. */
  predicate KnownType(t: byte) {
    t == 0 || t == 1 || 0x10 <= t <= 0x15
  }

  function TypeByte(e: Endpoint, bareType: byte): byte
    requires bareType < 0x40
  {
    bareType + (if e.integrity then 0x40 else 0) + (if e.confidentiality then 0x80 else 0)
  }

  /** The payload as it travels: IV and ciphertext, or the plain bytes. */
  function Body(suite: Suite, e: Endpoint, payload: seq<byte>, iv: seq<byte>): seq<byte> {
    if e.confidentiality then iv + suite.encrypt(e.aesKey, iv, AesPadded(payload)) else payload
  }

  function SizeField(e: Endpoint, payload: seq<byte>): nat {
    if e.confidentiality then |payload| + NeededPad(|payload|) + 17 else |payload|
  }

  function Header(e: Endpoint, sequenceNumber: uint32, bareType: byte, size: word): (s: seq<byte>)
    requires bareType < 0x40
    ensures |s| == 16
  {
    [0x06, 0x00, 0xff, 0x07, e.authType, TypeByte(e, bareType)]
    + LittleEndian4(e.sessionId) + LittleEndian4(sequenceNumber) + [Lo(size), Hi(size)]
  }

  function IntegrityPad(length: nat): (n: nat)
    requires length >= 2
    ensures n < 4 && (length + n + 2) % 4 == 0
  {
    if (length - 2) % 4 == 0 then 0 else 4 - (length - 2) % 4
  }

  function Fill(n: nat): (s: seq<byte>)
    ensures |s| == n
  {
    seq(n, _ => 0xff)
  }

  /** Pad, pad length, next header. */
  function Trailer(length: nat): (s: seq<byte>)
    requires length >= 2
    ensures |s| == IntegrityPad(length) + 2
  {
    Fill(IntegrityPad(length)) + [IntegrityPad(length), 7]
  }

  function Unsigned(suite: Suite, e: Endpoint, sequenceNumber: uint32, bareType: byte,
                    payload: seq<byte>, iv: seq<byte>): (s: seq<byte>)
    requires bareType < 0x40 && SizeField(e, payload) < 0x1_0000
    ensures |s| >= 16
  {
    var message := Header(e, sequenceNumber, bareType, SizeField(e, payload)) + Body(suite, e, payload, iv);
    message + (if e.integrity then Trailer(|message|) else [])
  }

  function AuthCode(suite: Suite, k1: Key, data: seq<byte>): (s: seq<byte>)
    ensures |s| == 12
  {
    suite.hmac(k1, data)[..12]
  }

  function Packet(suite: Suite, e: Endpoint, sequenceNumber: uint32, bareType: byte,
                  payload: seq<byte>, iv: seq<byte>): (s: seq<byte>)
    requires bareType < 0x40 && SizeField(e, payload) < 0x1_0000
  {
    var message := Unsigned(suite, e, sequenceNumber, bareType, payload, iv);
    message + (if e.integrity then AuthCode(suite, e.k1, message[4..]) else [])
  }

  // ----- receiving

  datatype Delivery =
    | Closed
    | Ignored
    | OpenRequest(bytes: seq<byte>)
    | Rakp1(bytes: seq<byte>)
    | Rakp3(bytes: seq<byte>)
    | Delivered(payloadType: byte, bytes: seq<byte>)
    | Crashed

  datatype Receiver = Receiver(localSid: uint32, k1: Option<Key>, aesKey: Key, remSeqNumber: Option<uint32>)

  predicate SequenceAccepted(last: Option<uint32>, n: uint32) {
    last == None || n >= last.value || last.value == 0xffff_ffff
  }

  /** The payload bytes of an accepted packet, decrypted if the type byte says so. */
  function Extract(suite: Suite, aesKey: Key, raw: seq<byte>, encrypted: bool): Option<seq<byte>>
    requires |raw| >= 16
  {
    var payload := Slice(raw, 16, 16 + Word(raw[15], raw[14]));
    if !encrypted then Some(payload)
    else
      var iv, blocks := Slice(raw, 16, 32), Slice(payload, 16, |payload|);
      if |iv| != 16 || |blocks| % 16 != 0 then None
      else
        var plain := suite.decrypt(aesKey, iv, blocks);
        if plain == [] then None else Some(Unpad(plain))
  }

  /** `_ipmi20` */
  function Receive(suite: Suite, r: Receiver, raw: seq<byte>): (Delivery, Receiver) {
    if |raw| < 6 then (Crashed, r)
    else
      var payloadType := raw[5] % 0x40;
      if payloadType == 0x10 then (OpenRequest(Slice(raw, 16, |raw|)), r)
      else if payloadType == 0x12 then (Rakp1(Slice(raw, 16, |raw|)), r)
      else if payloadType == 0x14 then (Rakp3(Slice(raw, 16, |raw|)), r)
      else if payloadType == 0x11 || payloadType == 0x13 || payloadType == 0x15 then (Ignored, r)
      else if payloadType > 1 then (Closed, r)
      else if raw[5] / 0x40 % 2 == 0 || r.k1 == None then (Closed, r)
      else if Slice(raw, Monus(|raw|, 12), |raw|) != AuthCode(suite, r.k1.value, Slice(raw, 4, Monus(|raw|, 12)))
        then (Closed, r)
      else ReceiveAuthentic(suite, r, raw)
  }

  /** The rest of `_ipmi20` once the authentication code is accepted. */
  function ReceiveAuthentic(suite: Suite, r: Receiver, raw: seq<byte>): (Delivery, Receiver)
    requires |raw| >= 6
  {
    if |raw| < 10 then (Crashed, r)
    else if FromLittleEndian4(raw[6..10]) != r.localSid then (Closed, r)
    else if |raw| < 14 then (Crashed, r)
    else
      var n := FromLittleEndian4(raw[10..14]);
      if !SequenceAccepted(r.remSeqNumber, n) then (Closed, r)
      else
        var next := r.(remSeqNumber := Some(n));
        if |raw| < 16 then (Crashed, next)
        else
          match Extract(suite, r.aesKey, raw, raw[5] >= 0x80)
          case None => (Crashed, next)
          case Some(payload) => (Delivered(raw[5] % 0x40, payload), next)
  }

  // ----- sender against receiver

  lemma BodyLength(suite: Suite, e: Endpoint, payload: seq<byte>, iv: seq<byte>)
    requires |iv| == 16 && suite.Lawful()
    ensures |Body(suite, e, payload, iv)| == SizeField(e, payload)
  {
  }

  lemma SlicesOfMessage(header: seq<byte>, body: seq<byte>, trailer: seq<byte>, code: seq<byte>)
    requires |header| == 16 && |code| == 12
    ensures var message := header + body + trailer;
      var raw := message + code;
      && raw[..16] == header && raw[16..16 + |body|] == body
      && raw[|raw| - 12..] == code && raw[4..|raw| - 12] == message[4..]
  {
    var message := header + body + trailer;
    var raw := message + code;
    assert message[16..16 + |body|] == body;
    assert raw[16..16 + |body|] == message[16..16 + |body|];
  }

  lemma PacketLayout(suite: Suite, e: Endpoint, n: uint32, bareType: byte, payload: seq<byte>, iv: seq<byte>)
    requires bareType < 0x40 && SizeField(e, payload) < 0x1_0000
    requires e.integrity && |iv| == 16 && suite.Lawful()
    ensures var body := Body(suite, e, payload, iv);
      var raw := Packet(suite, e, n, bareType, payload, iv);
      && |body| == SizeField(e, payload)
      && |raw| >= 30 && |raw| % 4 == 0
      && raw[..16] == Header(e, n, bareType, |body|)
      && raw[16..16 + |body|] == body
      && raw[|raw| - 12..] == AuthCode(suite, e.k1, raw[4..|raw| - 12])
  {
    BodyLength(suite, e, payload, iv);
    hide Body, SizeField, Header, AuthCode;
    var body := Body(suite, e, payload, iv);
    var header := Header(e, n, bareType, SizeField(e, payload));
    var trailer := Trailer(|header + body|);
    SlicesOfMessage(header, body, trailer, AuthCode(suite, e.k1, (header + body + trailer)[4..]));
  }

  lemma HeaderFields(e: Endpoint, n: uint32, bareType: byte, size: word)
    requires bareType < 0x40
    ensures var h := Header(e, n, bareType, size);
      && h[5] == TypeByte(e, bareType)
      && FromLittleEndian4(h[6..10]) == e.sessionId
      && FromLittleEndian4(h[10..14]) == n
      && Word(h[15], h[14]) == size
  {
    var h := Header(e, n, bareType, size);
    assert h[6..10] == LittleEndian4(e.sessionId);
    assert h[10..14] == LittleEndian4(n);
    LittleEndian4RoundTrip(e.sessionId);
    LittleEndian4RoundTrip(n);
  }

  lemma ExtractBody(suite: Suite, e: Endpoint, payload: seq<byte>, iv: seq<byte>, raw: seq<byte>)
    requires |iv| == 16 && suite.Lawful() && |raw| >= 16
    requires var body := Body(suite, e, payload, iv);
      |raw| >= 16 + |body| && raw[16..16 + |body|] == body && Word(raw[15], raw[14]) == |body|
    ensures Extract(suite, e.aesKey, raw, e.confidentiality) == Some(payload)
  {
    var body := Body(suite, e, payload, iv);
    if e.confidentiality {
      assert body[..16] == iv;
      assert raw[16..32] == raw[16..16 + |body|][..16];
      var blocks := suite.encrypt(e.aesKey, iv, AesPadded(payload));
      assert |blocks| == |AesPadded(payload)|;
      assert Slice(body, 16, |body|) == blocks;
      UnpadPadded(payload);
    }
  }

  /** The type byte of an integrity-protected packet, read bit by bit. */
  lemma TypeByteFields(e: Endpoint, bareType: byte)
    requires bareType <= 1 && e.integrity
    ensures var t := TypeByte(e, bareType);
      t % 0x40 == bareType && t / 0x40 % 2 == 1 && (t >= 0x80 <==> e.confidentiality)
  {
  }

  lemma ReceiveIsAuthentic(suite: Suite, r: Receiver, raw: seq<byte>)
    requires |raw| >= 30 && raw[5] % 0x40 <= 1 && raw[5] / 0x40 % 2 == 1 && r.k1.Some?
    requires raw[|raw| - 12..] == AuthCode(suite, r.k1.value, raw[4..|raw| - 12])
    ensures Receive(suite, r, raw) == ReceiveAuthentic(suite, r, raw)
  {
  }

  /** Every packet the sender builds with integrity on is accepted by a receiver that shares its keys
      and session id, if and only if its sequence number is acceptable; what arrives is the payload
      itself and the sequence number is remembered. */
  lemma FramingRoundTrip(suite: Suite, e: Endpoint, r: Receiver, n: uint32, bareType: byte,
                         payload: seq<byte>, iv: seq<byte>)
    requires bareType <= 1 && SizeField(e, payload) < 0x1_0000
    requires e.integrity && |iv| == 16 && suite.Lawful()
    requires r.localSid == e.sessionId && r.k1 == Some(e.k1) && r.aesKey == e.aesKey
    ensures Receive(suite, r, Packet(suite, e, n, bareType, payload, iv)) ==
      if SequenceAccepted(r.remSeqNumber, n) then (Delivered(bareType, payload), r.(remSeqNumber := Some(n)))
      else (Closed, r)
  {
    var raw := Packet(suite, e, n, bareType, payload, iv);
    var size := |Body(suite, e, payload, iv)|;
    PacketLayout(suite, e, n, bareType, payload, iv);
    BodyLength(suite, e, payload, iv);
    HeaderFields(e, n, bareType, size);
    TypeByteFields(e, bareType);
    hide Packet, Header, Body, SizeField, AuthCode;
    var h := raw[..16];
    assert raw[5] == h[5] && raw[14] == h[14] && raw[15] == h[15];
    assert raw[6..10] == h[6..10] && raw[10..14] == h[10..14];
    ReceiveIsAuthentic(suite, r, raw);
    ExtractBody(suite, e, payload, iv, raw);
  }

  // ----- IPMI 1.5

  /** The lengths that call for a legacy pad byte. */
  predicate LegacyPad(length: nat) {
    length == 56 || length == 84 || length == 112 || length == 128 || length == 156
  }

  /** A packet of an IPMI 1.5 session. */
  function Packet15(suite: Suite, e: Endpoint, n: uint32, payload: seq<byte>): (s: seq<byte>)
    requires |payload| <= 0xff
  {
    var message := Header15(e, n) + Code15(suite, e, n, payload) + Sized(payload);
    message + (if LegacyPad(34 + |message|) then [0] else [])
  }

  function Header15(e: Endpoint, n: uint32): (s: seq<byte>)
    ensures |s| == 13
  {
    [0x06, 0x00, 0xff, 0x07, e.authType] + LittleEndian4(n) + LittleEndian4(e.sessionId)
  }

  function Code15(suite: Suite, e: Endpoint, n: uint32, payload: seq<byte>): seq<byte> {
    if e.authType == 0 then [] else suite.code15(n, payload)
  }

  function Sized(payload: seq<byte>): (s: seq<byte>)
    requires |payload| <= 0xff
  {
    var size: byte := |payload|;
    [size] + payload
  }

  /** What the server keeps of an IPMI 1.5 peer. */
  datatype Receiver15 = Receiver15(sessionId: uint32, authType: byte, remSequenceNumber: Option<uint32>)

  /** The IPMI 1.5 half of `_got_request`, for packets of type 0 and 2. */
  function Receive15(suite: Suite, r: Receiver15, raw: seq<byte>): (Delivery, Receiver15)
    requires |raw| > 4 && (raw[4] == 0 || raw[4] == 2)
  {
    if |raw| < 9 then (Crashed, r)
    else
      var n := FromLittleEndian4(raw[5..9]);
      if r.remSequenceNumber != None && n < r.remSequenceNumber.value then (Closed, r)
      else
        var next := r.(remSequenceNumber := Some(n));
        if raw[4] != r.authType then (Closed, next)
        else if |raw| < 13 then (Crashed, next)
        else if FromLittleEndian4(raw[9..13]) != r.sessionId then (Closed, next)
        else (Payload15(suite, n, raw, raw[4] == 2), next)
  }

  /** The payload, once the code between header and length, if there is one, is cut out and checked. */
  function Payload15(suite: Suite, n: uint32, raw: seq<byte>, signed: bool): Delivery
    requires |raw| >= 13
  {
    var code := if signed then Slice(raw, 13, 29) else [];
    var rsp := if signed then raw[..13] + Slice(raw, 29, |raw|) else raw;
    if |rsp| < 14 then Crashed
    else
      var size: nat := rsp[13];
      var payload := Slice(rsp, 14, 14 + size);
      if code != [] && suite.code15(n, payload) != code then Closed else Delivered(0, payload)
  }

  /** Every packet an IPMI 1.5 sender builds without a code or with one is accepted by a peer with the same
      session id and type, if and only if its sequence number does not go back, and delivers its payload,
      whether or not a pad byte follows. */
  lemma RoundTrip15(suite: Suite, e: Endpoint, r: Receiver15, n: uint32, payload: seq<byte>) returns (raw: seq<byte>)
    requires |payload| <= 0xff && (e.authType == 0 || e.authType == 2)
    requires r.sessionId == e.sessionId && r.authType == e.authType
    ensures raw == Packet15(suite, e, n, payload) && |raw| > 4 && raw[4] == e.authType
    ensures Receive15(suite, r, raw) ==
      if r.remSequenceNumber == None || n >= r.remSequenceNumber.value then
        (Delivered(0, payload), r.(remSequenceNumber := Some(n)))
      else (Closed, r)
  {
    var header, code, body := Header15(e, n), Code15(suite, e, n, payload), Sized(payload);
    var pad: seq<byte> := if LegacyPad(34 + |header + code + body|) then [0] else [];
    raw := header + code + body + pad;
    Header15Fields(e, n);
    Layout15(header, code, body, pad);
    PayloadOf15(suite, e, n, payload, pad);
    hide Payload15, Header15, Code15, Sized, LittleEndian4, FromLittleEndian4, LegacyPad;
    assert raw[4] == header[4] && raw[5..9] == header[5..9] && raw[9..13] == header[9..13];
  }

  lemma Header15Fields(e: Endpoint, n: uint32)
    ensures var h := Header15(e, n);
      h[4] == e.authType && FromLittleEndian4(h[5..9]) == n && FromLittleEndian4(h[9..13]) == e.sessionId
  {
    var h := Header15(e, n);
    assert h[5..9] == LittleEndian4(n) && h[9..13] == LittleEndian4(e.sessionId);
    LittleEndian4RoundTrip(n);
    LittleEndian4RoundTrip(e.sessionId);
  }

  lemma PayloadOf15(suite: Suite, e: Endpoint, n: uint32, payload: seq<byte>, pad: seq<byte>)
    requires |payload| <= 0xff
    ensures Payload15(suite, n, Header15(e, n) + Code15(suite, e, n, payload) + Sized(payload) + pad, e.authType != 0)
         == Delivered(0, payload)
  {
    var header, code, body := Header15(e, n), Code15(suite, e, n, payload), Sized(payload);
    Layout15(header, code, body, pad);
    CutBody(header, body, pad);
    assert header + [] == header;
    hide Header15;
  }

  lemma Layout15(header: seq<byte>, code: seq<byte>, body: seq<byte>, pad: seq<byte>)
    requires |header| == 13 && (code == [] || |code| == 16)
    ensures var raw := header + code + body + pad;
      && raw[..13] == header
      && (code != [] ==> Slice(raw, 13, 29) == code && raw[..13] + Slice(raw, 29, |raw|) == header + body + pad)
  {
    var raw := header + code + body + pad;
    if code != [] {
      assert raw[13..29] == code;
      assert raw[29..] == body + pad;
      assert header + (body + pad) == header + body + pad;
    }
  }

  lemma CutBody(header: seq<byte>, body: seq<byte>, pad: seq<byte>)
    requires |header| == 13 && body != [] && |body| == 1 + body[0] as nat
    ensures var rsp := header + body + pad;
      |rsp| >= 14 && rsp[13] == body[0] && Slice(rsp, 14, 13 + |body|) == body[1..]
  {
    var rsp := header + body + pad;
    assert rsp[14..13 + |body|] == body[1..];
  }

  // ----- a session

  /** One packet of a session: its sequence number and what goes into it. */
  datatype Sending = Sending(n: uint32, bareType: byte, payload: seq<byte>, iv: seq<byte>)

  predicate Sendable(e: Endpoint, s: Sending) {
    s.bareType <= 1 && SizeField(e, s.payload) < 0x1_0000 && |s.iv| == 16
  }

  ghost predicate AllSendable(e: Endpoint, ss: seq<Sending>) {
    forall i :: 0 <= i < |ss| ==> Sendable(e, ss[i])
  }

  function Packets(suite: Suite, e: Endpoint, ss: seq<Sending>): (raws: seq<seq<byte>>)
    requires AllSendable(e, ss)
    ensures |raws| == |ss|
  {
    if ss == [] then []
    else [Packet(suite, e, ss[0].n, ss[0].bareType, ss[0].payload, ss[0].iv)] + Packets(suite, e, ss[1..])
  }

  /** The packets of a session in turn; the first that is refused closes it for good. */
  function ReceiveAll(suite: Suite, r: Receiver, raws: seq<seq<byte>>): (seq<Delivery>, bool)
    decreases |raws|
  {
    if raws == [] then ([], true)
    else
      var (d, next) := Receive(suite, r, raws[0]);
      if d == Closed then ([], false)
      else
        var (ds, open) := ReceiveAll(suite, next, raws[1..]);
        ([d] + ds, open)
  }

  /** How many sequence numbers come before the first that goes back; after the greatest one the
      numbers may start again. */
  function SteadyCount(last: Option<uint32>, ss: seq<Sending>): (k: nat)
    ensures k <= |ss|
    decreases |ss|
  {
    if ss == [] || !SequenceAccepted(last, ss[0].n) then 0 else 1 + SteadyCount(Some(ss[0].n), ss[1..])
  }

  function Deliveries(ss: seq<Sending>): (ds: seq<Delivery>)
    ensures |ds| == |ss| && forall i :: 0 <= i < |ss| ==> ds[i] == Delivered(ss[i].bareType, ss[i].payload)
  {
    seq(|ss|, i requires 0 <= i < |ss| => Delivered(ss[i].bareType, ss[i].payload))
  }

  /** Over a whole session exactly the payloads before the first sequence number that goes back arrive,
      in order and unaltered; the session stays open if and only if no number does. */
  lemma {:induction false} SessionDelivers(suite: Suite, e: Endpoint, r: Receiver, ss: seq<Sending>)
    returns (raws: seq<seq<byte>>, k: nat)
    requires AllSendable(e, ss) && e.integrity && suite.Lawful()
    requires r.localSid == e.sessionId && r.k1 == Some(e.k1) && r.aesKey == e.aesKey
    ensures raws == Packets(suite, e, ss) && k == SteadyCount(r.remSeqNumber, ss)
    ensures ReceiveAll(suite, r, raws) == (Deliveries(ss[..k]), k == |ss|)
    decreases |ss|
  {
    hide Packet, Receive;
    raws, k := Packets(suite, e, ss), SteadyCount(r.remSeqNumber, ss);
    if ss == [] {
      assert Deliveries(ss[..k]) == [];
    } else {
      var s := ss[0];
      assert Sendable(e, s);
      FramingRoundTrip(suite, e, r, s.n, s.bareType, s.payload, s.iv);
      if k == 0 {
        assert Deliveries(ss[..k]) == [];
      } else {
        var others, more := SessionDelivers(suite, e, r.(remSeqNumber := Some(s.n)), ss[1..]);
        assert raws[1..] == others;
        assert ss[..k][1..] == ss[1..][..k - 1];
        assert Deliveries(ss[..k]) == [Delivered(s.bareType, s.payload)] + Deliveries(ss[1..][..k - 1]);
      }
    }
  }

  /** The number after `n`: a session that starts at 0 never counts. */
  function NextNumber(n: nat): nat {
    if n == 0 then 0 else n + 1
  }

  /** Packets numbered one after the other. */
  predicate NumberedFrom(n: nat, ss: seq<Sending>)
    decreases |ss|
  {
    ss == [] || (ss[0].n == n && NumberedFrom(NextNumber(n), ss[1..]))
  }

  /** A sender's own numbering is steady, so all it sends arrives. */
  lemma {:induction false} SenderIsSteady(last: Option<uint32>, n: nat, ss: seq<Sending>)
    requires NumberedFrom(n, ss) && (ss != [] ==> SequenceAccepted(last, ss[0].n))
    ensures SteadyCount(last, ss) == |ss|
    decreases |ss|
  {
    if ss != [] {
      SenderIsSteady(Some(ss[0].n), NextNumber(n), ss[1..]);
    }
  }

  /** Two packets with numbers 2 and 1: the second closes the session and is lost. With the same number
      twice, a repeated packet is delivered again. */
  lemma BackAndAgain(suite: Suite, e: Endpoint, r: Receiver, payload: seq<byte>, iv: seq<byte>)
    requires e.integrity && suite.Lawful() && |iv| == 16 && SizeField(e, payload) < 0x1_0000
    requires r == Receiver(e.sessionId, Some(e.k1), e.aesKey, None)
    ensures var one, two := Sending(1, 0, payload, iv), Sending(2, 0, payload, iv);
      && ReceiveAll(suite, r, Packets(suite, e, [two, one])) == ([Delivered(0, payload)], false)
      && ReceiveAll(suite, r, Packets(suite, e, [one, one]))
         == ([Delivered(0, payload), Delivered(0, payload)], true)
  {
    var one, two := Sending(1, 0, payload, iv), Sending(2, 0, payload, iv);
    SteadyPair(two, one);
    SteadyPair(one, one);
    var back, k := SessionDelivers(suite, e, r, [two, one]);
    var again, l := SessionDelivers(suite, e, r, [one, one]);
    assert Deliveries([two, one][..1]) == [Delivered(0, payload)];
    assert Deliveries([one, one][..2]) == [Delivered(0, payload), Delivered(0, payload)];
  }

  lemma SteadyPair(s: Sending, t: Sending)
    ensures SteadyCount(None, [s, t]) == if SequenceAccepted(Some(s.n), t.n) then 2 else 1
  {
    assert [s, t][1..] == [t];
    assert SteadyCount(Some(t.n), [t][1..]) == 0;
  }

  // ----- an IPMI 1.5 session

  datatype Sending15 = Sending15(n: uint32, payload: seq<byte>)

  ghost predicate AllSendable15(ss: seq<Sending15>) {
    forall i :: 0 <= i < |ss| ==> |ss[i].payload| <= 0xff
  }

  function Packets15(suite: Suite, e: Endpoint, ss: seq<Sending15>): (raws: seq<seq<byte>>)
    requires AllSendable15(ss)
    ensures |raws| == |ss|
  {
    if ss == [] then [] else [Packet15(suite, e, ss[0].n, ss[0].payload)] + Packets15(suite, e, ss[1..])
  }

  /** The packets of a session in turn; the first that is refused, or is of another version, closes it. */
  function ReceiveAll15(suite: Suite, r: Receiver15, raws: seq<seq<byte>>): (seq<Delivery>, bool)
    decreases |raws|
  {
    if raws == [] then ([], true)
    else if |raws[0]| <= 4 || (raws[0][4] != 0 && raws[0][4] != 2) then ([], false)
    else
      var (d, next) := Receive15(suite, r, raws[0]);
      if d == Closed then ([], false)
      else
        var (ds, open) := ReceiveAll15(suite, next, raws[1..]);
        ([d] + ds, open)
  }

  /** How many sequence numbers come before the first that goes back; here none may start again. */
  function SteadyCount15(last: Option<uint32>, ss: seq<Sending15>): (k: nat)
    ensures k <= |ss|
    decreases |ss|
  {
    if ss == [] || (last != None && ss[0].n < last.value) then 0 else 1 + SteadyCount15(Some(ss[0].n), ss[1..])
  }

  function Deliveries15(ss: seq<Sending15>): (ds: seq<Delivery>)
    ensures |ds| == |ss| && forall i :: 0 <= i < |ss| ==> ds[i] == Delivered(0, ss[i].payload)
  {
    seq(|ss|, i requires 0 <= i < |ss| => Delivered(0, ss[i].payload))
  }

  lemma ReceiveFirst15(suite: Suite, r: Receiver15, raw: seq<byte>, others: seq<seq<byte>>)
    requires |raw| > 4 && (raw[4] == 0 || raw[4] == 2)
    ensures ReceiveAll15(suite, r, [raw] + others) ==
      var (d, next) := Receive15(suite, r, raw);
      if d == Closed then ([], false)
      else
        var (ds, open) := ReceiveAll15(suite, next, others);
        ([d] + ds, open)
  {
    hide Receive15;
    assert ([raw] + others)[1..] == others;
  }

  /** Over a whole session exactly the payloads before the first sequence number that goes back arrive, in
      order and unaltered; the session stays open if and only if none does. */
  lemma {:induction false} SessionDelivers15(suite: Suite, e: Endpoint, r: Receiver15, ss: seq<Sending15>)
    returns (raws: seq<seq<byte>>, k: nat)
    requires AllSendable15(ss) && (e.authType == 0 || e.authType == 2)
    requires r.sessionId == e.sessionId && r.authType == e.authType
    ensures raws == Packets15(suite, e, ss) && k == SteadyCount15(r.remSequenceNumber, ss)
    ensures ReceiveAll15(suite, r, raws) == (Deliveries15(ss[..k]), k == |ss|)
    decreases |ss|
  {
    hide Packet15, Receive15;
    raws, k := Packets15(suite, e, ss), SteadyCount15(r.remSequenceNumber, ss);
    if ss == [] {
      assert Deliveries15(ss[..k]) == [];
    } else {
      var s := ss[0];
      var raw := RoundTrip15(suite, e, r, s.n, s.payload);
      ReceiveFirst15(suite, r, raw, Packets15(suite, e, ss[1..]));
      if k == 0 {
        assert Deliveries15(ss[..k]) == [];
      } else {
        var others, more := SessionDelivers15(suite, e, r.(remSequenceNumber := Some(s.n)), ss[1..]);
        assert ss[..k][1..] == ss[1..][..k - 1];
        assert Deliveries15(ss[..k]) == [Delivered(0, s.payload)] + Deliveries15(ss[1..][..k - 1]);
      }
    }
  }

  predicate NumberedFrom15(n: nat, ss: seq<Sending15>)
    decreases |ss|
  {
    ss == [] || (ss[0].n == n && NumberedFrom15(NextNumber(n), ss[1..]))
  }

  /** A sender's own numbering is steady here too. */
  lemma {:induction false} SenderIsSteady15(last: Option<uint32>, n: nat, ss: seq<Sending15>)
    requires NumberedFrom15(n, ss) && (last == None || last.value <= n)
    ensures SteadyCount15(last, ss) == |ss|
    decreases |ss|
  {
    if ss != [] {
      SenderIsSteady15(Some(ss[0].n), NextNumber(n), ss[1..]);
    }
  }
}
