/** S7 PDUs (conpot/protocols/s7comm/s7.py) and the stack S7 in COTP in TPKT. */
module S7 {
  import opened Bytes
  import opened Tpkt
  import opened Cotp

  /** The constructor stores a number; `parse` stores the one-element tuple that `unpack` returns. */
  datatype ResultInfo = Number(n: word) | OneTuple(n: word)

  datatype Pdu = Pdu(magic: byte, pduType: byte, reserved: word, requestId: word, paramLength: nat,
                     dataLength: nat, resultInfo: ResultInfo, parameters: seq<byte>, data: seq<byte>)

  const MAGIC: byte := 0x32

  /** Types 2 and 3 have a result information header. */
  predicate HasResult(pduType: byte) {
    pduType == 2 || pduType == 3
  }

  predicate Supported(pduType: byte) {
    pduType == 1 || HasResult(pduType) || pduType == 7
  }

  function MakePdu(pduType: byte, reserved: word, requestId: word, resultInfo: word,
                   parameters: seq<byte>, data: seq<byte>): Pdu {
    Pdu(MAGIC, pduType, reserved, requestId, |parameters|, |data|, Number(resultInfo), parameters, data)
  }

  /** `__len__` */
  function Length(p: Pdu): nat {
    (if HasResult(p.pduType) then 12 else 10) + p.paramLength + p.dataLength
  }

  /** `pack`; None is an AssembleException or a struct.error. */
  function PackPdu(p: Pdu): Option<seq<byte>> {
    if !Supported(p.pduType) || p.paramLength >= 0x1_0000 || p.dataLength >= 0x1_0000 then None
    else if HasResult(p.pduType) && !p.resultInfo.Number? then None
    else Some(PduHeader(p) + p.parameters + p.data)
  }

  function PduHeader(p: Pdu): (s: seq<byte>)
    requires p.paramLength < 0x1_0000 && p.dataLength < 0x1_0000
    ensures |s| == if HasResult(p.pduType) then 12 else 10
  {
    [p.magic, p.pduType, Hi(p.reserved), Lo(p.reserved), Hi(p.requestId), Lo(p.requestId),
     Hi(p.paramLength), Lo(p.paramLength), Hi(p.dataLength), Lo(p.dataLength)]
    + (if HasResult(p.pduType) then [Hi(p.resultInfo.n), Lo(p.resultInfo.n)] else [])
  }

  datatype PduOutcome = PduParsed(param: byte) | PduParseError | PduStructError

  /** `parse`, over the fields the object already has. */
  function ParsePdu(p: Pdu, packet: seq<byte>): (PduOutcome, Pdu) {
    if |packet| < 10 then (PduParseError, p)
    else if packet[0] != MAGIC then (PduParseError, p.(magic := packet[0]))
    else
      var read := p.(magic := packet[0], pduType := packet[1],
                     reserved := Word(packet[2], packet[3]), requestId := Word(packet[4], packet[5]),
                     paramLength := Word(packet[6], packet[7]), dataLength := Word(packet[8], packet[9]));
      if HasResult(packet[1]) then
        if |packet| < 12 then (PduStructError, read)
        else ParseVariable(read.(resultInfo := OneTuple(Word(packet[10], packet[11]))), packet, 12)
      else ParseVariable(read, packet, 10)
  }

  function ParseVariable(p: Pdu, packet: seq<byte>, offset: nat): (PduOutcome, Pdu) {
    var read := p.(parameters := Slice(packet, offset, offset + p.paramLength),
                   data := Slice(packet, offset + p.paramLength, offset + p.paramLength + p.dataLength));
    if read.parameters == [] then (PduParseError, read) else (PduParsed(read.parameters[0]), read)
  }

  class S7Packet {
    var pdu: Pdu

    constructor (p: Pdu)
      ensures pdu == p
    {
      pdu := p;
    }

    method ParseFrom(packet: seq<byte>) returns (r: PduOutcome)
      modifies this
      ensures (r, pdu) == ParsePdu(old(pdu), packet)
    {
      if |packet| < 10 {
        return PduParseError;
      }
      pdu := pdu.(magic := packet[0]);
      if pdu.magic != MAGIC {
        return PduParseError;
      }
      pdu := pdu.(pduType := packet[1]);
      pdu := pdu.(reserved := Word(packet[2], packet[3]));
      pdu := pdu.(requestId := Word(packet[4], packet[5]));
      pdu := pdu.(paramLength := Word(packet[6], packet[7]));
      pdu := pdu.(dataLength := Word(packet[8], packet[9]));
      var headerOffset := 0;
      if HasResult(pdu.pduType) {
        if |packet| < 12 {
          return PduStructError;
        }
        pdu := pdu.(resultInfo := OneTuple(Word(packet[10], packet[11])));
        headerOffset := 2;
      }
      var first := 10 + headerOffset;
      pdu := pdu.(parameters := Slice(packet, first, first + pdu.paramLength));
      pdu := pdu.(data := Slice(packet, first + pdu.paramLength, first + pdu.paramLength + pdu.dataLength));
      if pdu.parameters == [] {
        return PduParseError;
      }
      return PduParsed(pdu.parameters[0]);
    }
  }

  /** What a parser holding `before` makes of a well-formed PDU. */
  function Received(before: Pdu, p: Pdu): Pdu {
    p.(resultInfo := if HasResult(p.pduType) then OneTuple(p.resultInfo.n) else before.resultInfo)
  }

  predicate WellFormed(p: Pdu) {
    && p.magic == MAGIC && Supported(p.pduType) && p.resultInfo.Number?
    && p.paramLength == |p.parameters| < 0x1_0000 && p.dataLength == |p.data| < 0x1_0000
  }

  /** The fixed header of `raw` reads as the fields of `p`. */
  predicate HeaderReads(p: Pdu, raw: seq<byte>) {
    && |raw| >= (if HasResult(p.pduType) then 12 else 10)
    && raw[0] == p.magic && raw[1] == p.pduType
    && Word(raw[2], raw[3]) == p.reserved && Word(raw[4], raw[5]) == p.requestId
    && Word(raw[6], raw[7]) == p.paramLength && Word(raw[8], raw[9]) == p.dataLength
    && (HasResult(p.pduType) ==> Word(raw[10], raw[11]) == p.resultInfo.n)
  }

  lemma HeaderFields(p: Pdu)
    requires WellFormed(p)
    ensures HeaderReads(p, PduHeader(p))
  {
    WordRoundTrip(p.reserved);
    WordRoundTrip(p.requestId);
    WordRoundTrip(p.paramLength);
    WordRoundTrip(p.dataLength);
    WordRoundTrip(p.resultInfo.n);
  }

  lemma HeaderOfPrefix(p: Pdu, h: seq<byte>, rest: seq<byte>)
    requires HeaderReads(p, h)
    ensures HeaderReads(p, h + rest)
  {
  }

  lemma ParseLaidOut(before: Pdu, p: Pdu, raw: seq<byte>)
    requires WellFormed(p) && HeaderReads(p, raw)
    requires var n := if HasResult(p.pduType) then 12 else 10;
      && Slice(raw, n, n + |p.parameters|) == p.parameters
      && Slice(raw, n + |p.parameters|, n + |p.parameters| + |p.data|) == p.data
    ensures ParsePdu(before, raw) ==
      (if p.parameters == [] then PduParseError else PduParsed(p.parameters[0]), Received(before, p))
  {
    var n := if HasResult(p.pduType) then 12 else 10;
    var read := Received(before, p).(parameters := before.parameters, data := before.data);
    assert ParsePdu(before, raw) == ParseVariable(read, raw, n);
    assert ParseVariable(read, raw, n).1 == Received(before, p);
  }

  lemma SlicesOf(h: seq<byte>, a: seq<byte>, b: seq<byte>)
    ensures Slice(h + a + b, |h|, |h| + |a|) == a
    ensures Slice(h + a + b, |h| + |a|, |h| + |a| + |b|) == b
  {
  }

  /** `__len__` is the packed size, and parsing a packed PDU gives it back; it is refused if and only if
      it has no parameters. */
  lemma PduRoundTrip(before: Pdu, p: Pdu)
    requires WellFormed(p)
    ensures var packed := PackPdu(p);
      && packed.Some? && |packed.value| == Length(p)
      && ParsePdu(before, packed.value) ==
         (if p.parameters == [] then PduParseError else PduParsed(p.parameters[0]), Received(before, p))
  {
    PackedReads(p, PackPdu(p).value);
    ParseLaidOut(before, p, PackPdu(p).value);
  }

  lemma PackedReads(p: Pdu, raw: seq<byte>)
    requires WellFormed(p) && PackPdu(p) == Some(raw)
    ensures HeaderReads(p, raw) && |raw| == Length(p)
    ensures var n := if HasResult(p.pduType) then 12 else 10;
      && Slice(raw, n, n + |p.parameters|) == p.parameters
      && Slice(raw, n + |p.parameters|, n + |p.parameters| + |p.data|) == p.data
  {
    var h := PduHeader(p);
    HeaderFields(p);
    HeaderOfPrefix(p, h, p.parameters);
    HeaderOfPrefix(p, h + p.parameters, p.data);
    SlicesOf(h, p.parameters, p.data);
  }

  /** A parsed PDU can be packed again if and only if it has no result header: for the others `pack` is
      handed the tuple that `parse` stored. */
  lemma RepackIffNoResult(before: Pdu, p: Pdu)
    requires WellFormed(p)
    ensures var again := PackPdu(ParsePdu(before, PackPdu(p).value).1);
      && (again.Some? <==> !HasResult(p.pduType))
      && (again.Some? ==> again == PackPdu(p))
  {
    PduRoundTrip(before, p);
  }

  /** The bytes `s7_server` sends: TPKT(3, COTP(0xf0, opt, S7.pack()).pack()).pack() */
  function SendStack(optField: byte, p: Pdu): Option<seq<byte>> {
    match PackPdu(p)
    case None => None
    case Some(s7) =>
      match PackBase(MakeBase(DATA, optField, s7, []))
      case None => None
      case Some(cotp) => Tpkt.Pack(Tpkt.Make(3, cotp))
  }

  /** S7().parse(COTP().parse(TPKT().parse(data).payload).trailer) */
  function ReceiveStack(b: Base, before: Pdu, raw: seq<byte>): Option<(Base, PduOutcome, Pdu)> {
    match Tpkt.Parse(raw)
    case None => None
    case Some(t) =>
      match ParseBase(b, t.payload)
      case None => None
      case Some(base) =>
        var (outcome, pdu) := ParsePdu(before, base.trailer);
        Some((base, outcome, pdu))
  }

  /** Through the whole stack a PDU comes back, although it enters COTP as payload and leaves it as
      trailer; the stack carries it if and only if the TPKT length does. */
  lemma StackRoundTrip(b: Base, before: Pdu, optField: byte, p: Pdu)
    requires WellFormed(p) && p.parameters != []
    ensures SendStack(optField, p).Some? <==> Length(p) + 7 < 0x1_0000
    ensures SendStack(optField, p).Some? ==>
      && |SendStack(optField, p).value| == Length(p) + 7
      && ReceiveStack(b, before, SendStack(optField, p).value) ==
         Some((Base(DATA, optField, 2, [], PackPdu(p).value), PduParsed(p.parameters[0]), Received(before, p)))
  {
    PduRoundTrip(before, p);
    var s7 := PackPdu(p).value;
    DataRoundTrip(b, optField, s7, []);
    assert s7 + [] == s7;
    var cotp := PackBase(MakeBase(DATA, optField, s7, [])).value;
    if |cotp| + 4 < 0x1_0000 {
      Tpkt.RoundTrip(3, cotp, []);
      var raw := Tpkt.Pack(Tpkt.Make(3, cotp)).value;
      assert raw + [] == raw;
      assert cotp + Slice([], 0, 4) == cotp;
    }
  }

  /** Every response with parameters packs, parses, and then cannot be packed again. */
  lemma ResponseDoesNotRepack(before: Pdu, p: Pdu)
    requires WellFormed(p) && p.pduType == 3 && p.parameters != []
    ensures PackPdu(p).Some?
    ensures var (outcome, parsed) := ParsePdu(before, PackPdu(p).value);
      outcome == PduParsed(p.parameters[0]) && PackPdu(parsed) == None
  {
    PduRoundTrip(before, p);
    RepackIffNoResult(before, p);
  }

  /** There is one. */
  lemma SomeResponse()
    ensures exists p :: WellFormed(p) && p.pduType == 3 && p.parameters != []
  {
    var p := MakePdu(3, 0, 1, 0, [0x04], [0xff]);
    assert WellFormed(p) && p.pduType == 3 && p.parameters != [];
  }
}
