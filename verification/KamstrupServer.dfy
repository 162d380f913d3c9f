/** The register lookup and the connection loop of the Kamstrup server
    (meter_protocol/command_responder.py, meter_protocol/kamstrup_server.py). */
module KamstrupServer {
  import opened Bytes
  import opened Stuffing
  import opened KamstrupMessages
  import opened KamstrupRequestParser
  import opened KamstrupRequestReads

  type RegisterTable = map<word, Register>

  /** The registers a request names, in request order, unknown ids left out. */
  function Select(table: RegisterTable, ids: seq<word>): seq<Register> {
    if ids == [] then []
    else
      var last := ids[|ids| - 1];
      Select(table, ids[..|ids| - 1]) + (if last in table then [table[last]] else [])
  }

  /** `CommandResponder` */
  class CommandResponder {
    const crc: Checksum
    const communicationAddress: byte
    const registers: RegisterTable

    constructor (crc: Checksum, address: byte, registers: RegisterTable)
      ensures this.crc == crc && communicationAddress == address && this.registers == registers
    {
      this.crc := crc;
      communicationAddress := address;
      this.registers := registers;
    }

    /** `respond`: null for a foreign address; a command it does not know trips `assert False`. */
    method Respond(request: Request) returns (response: ResponseRegister?, error: Option<Error>)
      ensures request.address != communicationAddress ==> response == null && error == None
      ensures request.address == communicationAddress && request.UnknownRequest? ==>
        response == null && error == Some(AssertionError)
      ensures request.address == communicationAddress && request.GetRegisters? ==>
        && response != null && fresh(response) && error == None
        && response.crc == crc && response.communicationAddress == communicationAddress
        && response.registers == Select(registers, request.registers)
    {
      if request.address != communicationAddress {
        return null, None;
      } else if request.GetRegisters? {
        var answer := new ResponseRegister(crc, communicationAddress);
        for i := 0 to |request.registers|
          invariant answer.registers == Select(registers, request.registers[..i])
        {
          var register := request.registers[i];
          assert request.registers[..i + 1][..i] == request.registers[..i];
          if register in registers {
            answer.AddRegister(registers[register]);
          }
        }
        assert request.registers[..|request.registers|] == request.registers;
        return answer, None;
      } else {
        return null, Some(AssertionError);
      }
    }
  }

  lemma ScanShrinks(data: seq<byte>, escaped: bool, input: seq<byte>)
    ensures match Scan(data, escaped, input)
      case Pending(d, _) => |d| <= |data| + |input|
      case Complete(f, r) => |f| + 1 + |r| <= |data| + |input|
    decreases |input|
  {
  }

  lemma SkipShrinks(s: seq<byte>)
    ensures |SkipToMagic(s)| <= |s|
  {
  }

  /** A parsed request always takes bytes off the buffer. */
  lemma ParsedShrinks(crc: Checksum, st: ParserState)
    ensures Call(crc, st).0.Parsed? ==> |Call(crc, st).1.bytes| < |st.bytes|
  {
    SkipShrinks(st.bytes);
    ScanShrinks([], st.escaped, Unread(st.parsing, st.bytes));
  }

  datatype Served = Served(replies: seq<seq<byte>>, parser: ParserState, error: Option<Error>)

  /** The inner loop of `handle`: answer requests until none is left, one is not for us, or an
      exception ends the connection. */
  function Serve(crc: Checksum, table: RegisterTable, address: byte, bus: Databus, st: ParserState): Served
    decreases |st.bytes|
  {
    var (r, next) := Call(crc, st);
    ParsedShrinks(crc, st);
    match r
    case NoRequest => Served([], next, None)
    case Raised(e) => Served([], next, Some(e))
    case Parsed(q) =>
      if q.address != address then Served([], next, None)
      else if q.UnknownRequest? then Served([], next, Some(AssertionError))
      else
        var others := Serve(crc, table, address, bus, next);
        others.(replies := [ResponseFrame(crc, address, Select(table, q.registers), bus)] + others.replies)
  }

  /** The outer loop of `handle`: one read after another until the client disconnects, which is an empty
      read, or an exception ends the connection. */
  function ServeReads(crc: Checksum, table: RegisterTable, address: byte, bus: Databus, st: ParserState,
                      chunks: seq<seq<byte>>): Served
    decreases |chunks|
  {
    if chunks == [] || chunks[0] == [] then Served([], st, None)
    else
      var first := Serve(crc, table, address, bus, st.(bytes := st.bytes + chunks[0]));
      if first.error != None then first
      else
        var others := ServeReads(crc, table, address, bus, first.parser, chunks[1..]);
        others.(replies := first.replies + others.replies)
  }

  /** One connection of `KamstrupServer`. */
  class Connection {
    const parser: RequestParser
    const responder: CommandResponder

    ghost predicate Valid() {
      parser.crc == responder.crc
    }

    constructor (responder: CommandResponder)
      ensures Valid() && this.responder == responder && fresh(parser) && parser.State() == FRESH
    {
      this.responder := responder;
      parser := new RequestParser(responder.crc);
    }

    /** What is left to do for a buffer in state `st`. */
    ghost function Pending(bus: Databus, st: ParserState): Served {
      Serve(responder.crc, responder.registers, responder.communicationAddress, bus, st)
    }

    /** What `handle` does with one non-empty read. */
    method Handle(raw: seq<byte>, bus: Databus) returns (replies: seq<seq<byte>>, error: Option<Error>)
      requires Valid()
      modifies parser
      ensures Served(replies, parser.State(), error)
           == Pending(bus, old(parser.State()).(bytes := old(parser.bytes) + raw))
    {
      for i := 0 to |raw|
        invariant parser.State() == old(parser.State()).(bytes := old(parser.bytes) + raw[..i])
      {
        parser.AddByte(raw[i]);
      }
      assert raw[..|raw|] == raw;
      replies, error := Drain(bus);
    }

    /** `handle`, given what the socket delivers. */
    method HandleAll(chunks: seq<seq<byte>>, bus: Databus)
      returns (replies: seq<seq<byte>>, error: Option<Error>)
      requires Valid()
      modifies parser
      ensures Served(replies, parser.State(), error) ==
        ServeReads(responder.crc, responder.registers, responder.communicationAddress, bus, old(parser.State()), chunks)
    {
      hide Serve, Call;
      replies := [];
      for i := 0 to |chunks|
        invariant var now := ServeReads(responder.crc, responder.registers, responder.communicationAddress, bus,
                                        parser.State(), chunks[i..]);
          ServeReads(responder.crc, responder.registers, responder.communicationAddress, bus,
                     old(parser.State()), chunks)
          == now.(replies := replies + now.replies)
      {
        assert chunks[i..][1..] == chunks[i + 1..];
        if |chunks[i]| == 0 {
          return replies, None;
        }
        ghost var before := replies;
        var more, failure := Handle(chunks[i], bus);
        replies := replies + more;
        if failure.Some? {
          return replies, failure;
        }
        ghost var now := ServeReads(responder.crc, responder.registers, responder.communicationAddress, bus,
                                    parser.State(), chunks[i + 1..]);
        assert before + (more + now.replies) == replies + now.replies;
      }
      error := None;
    }

    /** The inner loop of `handle`. */
    method Drain(bus: Databus) returns (replies: seq<seq<byte>>, error: Option<Error>)
      requires Valid()
      modifies parser
      ensures Served(replies, parser.State(), error) == Pending(bus, old(parser.State()))
    {
      hide Call;
      replies := [];
      while true
        invariant var now := Pending(bus, parser.State());
          Pending(bus, old(parser.State())) == now.(replies := replies + now.replies)
        decreases |parser.bytes|
      {
        ParsedShrinks(responder.crc, parser.State());
        var request := parser.GetRequest();
        if request.NoRequest? {
          return replies, None;
        }
        if request.Raised? {
          return replies, Some(request.error);
        }
        var response, failure := responder.Respond(request.request);
        if failure.Some? {
          return replies, failure;
        }
        if response == null {
          return replies, None;
        }
        var serialized := response.Serialize(bus);
        replies := replies + [serialized];
      }
    }
  }

  /** The answers to the requests for this meter. */
  function Responses(crc: Checksum, table: RegisterTable, address: byte, bus: Databus, qs: seq<Query>)
    : seq<seq<byte>>
  {
    if qs == [] then []
    else
      (if qs[0].address == address then [ResponseFrame(crc, address, Select(table, qs[0].ids), bus)] else [])
      + Responses(crc, table, address, bus, qs[1..])
  }

  /** The position of the first request for another meter, or |qs|. */
  function FirstForeign(qs: seq<Query>, address: byte): (k: nat)
    ensures k <= |qs| && (k < |qs| ==> qs[k].address != address)
    ensures forall i :: 0 <= i < k ==> qs[i].address == address
  {
    if qs == [] || qs[0].address != address then 0 else 1 + FirstForeign(qs[1..], address)
  }

  function Behind(qs: seq<Query>, k: nat): seq<Query> {
    if k < |qs| then qs[k + 1..] else []
  }

  /** Of the requests received at once, those before the first for another meter are answered one by one,
      in order; that one is dropped, and those behind it stay in the buffer for the next read. */
  lemma {:induction false} ServePipelined(crc: Checksum, table: RegisterTable, address: byte, bus: Databus,
                                          st: ParserState, qs: seq<Query>)
    requires ValidQueries(qs) && !st.escaped && st.bytes == Stream(crc, qs)
    ensures var k := FirstForeign(qs, address);
      Serve(crc, table, address, bus, st) ==
      Served(Responses(crc, table, address, bus, qs[..k]),
             ParserState(Stream(crc, Behind(qs, k)), st.parsing || qs != [], false), None)
    decreases |qs|
  {
    hide Call, Scan, FrameBytes;
    var k := FirstForeign(qs, address);
    if qs == [] {
      NothingToRead(crc, st);
    } else {
      CallOnFrame(crc, st, qs[0].address, qs[0].ids, Stream(crc, qs[1..]));
      if k > 0 {
        ServePipelined(crc, table, address, bus, Call(crc, st).1, qs[1..]);
        assert qs[..k][1..] == qs[1..][..k - 1];
        assert Behind(qs[1..], k - 1) == Behind(qs, k);
      }
    }
  }
}
