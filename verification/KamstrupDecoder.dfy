/** The proxy's byte-at-a-time decoder (meter_protocol/decoder_382.py), with structured results in
    place of the source's sentences. */
module KamstrupDecoder {
  import opened Bytes
  import opened Stuffing
  import opened KamstrupMessages

  datatype Reading =
    | Nothing
    | InvalidCrc
    | GetType(address: byte)
    | RegisterRequest(address: byte, ids: seq<word>)
    | CountTooHigh(address: byte)
    | Login(address: byte, pinCode: word)
    | RegisterValues(address: byte, values: seq<(word, nat)>)
    | InvalidRegister(address: byte)
    | UnknownCommand(command: byte)
    | Failed(error: Error)

  /** The source keeps two sets of fields, `in_*` for requests and `out_*` for responses. */
  datatype Direction = In | Out

  datatype Side = Side(data: seq<byte>, parsing: bool, escaped: bool)

  const FRESH_SIDE := Side([], false, false)

  function Magic(dir: Direction): byte {
    if dir == In then REQUEST_MAGIC else RESPONSE_MAGIC
  }

  datatype Received = Waiting(side: Side) | Framed(frame: seq<byte>, rest: seq<byte>) | NotMagic

  function Receive(dir: Direction, side: Side, chunk: seq<byte>): Received {
    if !side.parsing && chunk != [] && chunk[0] != Magic(dir) then NotMagic
    else
      match Scan(side.data, side.escaped, chunk)
      case Pending(d, e) => Waiting(Side(d, side.parsing || chunk != [], e))
      case Complete(frame, rest) => Framed(frame, rest)
  }

  /** `_decode_cmd_get_register`: the collected frame still ends in its checksum, which the length
      test does not allow for. */
  function ReadRequest(frame: seq<byte>): Result<Reading, Error>
    requires |frame| >= 3
  {
    if |frame| < 4 then Err(IndexError)
    else if |frame[2..]| < frame[3] then Ok(CountTooHigh(frame[1]))
    else if 2 * frame[3] >= |frame[3..]| then Err(IndexError)
    else Ok(RegisterRequest(frame[1], RegisterIds(frame[3..], frame[3])))
  }

  predicate Truncated(msg: seq<byte>) {
    |msg| < 4 || (msg[3] > 0 && 5 + msg[3] > |msg|)
  }

  function RecordLength(msg: seq<byte>): (n: nat)
    requires |msg| >= 4
    ensures 0 < n <= |msg|
  {
    if 5 + msg[3] <= |msg| then 5 + msg[3] else |msg|
  }

  function RecordHead(msg: seq<byte>): (word, nat)
    requires !Truncated(msg)
  {
    (Word(msg[0], msg[1]), if msg[3] == 0 then 0 else FromBigEndian(msg[5..5 + msg[3]]))
  }

  function Prepend(values: seq<(word, nat)>, r: Result<seq<(word, nat)>, Error>): Result<seq<(word, nat)>, Error> {
    match r
    case Ok(more) => Ok(values + more)
    case Err(e) => Err(e)
  }

  /** The variable-length records of a register response. */
  function Records(msg: seq<byte>): Result<seq<(word, nat)>, Error>
    decreases |msg|
  {
    if msg == [] then Ok([])
    else if Truncated(msg) then Err(IndexError)
    else Prepend([RecordHead(msg)], Records(msg[RecordLength(msg)..]))
  }

  /** `out_data[3:-2]` */
  function RecordBytes(frame: seq<byte>): seq<byte> {
    if |frame| < 5 then [] else frame[3..|frame| - 2]
  }

  function ReadResponse(frame: seq<byte>): Result<Reading, Error>
    requires |frame| >= 3
  {
    var msg := RecordBytes(frame);
    if msg == [] then Ok(InvalidRegister(frame[1]))
    else
      match Records(msg)
      case Err(e) => Err(e)
      case Ok(values) => Ok(RegisterValues(frame[1], values))
  }

  function ReadCommand(dir: Direction, frame: seq<byte>): Result<Reading, Error>
    requires |frame| >= 3
  {
    if dir == Out then
      if frame[2] == GET_REGISTERS then ReadResponse(frame) else Ok(UnknownCommand(frame[2]))
    else if frame[2] == 0x01 then Ok(GetType(frame[1]))
    else if frame[2] == GET_REGISTERS then ReadRequest(frame)
    else if frame[2] == 0x92 then
      if |frame| < 5 then Err(IndexError) else Ok(Login(frame[1], Word(frame[3], frame[4])))
    else Ok(UnknownCommand(frame[2]))
  }

  /** An unescaped EOT ended `frame`; an exception leaves the collected bytes in place. */
  function FinishFrame(dir: Direction, crc: Checksum, frame: seq<byte>): (Reading, Side) {
    if |frame| < 3 then (Failed(IndexError), Side(frame, true, false))
    else if !ValidCrc(crc, frame[1..]) then (InvalidCrc, FRESH_SIDE)
    else
      match ReadCommand(dir, frame)
      case Err(e) => (Failed(e), Side(frame, true, false))
      case Ok(reading) => (reading, Side([], true, false))
  }

  /** One call of `decode_in` or `decode_out`; what follows the first EOT in `chunk` is dropped. */
  function Decode(dir: Direction, crc: Checksum, side: Side, chunk: seq<byte>): (Reading, Side) {
    match Receive(dir, side, chunk)
    case NotMagic => (Failed(AttributeError), side)
    case Waiting(next) => (Nothing, next)
    case Framed(frame, _) => FinishFrame(dir, crc, frame)
  }

  /** The byte loop that `decode_in` and `decode_out` share. */
  method Collect(dir: Direction, side: Side, chunk: seq<byte>) returns (r: Received)
    ensures r == Receive(dir, side, chunk)
  {
    var data, parsing, dataEscaped := side.data, side.parsing, side.escaped;
    for i := 0 to |chunk|
      invariant parsing <==> side.parsing || i > 0
      invariant i > 0 && !side.parsing ==> chunk[0] == Magic(dir)
      invariant Scan(data, dataEscaped, chunk[i..]) == Scan(side.data, side.escaped, chunk)
    {
      var d := chunk[i];
      assert chunk[i..][1..] == chunk[i + 1..];
      if !parsing && d != Magic(dir) {
        return NotMagic;
      }
      parsing := true;
      var escapedEscape := false;
      if dataEscaped {
        d := Flip(d);
        if d == EOT_MAGIC {
          escapedEscape := true;
        }
        dataEscaped := false;
      } else if d == ESCAPE {
        dataEscaped := true;
        continue;
      }
      if d == EOT_MAGIC && !escapedEscape {
        return Framed(data, chunk[i + 1..]);
      } else {
        data := data + [d];
      }
    }
    r := Waiting(Side(data, parsing, dataEscaped));
  }

  method DecodeGetRegister(frame: seq<byte>) returns (r: Result<Reading, Error>)
    requires |frame| >= 3
    ensures r == ReadRequest(frame)
  {
    if |frame| < 4 {
      return Err(IndexError);
    }
    var registerCount := frame[3];
    if |frame[2..]| < registerCount {
      return Ok(CountTooHigh(frame[1]));
    }
    var ids: seq<word> := [];
    var m := frame[3..];
    for count := 0 to registerCount
      invariant 2 * count < |m| && ids == RegisterIds(m, count)
    {
      if 5 + count * 2 >= |frame| {
        return Err(IndexError);
      }
      ids := ids + [Word(frame[4 + count * 2], frame[5 + count * 2])];
    }
    r := Ok(RegisterRequest(frame[1], ids));
  }

  function From(msg: seq<byte>, i: nat): seq<byte> {
    if i < |msg| then msg[i..] else []
  }

  /** One round of the record loop. */
  method DecodeRecord(msg: seq<byte>, i: nat) returns (r: Option<(word, nat)>)
    requires i < |msg|
    ensures r == if Truncated(msg[i..]) then None else Some(RecordHead(msg[i..]))
  {
    ghost var left := msg[i..];
    if i + 3 >= |msg| {
      return None;
    }
    var register := Word(msg[i], msg[i + 1]);
    var length := msg[i + 3];
    var value := 0;
    if length > 0 {
      if i + 5 + length > |msg| {
        return None;
      }
      value := SumShifted(msg, i + 5, length);
      assert left[5..5 + length] == msg[i + 5..i + 5 + length];
    }
    r := Some((register, value));
  }

  lemma PrependNothing(r: Result<seq<(word, nat)>, Error>)
    ensures Prepend([], r) == r
  {
    if r.Ok? {
      assert [] + r.value == r.value;
    }
  }

  lemma PrependTwice(a: seq<(word, nat)>, b: seq<(word, nat)>, r: Result<seq<(word, nat)>, Error>)
    ensures Prepend(a, Prepend(b, r)) == Prepend(a + b, r)
  {
    if r.Ok? {
      assert a + (b + r.value) == a + b + r.value;
    }
  }

  method DecodeReturnRegister(frame: seq<byte>) returns (r: Result<Reading, Error>)
    requires |frame| >= 3
    ensures r == ReadResponse(frame)
  {
    var msg := RecordBytes(frame);
    if |msg| == 0 {
      return Ok(InvalidRegister(frame[1]));
    }
    var values: seq<(word, nat)> := [];
    var i := 0;
    assert From(msg, 0) == msg;
    PrependNothing(Records(msg));
    while i < |msg|
      invariant 0 <= i
      invariant Records(msg) == Prepend(values, Records(From(msg, i)))
    {
      var record := DecodeRecord(msg, i);
      if record.None? {
        return Err(IndexError);
      }
      var next := i + 5 + msg[i + 3];
      assert From(msg, i)[RecordLength(msg[i..])..] == From(msg, next);
      PrependTwice(values, [record.value], Records(From(msg, next)));
      values := values + [record.value];
      i := next;
    }
    assert values + [] == values;
    r := Ok(RegisterValues(frame[1], values));
  }

  /** `Decoder382` */
  class Decoder382 {
    const crc: Checksum
    var inData: seq<byte>
    var inParsing: bool
    var inDataEscaped: bool
    var outData: seq<byte>
    var outParsing: bool
    var outDataEscaped: bool

    function InSide(): Side
      reads this
    {
      Side(inData, inParsing, inDataEscaped)
    }

    function OutSide(): Side
      reads this
    {
      Side(outData, outParsing, outDataEscaped)
    }

    constructor (crc: Checksum)
      ensures this.crc == crc && InSide() == FRESH_SIDE && OutSide() == FRESH_SIDE
    {
      this.crc := crc;
      inData, inParsing, inDataEscaped := [], false, false;
      outData, outParsing, outDataEscaped := [], false, false;
    }

    method DecodeIn(chunk: seq<byte>) returns (r: Reading)
      modifies this`inData, this`inParsing, this`inDataEscaped
      ensures (r, InSide()) == Decode(In, crc, old(InSide()), chunk)
    {
      var received := Collect(In, InSide(), chunk);
      match received {
        case NotMagic =>
          return Failed(AttributeError);
        case Waiting(side) =>
          inData, inParsing, inDataEscaped := side.data, side.parsing, side.escaped;
          return Nothing;
        case Framed(frame, _) =>
          inData, inParsing, inDataEscaped := frame, true, false;
      }
      if |inData| < 3 {
        return Failed(IndexError);
      }
      if !ValidCrc(crc, inData[1..]) {
        inParsing := false;
        inData := [];
        return InvalidCrc;
      }
      var command := inData[2];
      if command == 0x01 {
        r := GetType(inData[1]);
      } else if command == GET_REGISTERS {
        var request := DecodeGetRegister(inData);
        if request.Err? {
          return Failed(request.error);
        }
        r := request.value;
      } else if command == 0x92 {
        if |inData| < 5 {
          return Failed(IndexError);
        }
        r := Login(inData[1], Word(inData[3], inData[4]));
      } else {
        r := UnknownCommand(command);
      }
      inData := [];
    }

    method DecodeOut(chunk: seq<byte>) returns (r: Reading)
      modifies this`outData, this`outParsing, this`outDataEscaped
      ensures (r, OutSide()) == Decode(Out, crc, old(OutSide()), chunk)
    {
      var received := Collect(Out, OutSide(), chunk);
      match received {
        case NotMagic =>
          return Failed(AttributeError);
        case Waiting(side) =>
          outData, outParsing, outDataEscaped := side.data, side.parsing, side.escaped;
          return Nothing;
        case Framed(frame, _) =>
          outData, outParsing, outDataEscaped := frame, true, false;
      }
      if |outData| < 3 {
        return Failed(IndexError);
      }
      if !ValidCrc(crc, outData[1..]) {
        outParsing := false;
        outData := [];
        return InvalidCrc;
      }
      if outData[2] == GET_REGISTERS {
        var response := DecodeReturnRegister(outData);
        if response.Err? {
          return Failed(response.error);
        }
        r := response.value;
      } else {
        r := UnknownCommand(outData[2]);
      }
      outData := [];
    }
  }
}
