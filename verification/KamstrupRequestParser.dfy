/** The server's request parser (meter_protocol/request_parser.py). */
module KamstrupRequestParser {
  import opened Bytes
  import opened Common
  import opened Stuffing
  import opened KamstrupMessages

  datatype Outcome = NoRequest | Parsed(request: Request) | Raised(error: Error)

  datatype ParserState = ParserState(bytes: seq<byte>, parsing: bool, escaped: bool)

  const FRESH := ParserState([], false, false)

  /** No unfinished request and no pending escape. */
  predicate Idle(st: ParserState) {
    st.bytes == [] && !st.escaped
  }

  function SkipToMagic(s: seq<byte>): seq<byte> {
    if s == [] || s[0] == REQUEST_MAGIC then s else SkipToMagic(s[1..])
  }

  /** `bytes[3:-3]` */
  function Middle(bytes: seq<byte>): seq<byte> {
    if |bytes| < 6 then [] else bytes[3..|bytes| - 3]
  }

  /** Build the request from the head of the buffer and drop its first `cut` bytes; an exception
      leaves the buffer as it is. */
  function Build(bytes: seq<byte>, cut: nat, parsing: bool): (Outcome, ParserState) {
    var kept := ParserState(bytes, parsing, false);
    var dropped := ParserState(bytes[Least(cut, |bytes|)..], parsing, false);
    if |bytes| < 3 then (Raised(IndexError), kept)
    else if bytes[2] == GET_REGISTERS then
      match RegistersOf(Middle(bytes))
      case Err(e) => (Raised(e), kept)
      case Ok(ids) => (Parsed(GetRegisters(bytes[1], Middle(bytes), ids)), dropped)
    else (Parsed(UnknownRequest(bytes[1], bytes[2], Middle(bytes))), dropped)
  }

  /** An unescaped EOT ended `frame`, with `rest` still unread. A failed checksum drops the frame
      and then falls through, so the bytes after it are taken for the request. */
  function Finish(crc: Checksum, frame: seq<byte>, rest: seq<byte>): (Outcome, ParserState) {
    var bytes := frame + [EOT_MAGIC] + rest;
    if |frame| < 3 then (Raised(IndexError), ParserState(bytes, true, false))
    else if ValidCrc(crc, frame[1..]) then Build(bytes, |frame| + 1, true)
    else Build([EOT_MAGIC] + rest, |frame| + 1, false)
  }

  /** Bytes before a request are skipped up to its magic byte. */
  function Unread(parsing: bool, input: seq<byte>): seq<byte> {
    if parsing then input else SkipToMagic(input)
  }

  /** One call of `get_request`: it always rescans the buffer from its first byte. */
  function Call(crc: Checksum, st: ParserState): (Outcome, ParserState) {
    var unread := Unread(st.parsing, st.bytes);
    match Scan([], st.escaped, unread)
    case Pending(d, e) => (NoRequest, ParserState(d, st.parsing || unread != [], e))
    case Complete(frame, rest) => Finish(crc, frame, rest)
  }

  /** `KamstrupRequestParser` */
  class RequestParser {
    const crc: Checksum
    var bytes: seq<byte>
    var parsing: bool
    var dataEscaped: bool

    function State(): ParserState
      reads this
    {
      ParserState(bytes, parsing, dataEscaped)
    }

    constructor (crc: Checksum)
      ensures this.crc == crc && State() == FRESH
    {
      this.crc := crc;
      bytes := [];
      parsing := false;
      dataEscaped := false;
    }

    method AddByte(b: byte)
      modifies this
      ensures State() == old(State()).(bytes := old(bytes) + [b])
    {
      bytes := bytes + [b];
    }

    /** `del self.bytes[position]` */
    method RemoveAt(position: nat)
      requires position < |bytes|
      modifies this`bytes
      ensures |bytes| == |old(bytes)| - 1
      ensures bytes[..position] == old(bytes)[..position] && bytes[position..] == old(bytes)[position + 1..]
    {
      bytes := bytes[..position] + bytes[position + 1..];
    }

    /** The loop of `get_request`: unescapes the buffer in place up to the first unescaped EOT. */
    method ScanBuffer() returns (found: bool, position: nat)
      modifies this
      ensures var unread := Unread(old(parsing), old(bytes));
        match Scan([], old(dataEscaped), unread)
        case Pending(d, e) => !found && State() == ParserState(d, old(parsing) || unread != [], e)
        case Complete(frame, rest) =>
          && found && position == |frame|
          && State() == ParserState(frame + [EOT_MAGIC] + rest, true, false)
    {
      ghost var input := Unread(parsing, bytes);
      ghost var expected := Scan([], dataEscaped, input);
      var bytesLen := |bytes|;
      position := 0;
      while position < bytesLen
        invariant 0 <= position <= bytesLen == |bytes|
        invariant if parsing then Scan(bytes[..position], dataEscaped, bytes[position..]) == expected
                  else position == 0 && Unread(false, bytes) == input && dataEscaped == old(dataEscaped)
        invariant parsing ==> old(parsing) || input != []
        invariant old(parsing) ==> parsing
        decreases bytesLen - position
      {
        var d := bytes[position];
        ghost var done, unread := bytes[..position], bytes[position..];
        assert unread[1..] == bytes[position + 1..];
        if !parsing && d != REQUEST_MAGIC {
          RemoveAt(position);
          bytesLen := bytesLen - 1;
          assert bytes == unread[1..];
          continue;
        } else {
          parsing := true;
          var escapedEscape := false;
          if dataEscaped {
            bytes := bytes[position := Flip(bytes[position])];
            if d == EOT_MAGIC {
              escapedEscape := true;
            }
            dataEscaped := false;
          } else if d == ESCAPE {
            dataEscaped := true;
            RemoveAt(position);
            bytesLen := bytesLen - 1;
            continue;
          }
          if d == EOT_MAGIC && !escapedEscape {
            assert bytes == done + [EOT_MAGIC] + unread[1..];
            return true, position;
          }
          position := position + 1;
          assert bytes[..position] == done + [bytes[position - 1]];
          assert bytes[position..] == unread[1..];
        }
      }
      assert bytes[..position] == bytes;
      found := false;
    }

    /** `get_request` */
    method GetRequest() returns (r: Outcome)
      modifies this
      ensures (r, State()) == Call(crc, old(State()))
    {
      var found, position := ScanBuffer();
      if found {
        ghost var frame, rest := bytes[..position], bytes[position + 1..];
        assert Scan([], old(dataEscaped), Unread(old(parsing), old(bytes))) == Complete(frame, rest);
        r := FinishFrame(position);
      } else {
        r := NoRequest;
      }
    }

    /** The EOT branch of `get_request`. */
    method FinishFrame(position: nat) returns (r: Outcome)
      requires position < |bytes| && bytes[position] == EOT_MAGIC && parsing && !dataEscaped
      modifies this
      ensures (r, State()) == Finish(crc, old(bytes)[..position], old(bytes)[position + 1..])
    {
      ghost var frame, rest := bytes[..position], bytes[position + 1..];
      assert bytes == frame + [EOT_MAGIC] + rest;
      if position < 3 {
        return Raised(IndexError);
      }
      var message := bytes[1..position];
      assert message == frame[1..];
      if !ValidCrc(crc, message) {
        parsing := false;
        bytes := bytes[position..];
        assert bytes == [EOT_MAGIC] + rest;
      }
      if |bytes| < 3 {
        return Raised(IndexError);
      }
      var commAddress := bytes[1];
      var commandByte := bytes[2];
      if commandByte == GET_REGISTERS {
        var registers := ParseRegisterBytes(Middle(bytes));
        match registers {
          case Err(e) =>
            return Raised(e);
          case Ok(ids) =>
            r := Parsed(GetRegisters(commAddress, Middle(bytes), ids));
            bytes := bytes[Least(position + 1, |bytes|)..];
        }
      } else {
        r := Parsed(UnknownRequest(commAddress, commandByte, Middle(bytes)));
        bytes := bytes[Least(position + 1, |bytes|)..];
      }
    }
  }
}
