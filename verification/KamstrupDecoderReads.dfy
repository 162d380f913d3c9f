/** Chunking of the decoder's input, its round trip with the response serializer, and its agreement
    with the server's parser. */
module KamstrupDecoderReads {
  import opened Bytes
  import opened Stuffing
  import opened KamstrupMessages
  import opened KamstrupDecoder
  import opened KamstrupRequestReads
  import Parser = KamstrupRequestParser

  // ----- chunk independence

  /** One decoder call per chunk; calls that report nothing leave no trace. */
  function Feed(dir: Direction, crc: Checksum, side: Side, chunks: seq<seq<byte>>): (seq<Reading>, Side)
    decreases |chunks|
  {
    if chunks == [] then ([], side)
    else
      var (reading, next) := Decode(dir, crc, side, chunks[0]);
      var (readings, last) := Feed(dir, crc, next, chunks[1..]);
      (if reading.Nothing? then readings else [reading] + readings, last)
  }

  lemma FeedOne(dir: Direction, crc: Checksum, side: Side, chunk: seq<byte>)
    ensures var (reading, next) := Decode(dir, crc, side, chunk);
      Feed(dir, crc, side, [chunk]) == (if reading.Nothing? then [] else [reading], next)
  {
    var (reading, next) := Decode(dir, crc, side, chunk);
    assert [chunk][1..] == [];
    assert Feed(dir, crc, next, []) == ([], next);
    assert [reading] + [] == [reading];
  }

  /** The decoder is inside a message or about to see its magic byte. */
  predicate Expected(dir: Direction, side: Side, chunk: seq<byte>) {
    side.parsing || chunk == [] || chunk[0] == Magic(dir)
  }

  lemma DecodeIsIncremental(dir: Direction, crc: Checksum, side: Side, a: seq<byte>, b: seq<byte>)
    requires Expected(dir, side, a + b)
    requires Receive(dir, side, a).Waiting?
    ensures Decode(dir, crc, side, a).0 == Nothing
    ensures Decode(dir, crc, Decode(dir, crc, side, a).1, b) == Decode(dir, crc, side, a + b)
  {
    ScanConcat(side.data, side.escaped, a, b);
    if a == [] {
      assert a + b == b;
    }
  }

  /** Two for each collected byte, one for a pending escape. */
  function Progress(data: seq<byte>, escaped: bool): nat {
    2 * |data| + if escaped then 1 else 0
  }

  lemma {:induction false} ScanProgresses(data: seq<byte>, escaped: bool, input: seq<byte>)
    ensures match Scan(data, escaped, input)
      case Pending(d, e) => Progress(d, e) >= Progress(data, escaped) + |input|
      case Complete(_, _) => true
    decreases |input|
  {
    if input != [] {
      if escaped {
        ScanProgresses(data + [Flip(input[0])], false, input[1..]);
      } else if input[0] == ESCAPE {
        ScanProgresses(data, true, input[1..]);
      } else if input[0] != EOT_MAGIC {
        ScanProgresses(data + [input[0]], false, input[1..]);
      }
    }
  }

  /** Calls that report nothing leave a trace of every byte they took. */
  lemma {:induction false} FeedProgresses(dir: Direction, crc: Checksum, side: Side, chunks: seq<seq<byte>>)
    ensures var (readings, last) := Feed(dir, crc, side, chunks);
      readings == [] ==>
        Progress(last.data, last.escaped) >= Progress(side.data, side.escaped) + |Flatten(chunks)|
    decreases |chunks|
  {
    if chunks != [] {
      ScanProgresses(side.data, side.escaped, chunks[0]);
      FeedProgresses(dir, crc, Decode(dir, crc, side, chunks[0]).1, chunks[1..]);
    }
  }

  lemma {:induction false} FeedEmpties(dir: Direction, crc: Checksum, side: Side, chunks: seq<seq<byte>>)
    requires Flatten(chunks) == []
    ensures Feed(dir, crc, side, chunks) == ([], side)
    decreases |chunks|
  {
    if chunks != [] {
      assert chunks[0] == [];
      FeedEmpties(dir, crc, side, chunks[1..]);
    }
  }

  /** No byte comes in a chunk behind the one that completes the message. */
  predicate NothingBehind(dir: Direction, side: Side, chunks: seq<seq<byte>>)
    decreases |chunks|
  {
    chunks == [] ||
    match Receive(dir, side, chunks[0])
    case Waiting(next) => NothingBehind(dir, next, chunks[1..])
    case _ => Flatten(chunks[1..]) == []
  }

  /** Cutting a stream, in any way at all and even between an ESCAPE and its byte, is invisible if and
      only if no byte comes in a chunk behind the one that completes a message: within that chunk the
      decoder drops such bytes, in a later one it would read them. */
  lemma {:induction false} CutsInvisibleIff(dir: Direction, crc: Checksum, side: Side, chunks: seq<seq<byte>>)
    requires Expected(dir, side, Flatten(chunks))
    ensures Feed(dir, crc, side, chunks) == Feed(dir, crc, side, [Flatten(chunks)])
       <==> NothingBehind(dir, side, chunks)
    decreases |chunks|
  {
    if chunks == [] {
      FeedOne(dir, crc, side, []);
    } else {
      var a, others := chunks[0], chunks[1..];
      var b := Flatten(others);
      assert Flatten(chunks) == a + b;
      FeedOne(dir, crc, side, a + b);
      var (r1, s1) := Decode(dir, crc, side, a);
      if a != [] {
        assert (a + b)[0] == a[0];
      }
      if Receive(dir, side, a).Waiting? {
        DecodeIsIncremental(dir, crc, side, a, b);
        CutsInvisibleIff(dir, crc, s1, others);
        FeedOne(dir, crc, s1, b);
      } else {
        ScanConcat(side.data, side.escaped, a, b);
        assert Decode(dir, crc, side, a + b) == (r1, s1) && r1 != Nothing;
        var (readings, last) := Feed(dir, crc, s1, others);
        assert [r1] + readings == [r1] <==> readings == [] by {
          assert ([r1] + readings)[1..] == readings;
        }
        FeedProgresses(dir, crc, s1, others);
        if b == [] {
          FeedEmpties(dir, crc, s1, others);
        }
      }
    }
  }

  /** So a stream whose first unescaped EOT, if any, is its last byte may be cut in any way. */
  lemma ChunkIndependence(dir: Direction, crc: Checksum, side: Side, chunks: seq<seq<byte>>)
    requires Expected(dir, side, Flatten(chunks))
    requires var r := Receive(dir, side, Flatten(chunks)); r.Framed? ==> r.rest == []
    ensures Feed(dir, crc, side, chunks) == Feed(dir, crc, side, [Flatten(chunks)])
  {
    EndingAloneLeavesNothing(dir, side, chunks);
    CutsInvisibleIff(dir, crc, side, chunks);
  }

  lemma {:induction false} EndingAloneLeavesNothing(dir: Direction, side: Side, chunks: seq<seq<byte>>)
    requires Expected(dir, side, Flatten(chunks))
    requires var r := Receive(dir, side, Flatten(chunks)); r.Framed? ==> r.rest == []
    ensures NothingBehind(dir, side, chunks)
    decreases |chunks|
  {
    if chunks != [] {
      var a, b := chunks[0], Flatten(chunks[1..]);
      ScanConcat(side.data, side.escaped, a, b);
      if a != [] {
        assert (a + b)[0] == a[0];
      }
      var r := Receive(dir, side, a);
      if r.Waiting? {
        assert a == [] ==> a + b == b;
        EndingAloneLeavesNothing(dir, r.side, chunks[1..]);
      }
    }
  }

  // ----- response round trip

  /** What a response tells about its registers: ids in order, values modulo 256^length. */
  function Readings(rs: seq<Register>, bus: Databus): seq<(word, nat)> {
    if rs == [] then []
    else
      var r := rs[|rs| - 1];
      Readings(rs[..|rs| - 1], bus) + [(r.name, bus(r.databusKey) % Pow256(r.length))]
  }

  lemma RecordOfRegister(r: Register, bus: Databus, tail: seq<byte>)
    ensures Records(RegisterRecord(r, bus) + tail)
         == Prepend([(r.name, bus(r.databusKey) % Pow256(r.length))], Records(tail))
  {
    var record := RegisterRecord(r, bus);
    var msg := record + tail;
    assert msg[3] == record[3] == r.length;
    assert msg[5..5 + r.length] == ToBigEndian(bus(r.databusKey), r.length);
    BigEndianRoundTrip(bus(r.databusKey), r.length);
    assert RecordLength(msg) == |record| && msg[|record|..] == tail;
    if r.length == 0 {
      assert Pow256(0) == 1;
    }
  }

  lemma {:induction false} RecordsOfRegisters(rs: seq<Register>, bus: Databus, tail: seq<byte>)
    ensures Records(RegisterRecords(rs, bus) + tail) == Prepend(Readings(rs, bus), Records(tail))
    decreases |rs|
  {
    if rs == [] {
      assert RegisterRecords(rs, bus) + tail == tail;
      PrependNothing(Records(tail));
    } else {
      var n := |rs| - 1;
      var record := RegisterRecord(rs[n], bus);
      assert RegisterRecords(rs, bus) + tail == RegisterRecords(rs[..n], bus) + (record + tail);
      RecordsOfRegisters(rs[..n], bus, record + tail);
      RecordOfRegister(rs[n], bus, tail);
      PrependTwice(Readings(rs[..n], bus), [(rs[n].name, bus(rs[n].databusKey) % Pow256(rs[n].length))],
                   Records(tail));
    }
  }

  /** `decode_out` undoes `KamstrupResponseRegister.serialize` for every list of registers. */
  lemma ResponseRoundTrip(crc: Checksum, side: Side, address: byte, rs: seq<Register>, bus: Databus)
    requires side.data == [] && !side.escaped
    ensures Decode(Out, crc, side, ResponseFrame(crc, address, rs, bus)) ==
      (if rs == [] then InvalidRegister(address) else RegisterValues(address, Readings(rs, bus)),
       Side([], true, false))
  {
    var records := RegisterRecords(rs, bus);
    var core := [address, GET_REGISTERS] + records;
    var body := Checked(crc, core);
    ScanFrameAlone(RESPONSE_MAGIC, body);
    CheckedIsValid(crc, core);
    ResponseLayout(address, records, Hi(crc(core)), Lo(crc(core)));
    RecordsOfRegisters(rs, bus, []);
    assert records + [] == records;
    assert Readings(rs, bus) + [] == Readings(rs, bus);
  }

  /** The records are what lies between the header and the checksum. */
  lemma ResponseLayout(address: byte, records: seq<byte>, hi: byte, lo: byte)
    ensures var body := [address, GET_REGISTERS] + records + [hi, lo];
      var frame := [RESPONSE_MAGIC] + body;
      && frame[1..] == body && frame[1] == address && frame[2] == GET_REGISTERS
      && RecordBytes(frame) == records
  {
    var body := [address, GET_REGISTERS] + records + [hi, lo];
    var frame := [RESPONSE_MAGIC] + body;
    assert frame == [RESPONSE_MAGIC, address, GET_REGISTERS] + records + [hi, lo];
  }

  // ----- request round trip

  /** `decode_in` reads every request the prober can send. */
  lemma RequestRoundTrip(crc: Checksum, side: Side, address: byte, ids: seq<word>)
    requires |ids| < 0x100 && side.data == [] && !side.escaped
    ensures Decode(In, crc, side, RequestFrame(crc, address, ids)) ==
      (RegisterRequest(address, ids), Side([], true, false))
  {
    var core := [address, GET_REGISTERS] + CountedIds(ids);
    var body, sum := Checked(crc, core), [Hi(crc(core)), Lo(crc(core))];
    var frame := [REQUEST_MAGIC] + body;
    ScanFrameAlone(REQUEST_MAGIC, body);
    CheckedIsValid(crc, core);
    assert frame[1..] == body;
    RequestLayout(address, CountedIds(ids), sum);
    RegisterIdsOfIdBytes(ids, |ids|, sum);
    hide Scan, FrameBytes, IdBytes, RegisterIds;
  }

  lemma RequestLayout(address: byte, counted: seq<byte>, sum: seq<byte>)
    requires counted != [] && |sum| == 2
    ensures var frame := [REQUEST_MAGIC] + ([address, GET_REGISTERS] + counted + sum);
      && frame[1] == address && frame[2] == GET_REGISTERS && frame[3] == counted[0]
      && frame[3..] == counted + sum
  {
  }

  /** Of two requests in one chunk the decoder reads the first only; in a chunk each, it reads both. */
  lemma SecondMessageIsDropped(crc: Checksum, side: Side, a: byte, ids: seq<word>, b: byte, more: seq<word>)
    requires |ids| < 0x100 && |more| < 0x100 && side.data == [] && !side.escaped
    ensures var first, second := RequestFrame(crc, a, ids), RequestFrame(crc, b, more);
      && Feed(In, crc, side, [first + second]).0 == [RegisterRequest(a, ids)]
      && Feed(In, crc, side, [first, second]).0 == [RegisterRequest(a, ids), RegisterRequest(b, more)]
      && !NothingBehind(In, side, [first, second])
  {
    var first, second := RequestFrame(crc, a, ids), RequestFrame(crc, b, more);
    RequestRoundTrip(crc, side, a, ids);
    RequestRoundTrip(crc, Side([], true, false), b, more);
    FeedOne(In, crc, Side([], true, false), second);
    assert [first, second][1..] == [second];
    FeedOne(In, crc, side, first + second);
    ScanConcat([], false, first, second);
    ScanFrameAlone(REQUEST_MAGIC, RequestBody(crc, a, ids));
    assert (first + second)[0] == first[0] == REQUEST_MAGIC;
    assert Decode(In, crc, side, first + second) == Decode(In, crc, side, first);
    assert Flatten([second]) == second + [] == second by {
      assert Flatten([second][1..]) == [];
    }
  }

  // ----- agreement with the server's parser

  lemma {:induction false} RegisterIdsLocal(m: seq<byte>, m': seq<byte>, count: nat)
    requires 2 * count < |m| && 2 * count < |m'| && m[..2 * count + 1] == m'[..2 * count + 1]
    ensures RegisterIds(m, count) == RegisterIds(m', count)
    decreases count
  {
    if count > 0 {
      var k := 2 * count;
      assert m[..k - 1] == m[..k + 1][..k - 1] && m'[..k - 1] == m'[..k + 1][..k - 1];
      assert m[k - 1] == m[..k + 1][k - 1] && m[k] == m[..k + 1][k];
      RegisterIdsLocal(m, m', count - 1);
    }
  }

  predicate SameRegisters(parsed: Parser.Outcome, reading: Reading) {
    && parsed.Parsed? && parsed.request.GetRegisters? && reading.RegisterRequest?
    && parsed.request.address == reading.address
    && parsed.request.registers == reading.ids
  }

  /** On a stream whose first unescaped EOT closes a checksum-valid command 0x10, the in-place parser and
      the appending decoder read the same registers if and only if the declared ids reach neither past the
      end of the frame, where the decoder stops, nor into the last three buffered bytes, where the parser
      does. */
  lemma ParserAgreesWithDecoder(crc: Checksum, stream: seq<byte>, frame: seq<byte>, rest: seq<byte>)
    requires stream != [] && stream[0] == REQUEST_MAGIC
    requires Scan([], false, stream) == Complete(frame, rest)
    requires |frame| >= 3 && ValidCrc(crc, frame[1..]) && frame[2] == GET_REGISTERS
    ensures SameRegisters(Parser.Call(crc, Parser.FRESH.(bytes := stream)).0, Decode(In, crc, FRESH_SIDE, stream).0)
       <==> |frame| >= 4 && 4 + 2 * frame[3] <= |frame| && 6 + 2 * frame[3] <= |frame| + |rest|
  {
    var bytes := frame + [EOT_MAGIC] + rest;
    assert Parser.Unread(false, stream) == stream;
    assert Parser.Call(crc, Parser.FRESH.(bytes := stream)) == Parser.Build(bytes, |frame| + 1, true);
    assert Decode(In, crc, FRESH_SIDE, stream) == FinishFrame(In, crc, frame);
    assert bytes[1] == frame[1] && bytes[2] == GET_REGISTERS;
    if |frame| >= 4 {
      RegistersAgree(frame, rest);
    }
  }

  lemma RegistersAgree(frame: seq<byte>, rest: seq<byte>)
    requires |frame| >= 4
    ensures var parsed, reading := RegistersOf(Parser.Middle(frame + [EOT_MAGIC] + rest)), ReadRequest(frame);
      && (parsed.Ok? <==> 6 + 2 * frame[3] <= |frame| + |rest|)
      && (reading.Ok? && reading.value.RegisterRequest? <==> 4 + 2 * frame[3] <= |frame|)
      && (parsed.Ok? && reading.Ok? && reading.value.RegisterRequest? ==>
            reading.value == RegisterRequest(frame[1], parsed.value))
  {
    var bytes := frame + [EOT_MAGIC] + rest;
    var middle := Parser.Middle(bytes);
    var n: nat := frame[3];
    if |bytes| > 6 {
      assert middle[0] == bytes[3] == frame[3];
    }
    if 4 + 2 * n <= |frame| && 6 + 2 * n <= |frame| + |rest| {
      assert middle[..2 * n + 1] == bytes[3..2 * n + 4] == frame[3..][..2 * n + 1];
      RegisterIdsLocal(middle, frame[3..], n);
    }
  }

  /** A request that declares one id and carries none: the decoder takes the checksum for the id, and the
      parser refuses the count. */
  lemma ChecksumTakenForId(crc: Checksum, address: byte)
    ensures var core: seq<byte> := [address, GET_REGISTERS, 1];
      var stream := FrameBytes(REQUEST_MAGIC, Checked(crc, core));
      && Decode(In, crc, FRESH_SIDE, stream).0 == RegisterRequest(address, [crc(core)])
      && Parser.Call(crc, Parser.FRESH.(bytes := stream)).0 == Parser.Raised(InvalidRegisterCount)
  {
    var core: seq<byte> := [address, GET_REGISTERS, 1];
    var body := Checked(crc, core);
    var stream, frame := FrameBytes(REQUEST_MAGIC, body), [REQUEST_MAGIC] + body;
    ScanFrameAlone(REQUEST_MAGIC, body);
    CheckedIsValid(crc, core);
    assert frame[1..] == body;
    WordRoundTrip(crc(core));
    var m := frame[3..];
    assert m == [1, Hi(crc(core)), Lo(crc(core))];
    assert RegisterIds(m, 1) == RegisterIds(m, 0) + [crc(core)] == [crc(core)];
    var bytes := frame + [EOT_MAGIC] + [];
    assert Parser.Unread(false, stream) == stream;
    assert Parser.Middle(bytes) == [1];
    assert Parser.Call(crc, Parser.FRESH.(bytes := stream)) == Parser.Build(bytes, |frame| + 1, true);
    assert RegistersOf([1]) == Err(InvalidRegisterCount);
    assert bytes[2] == GET_REGISTERS;
    assert Decode(In, crc, FRESH_SIDE, stream) == FinishFrame(In, crc, frame);
    assert ReadRequest(frame) == Ok(RegisterRequest(address, [crc(core)]));
  }
}
