/** Kamstrup request and response messages (meter_protocol/messages.py). */
module KamstrupMessages {
  import opened Bytes
  import opened Stuffing

  const GET_REGISTERS: byte := 0x10

  datatype Request =
    | GetRegisters(address: byte, messageBytes: seq<byte>, registers: seq<word>)
    | UnknownRequest(address: byte, command: byte, messageBytes: seq<byte>)

  datatype Error = IndexError | InvalidRegisterCount | AttributeError | AssertionError

  /** The `count` big-endian register ids that follow the count byte. */
  function RegisterIds(m: seq<byte>, count: nat): (ids: seq<word>)
    requires 2 * count < |m|
    ensures |ids| == count
  {
    if count == 0 then []
    else RegisterIds(m, count - 1) + [Word(m[2 * count - 1], m[2 * count])]
  }

  function RegistersOf(m: seq<byte>): Result<seq<word>, Error> {
    if m == [] then Err(IndexError)
    else if |m[1..]| * 2 < m[0] then Err(InvalidRegisterCount)
    else if 2 * m[0] >= |m| then Err(IndexError)
    else Ok(RegisterIds(m, m[0]))
  }

  /** `_parse_register_bytes`: the length test is too weak, so the loop can still run off the list. */
  method ParseRegisterBytes(m: seq<byte>) returns (r: Result<seq<word>, Error>)
    ensures r == RegistersOf(m)
  {
    if m == [] {
      return Err(IndexError);
    }
    var registerCount := m[0];
    if |m[1..]| * 2 < registerCount {
      return Err(InvalidRegisterCount);
    }
    var registers: seq<word> := [];
    var count := 0;
    while count < registerCount
      invariant 0 <= count <= registerCount
      invariant 2 * count < |m| && registers == RegisterIds(m, count)
    {
      if 2 + count * 2 >= |m| {
        return Err(IndexError);
      }
      registers := registers + [Word(m[1 + count * 2], m[2 + count * 2])];
      count := count + 1;
    }
    return Ok(registers);
  }

  /** The bytes of a list of register ids, two per id. */
  function IdBytes(ids: seq<word>): (s: seq<byte>)
    ensures |s| == 2 * |ids|
  {
    if ids == [] then [] else IdBytes(ids[..|ids| - 1]) + [Hi(ids[|ids| - 1]), Lo(ids[|ids| - 1])]
  }

  lemma {:induction false} RegisterIdsOfIdBytes(ids: seq<word>, count: byte, tail: seq<byte>)
    ensures RegisterIds([count] + IdBytes(ids) + tail, |ids|) == ids
    decreases |ids|
  {
    if ids != [] {
      var n := |ids| - 1;
      var last := [Hi(ids[n]), Lo(ids[n])];
      assert [count] + IdBytes(ids) + tail == [count] + IdBytes(ids[..n]) + (last + tail);
      RegisterIdsOfIdBytes(ids[..n], count, last + tail);
      assert ids == ids[..n] + [ids[n]];
    }
  }

  /** A body followed by its checksum, high byte first. */
  function Checked(crc: Checksum, body: seq<byte>): seq<byte> {
    body + [Hi(crc(body)), Lo(crc(body))]
  }

  /** `valid_crc`: the last two bytes are the checksum of the others. */
  predicate ValidCrc(crc: Checksum, message: seq<byte>)
    requires |message| >= 2
  {
    var n := |message| - 2;
    Word(message[n], message[n + 1]) == crc(message[..n])
  }

  lemma CheckedIsValid(crc: Checksum, body: seq<byte>)
    ensures ValidCrc(crc, Checked(crc, body))
  {
    assert Checked(crc, body)[..|body|] == body;
  }

  datatype Register = Register(name: word, units: byte, length: byte, unknown: byte, databusKey: string)

  /** The databus at the moment a response is serialized; values may be negative. */
  type Databus = string -> int

  function RegisterRecord(r: Register, bus: Databus): (s: seq<byte>)
    ensures |s| == 5 + r.length
  {
    [Hi(r.name), Lo(r.name), r.units, r.length, r.unknown] + ToBigEndian(bus(r.databusKey), r.length)
  }

  function RegisterRecords(rs: seq<Register>, bus: Databus): seq<byte> {
    if rs == [] then [] else RegisterRecords(rs[..|rs| - 1], bus) + RegisterRecord(rs[|rs| - 1], bus)
  }

  function ResponseBody(crc: Checksum, address: byte, rs: seq<Register>, bus: Databus): seq<byte> {
    Checked(crc, [address, GET_REGISTERS] + RegisterRecords(rs, bus))
  }

  /** The frame that answers with registers `rs`. */
  function ResponseFrame(crc: Checksum, address: byte, rs: seq<Register>, bus: Databus): seq<byte> {
    FrameBytes(RESPONSE_MAGIC, ResponseBody(crc, address, rs, bus))
  }

  function CountedIds(ids: seq<word>): (s: seq<byte>)
    requires |ids| < 0x100
    ensures |s| == 1 + 2 * |ids|
  {
    var count: byte := |ids|;
    [count] + IdBytes(ids)
  }

  function RequestBody(crc: Checksum, address: byte, ids: seq<word>): seq<byte>
    requires |ids| < 0x100
  {
    Checked(crc, [address, GET_REGISTERS] + CountedIds(ids))
  }

  /** The frame that asks for registers `ids`. */
  function RequestFrame(crc: Checksum, address: byte, ids: seq<word>): seq<byte>
    requires |ids| < 0x100
  {
    FrameBytes(REQUEST_MAGIC, RequestBody(crc, address, ids))
  }

  function Interior(m: seq<byte>): seq<byte> {
    if |m| < 2 then [] else m[1..|m| - 1]
  }

  /** `KamstrupResponseBase.escape`: builds a new list, leaving the first and last byte alone. */
  method Escape(message: seq<byte>) returns (escaped: seq<byte>)
    requires message != []
    ensures escaped == [message[0]] + Stuff(Interior(message)) + [message[|message| - 1]]
  {
    escaped := [message[0]];
    var interior := Interior(message);
    for i := 0 to |interior|
      invariant escaped == [message[0]] + Stuff(interior[..i])
    {
      var c := interior[i];
      ghost var before: seq<byte> := escaped;
      if c in NEED_ESCAPE {
        escaped := escaped + [ESCAPE];
        escaped := escaped + [Flip(c)];
      } else {
        escaped := escaped + [c];
      }
      StuffConcat(interior[..i], [c]);
      assert interior[..i + 1] == interior[..i] + [c];
      assert Stuff([c]) == StuffByte(c) + Stuff([]);
      assert escaped == before + StuffByte(c);
    }
    assert interior[..|interior|] == interior;
    escaped := escaped + [message[|message| - 1]];
  }

  /** `KamstrupResponseBase.serialize` */
  method SerializeMessage(crc: Checksum, address: byte, message: seq<byte>) returns (raw: seq<byte>)
    ensures raw == FrameBytes(RESPONSE_MAGIC, Checked(crc, [address] + message))
  {
    var final: seq<byte> := [RESPONSE_MAGIC];
    final := final + [address];
    for i := 0 to |message|
      invariant final == [RESPONSE_MAGIC, address] + message[..i]
    {
      final := final + [message[i]];
    }
    assert final[1..] == [address] + message;
    var sum := crc(final[1..]);
    final := final + [Hi(sum)];
    final := final + [Lo(sum)];
    final := final + [EOT_MAGIC];
    assert Interior(final) == Checked(crc, [address] + message);
    raw := Escape(final);
  }

  function Reverse(s: seq<byte>): seq<byte> {
    if s == [] then [] else Reverse(s[1..]) + [s[0]]
  }

  /** Low bytes of `v`, least significant first. */
  function ToLittleEndian(v: int, n: nat): (s: seq<byte>)
    ensures |s| == n
    decreases n
  {
    if n == 0 then [] else [v % 0x100] + ToLittleEndian(v / 0x100, n - 1)
  }

  lemma {:induction false} ReversedLittleEndian(v: int, n: nat)
    ensures Reverse(ToLittleEndian(v, n)) == ToBigEndian(v, n)
    decreases n
  {
    if n > 0 {
      ReversedLittleEndian(v / 0x100, n - 1);
      assert ToLittleEndian(v, n)[1..] == ToLittleEndian(v / 0x100, n - 1);
    }
  }

  lemma {:induction false} ReverseSuffix(s: seq<byte>, i: nat)
    requires i < |s|
    ensures Reverse(s[i..]) == Reverse(s[i + 1..]) + [s[i]]
  {
    assert s[i..][1..] == s[i + 1..];
  }

  /** The shift-and-mask loop followed by the reversing loop of `KamstrupResponseRegister.serialize`. */
  method AppendValue(message: seq<byte>, value: int, length: nat) returns (extended: seq<byte>)
    ensures extended == message + ToBigEndian(value, length)
  {
    var packed: seq<byte> := [];
    var rest := value;
    for i := 0 to length
      invariant packed + ToLittleEndian(rest, length - i) == ToLittleEndian(value, length)
    {
      assert packed + [rest % 0x100] + ToLittleEndian(rest / 0x100, length - i - 1)
          == packed + ToLittleEndian(rest, length - i);
      packed := packed + [rest % 0x100];
      rest := rest / 0x100;
    }
    assert packed + [] == packed;
    extended := message;
    for i := |packed| downto 0
      invariant extended == message + Reverse(packed[i..])
    {
      ReverseSuffix(packed, i);
      extended := extended + [packed[i]];
    }
    assert packed[0..] == packed;
    ReversedLittleEndian(value, length);
  }

  /** `KamstrupResponseRegister` */
  class ResponseRegister {
    const crc: Checksum
    const communicationAddress: byte
    var registers: seq<Register>

    constructor (crc: Checksum, address: byte)
      ensures this.crc == crc && communicationAddress == address && registers == []
    {
      this.crc := crc;
      communicationAddress := address;
      registers := [];
    }

    method AddRegister(r: Register)
      modifies this
      ensures registers == old(registers) + [r]
    {
      registers := registers + [r];
    }

    method Serialize(bus: Databus) returns (raw: seq<byte>)
      ensures raw == ResponseFrame(crc, communicationAddress, registers, bus)
    {
      var message: seq<byte> := [GET_REGISTERS];
      for i := 0 to |registers|
        invariant message == [GET_REGISTERS] + RegisterRecords(registers[..i], bus)
      {
        var r := registers[i];
        ghost var before: seq<byte> := message;
        message := message + [Hi(r.name)];
        message := message + [Lo(r.name)];
        message := message + [r.units];
        message := message + [r.length];
        message := message + [r.unknown];
        message := AppendValue(message, bus(r.databusKey), r.length);
        assert message == before + RegisterRecord(r, bus);
        assert registers[..i + 1][..i] == registers[..i];
      }
      assert registers[..|registers|] == registers;
      raw := SerializeMessage(crc, communicationAddress, message);
      assert [communicationAddress] + message
          == [communicationAddress, GET_REGISTERS] + RegisterRecords(registers, bus);
    }
  }
}
