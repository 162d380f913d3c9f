/** The client that clones a meter (bin/kamstrup_prober.py). */
module KamstrupProber {
  import opened Bytes
  import opened Stuffing
  import opened KamstrupMessages

  /** The escape loop of `get_register`: xors a byte, then inserts an ESCAPE before it. */
  method InsertEscapes(original: seq<byte>) returns (message: seq<byte>)
    requires original != []
    ensures message == [original[0]] + Stuff(original[1..])
  {
    message := original;
    var messageLength := |message|;
    var y := 1;
    assert Stuff(original[1..1]) == [];
    hide Stuff;
    ghost var k := 1;
    ghost var done: seq<byte> := [original[0]];
    while y < messageLength
      invariant messageLength == |message| && y == |done|
      invariant 1 <= k <= |original| && done == [original[0]] + Stuff(original[1..k])
      invariant message == done + original[k..]
      decreases |original| - k
    {
      StuffSnoc(original, k);
      ghost var c: byte, after: seq<byte> := original[k], original[k + 1..];
      NextByte(done, original, k);
      if message[y] in NEED_ESCAPE {
        message := message[y := Flip(message[y])];
        message := InsertAt(message, y, ESCAPE, done, after);
        y := y + 1;
        messageLength := messageLength + 1;
      }
      assert message == done + StuffByte(c) + after;
      done := done + StuffByte(c);
      y := y + 1;
      k := k + 1;
    }
    assert original[k..] == [] && original[1..k] == original[1..];
  }

  lemma NextByte(done: seq<byte>, s: seq<byte>, k: nat)
    requires k < |s|
    ensures done + s[k..] == done + [s[k]] + s[k + 1..]
  {
    assert s[k..] == [s[k]] + s[k + 1..];
  }

  /** `message.insert(y, b)` between `before` and the byte already at `y`. */
  method InsertAt(message: seq<byte>, y: nat, b: byte, ghost before: seq<byte>, ghost after: seq<byte>)
    returns (longer: seq<byte>)
    requires y == |before| < |message| && message == before + [message[y]] + after
    ensures longer == before + [b, message[y]] + after
  {
    longer := message[..y] + [b] + message[y..];
  }

  lemma StuffSnoc(m: seq<byte>, k: nat)
    requires 1 <= k < |m|
    ensures Stuff(m[1..k + 1]) == Stuff(m[1..k]) + StuffByte(m[k])
  {
    assert m[1..k + 1] == m[1..k] + [m[k]];
    StuffConcat(m[1..k], [m[k]]);
    assert Stuff([m[k]]) == StuffByte(m[k]) + Stuff([]);
  }

  /** What the unescape loop leaves; a trailing ESCAPE runs off the end. */
  function Unescape(s: seq<byte>): Option<seq<byte>>
    decreases |s|
  {
    if s == [] then Some([])
    else if s[0] == ESCAPE then
      if |s| == 1 then None else Prefixed([Flip(s[1])], Unescape(s[2..]))
    else Prefixed([s[0]], Unescape(s[1..]))
  }

  function Prefixed(head: seq<byte>, tail: Option<seq<byte>>): Option<seq<byte>> {
    if tail.Some? then Some(head + tail.value) else None
  }

  lemma PrefixedTwice(a: seq<byte>, b: seq<byte>, t: Option<seq<byte>>)
    ensures Prefixed(a, Prefixed(b, t)) == Prefixed(a + b, t)
  {
    if t.Some? {
      assert a + (b + t.value) == a + b + t.value;
    }
  }

  /** The unescape loop of `get_register`: deletes an ESCAPE, then xors the byte that takes its place. */
  method RemoveEscapes(original: seq<byte>) returns (r: Option<seq<byte>>)
    ensures r == Unescape(original)
  {
    var received: seq<byte> := original;
    var dataLength := |received|;
    var p := 0;
    assert received[..0] == [] && received[0..] == original;
    assert Prefixed([], Unescape(original)) == Unescape(original) by {
      if Unescape(original).Some? {
        assert [] + Unescape(original).value == Unescape(original).value;
      }
    }
    while p < dataLength
      invariant 0 <= p <= dataLength == |received|
      invariant Prefixed(received[..p], Unescape(received[p..])) == Unescape(original)
      decreases dataLength - p
    {
      ghost var done: seq<byte>, left: seq<byte> := received[..p], received[p..];
      if received[p] == ESCAPE {
        received := received[..p] + received[p + 1..];
        if p >= |received| {
          assert left == [ESCAPE];
          return None;
        }
        received := received[p := Flip(received[p])];
        dataLength := dataLength - 1;
        assert received[p + 1..] == left[2..];
      } else {
        assert received[p + 1..] == left[1..];
      }
      p := p + 1;
      assert received[..p] == done + [received[p - 1]];
      PrefixedTwice(done, [received[p - 1]], Unescape(received[p..]));
    }
    assert received[p..] == [] && received[..p] == received;
    assert received + [] == received;
    r := Some(received);
  }

  lemma {:induction false} UnescapeStuffed(m: seq<byte>, tail: seq<byte>)
    ensures Unescape(Stuff(m) + tail) == Prefixed(m, Unescape(tail))
    decreases |m|
  {
    var input := Stuff(m) + tail;
    if m == [] {
      assert input == tail;
      if Unescape(tail).Some? {
        assert m + Unescape(tail).value == Unescape(tail).value;
      }
    } else {
      UnescapeStuffed(m[1..], tail);
      PrefixedTwice([m[0]], m[1..], Unescape(tail));
      assert [m[0]] + m[1..] == m;
      assert input[|StuffByte(m[0])|..] == Stuff(m[1..]) + tail;
    }
  }

  /** The delete-and-xor loop undoes the insert loop on every message that begins with a magic byte. */
  lemma EscapingRoundTrip(message: seq<byte>)
    requires message != [] && message[0] != ESCAPE
    ensures Unescape([message[0]] + Stuff(message[1..])) == Some(message)
  {
    var escaped := [message[0]] + Stuff(message[1..]);
    assert escaped[1..] == Stuff(message[1..]) + [];
    UnescapeStuffed(message[1..], []);
    assert message[1..] + [] == message[1..];
    assert [message[0]] + message[1..] == message;
  }

  lemma UnescapeFrame(magic: byte, body: seq<byte>)
    requires magic != ESCAPE
    ensures Unescape(FrameBytes(magic, body)) == Some([magic] + body + [EOT_MAGIC])
  {
    var raw := FrameBytes(magic, body);
    assert raw[1..] == Stuff(body) + [EOT_MAGIC];
    UnescapeStuffed(body, [EOT_MAGIC]);
    assert [EOT_MAGIC][1..] == [];
    assert Unescape([EOT_MAGIC]) == Some([EOT_MAGIC]) by {
      assert [EOT_MAGIC] + [] == [EOT_MAGIC];
    }
    assert [magic] + (body + [EOT_MAGIC]) == [magic] + body + [EOT_MAGIC];
  }

  lemma IdBytesOfOne(register: word)
    ensures CountedIds([register]) == [1, Hi(register), Lo(register)]
  {
    assert IdBytes([register]) == IdBytes([]) + [Hi(register), Lo(register)];
  }

  /** The bytes `get_register` sends. */
  method BuildRequest(crc: Checksum, commAddress: byte, register: word) returns (message: seq<byte>)
    ensures message == RequestFrame(crc, commAddress, [register])
  {
    message := [REQUEST_MAGIC, commAddress, 0x10, 0x01, Hi(register), Lo(register)];
    IdBytesOfOne(register);
    assert message[1..] == [commAddress, GET_REGISTERS] + CountedIds([register]);
    var sum := crc(message[1..]);
    message := message + [Hi(sum)];
    message := message + [Lo(sum)];
    assert message[1..] == RequestBody(crc, commAddress, [register]);
    message := InsertEscapes(message);
    message := message + [EOT_MAGIC];
  }

  datatype Reply = Found(units: byte, length: byte, unknown: byte, value: nat) | NotFound | OutOfRange

  /** What the main loop makes of the bytes `get_register` returns. */
  function ReadReply(result: seq<byte>): Reply {
    if |result| <= 12 then NotFound
    else if 8 + result[6] > |result| then OutOfRange
    else Found(result[5], result[6], result[7], FromBigEndian(result[8..8 + result[6]]))
  }

  method InterpretReply(result: seq<byte>) returns (r: Reply)
    ensures r == ReadReply(result)
  {
    if |result| > 12 {
      var units := result[5];
      var length := result[6];
      var unknown := result[7];
      if 8 + length > |result| {
        return OutOfRange;
      }
      var registerValue := SumShifted(result, 8, length);
      r := Found(units, length, unknown, registerValue);
    } else {
      r := NotFound;
    }
  }
}
