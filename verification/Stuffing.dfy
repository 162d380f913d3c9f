/** Byte stuffing of the Kamstrup meter protocol: constants, the stuffing itself, and the
    stream scanner that both the server's parser and the proxy's decoder implement. */
module Stuffing {
  import opened Bytes

  const REQUEST_MAGIC: byte := 0x80
  const RESPONSE_MAGIC: byte := 0x40
  const EOT_MAGIC: byte := 0x0d
  const ESCAPE: byte := 0x1b

  const NEED_ESCAPE: seq<byte> := [0x06, EOT_MAGIC, ESCAPE, RESPONSE_MAGIC, REQUEST_MAGIC]

  predicate NeedsEscape(b: byte) {
    b in NEED_ESCAPE
  }

  function StuffByte(b: byte): seq<byte> {
    if NeedsEscape(b) then [ESCAPE, Flip(b)] else [b]
  }

  function Stuff(m: seq<byte>): seq<byte> {
    if m == [] then [] else StuffByte(m[0]) + Stuff(m[1..])
  }

  /** Free of the two bytes a scanner reacts to. */
  predicate Plain(s: seq<byte>) {
    ESCAPE !in s && EOT_MAGIC !in s
  }

  lemma {:induction false} StuffConcat(a: seq<byte>, b: seq<byte>)
    ensures Stuff(a + b) == Stuff(a) + Stuff(b)
  {
    if a == [] {
      assert a + b == b;
    } else {
      assert (a + b)[1..] == a[1..] + b;
      StuffConcat(a[1..], b);
      assert Stuff(a + b) == StuffByte(a[0]) + Stuff(a[1..] + b);
    }
  }

  /** A stuffed message contains no reserved byte but ESCAPE: in particular no EOT and no magic. */
  lemma {:induction false} StuffedBytesAreClean(m: seq<byte>)
    ensures forall b :: b in Stuff(m) && NeedsEscape(b) ==> b == ESCAPE
  {
    if m != [] {
      StuffedBytesAreClean(m[1..]);
    }
  }

  /** What a scan of some input leaves behind. */
  datatype ScanResult =
    | Pending(data: seq<byte>, escaped: bool)
    | Complete(data: seq<byte>, rest: seq<byte>)

  /** Reference scanner: collect unescaped bytes until the first unescaped EOT. */
  function Scan(data: seq<byte>, escaped: bool, input: seq<byte>): ScanResult
    decreases |input|
  {
    if input == [] then Pending(data, escaped)
    else if escaped then Scan(data + [Flip(input[0])], false, input[1..])
    else if input[0] == ESCAPE then Scan(data, true, input[1..])
    else if input[0] == EOT_MAGIC then Complete(data, input[1..])
    else Scan(data + [input[0]], false, input[1..])
  }

  /** Scanning a concatenation is scanning the first part, then the second from where it stopped. */
  lemma {:induction false} ScanConcat(data: seq<byte>, escaped: bool, a: seq<byte>, b: seq<byte>)
    ensures Scan(data, escaped, a + b) ==
            match Scan(data, escaped, a)
            case Pending(d, e) => Scan(d, e, b)
            case Complete(f, r) => Complete(f, r + b)
    decreases |a|
  {
    if a == [] {
      assert a + b == b;
    } else {
      assert (a + b)[1..] == a[1..] + b;
      if escaped {
        ScanConcat(data + [Flip(a[0])], false, a[1..], b);
      } else if a[0] == ESCAPE {
        ScanConcat(data, true, a[1..], b);
      } else if a[0] != EOT_MAGIC {
        ScanConcat(data + [a[0]], false, a[1..], b);
      }
    }
  }

  /** The scanner undoes stuffing. */
  lemma {:induction false} ScanStuffed(data: seq<byte>, m: seq<byte>)
    ensures Scan(data, false, Stuff(m)) == Pending(data + m, false)
    decreases |m|
  {
    if m == [] {
      assert data + m == data;
    } else {
      var head := StuffByte(m[0]);
      ScanConcat(data, false, head, Stuff(m[1..]));
      assert Scan(data, false, head) == Pending(data + [m[0]], false) by {
        if NeedsEscape(m[0]) {
          var flipped := [Flip(m[0])];
          assert head[1..] == flipped && flipped[1..] == [];
          assert Scan(data, true, flipped) == Scan(data + [m[0]], false, []);
        } else {
          assert head[1..] == [];
        }
      }
      ScanStuffed(data + [m[0]], m[1..]);
      assert data + [m[0]] + m[1..] == data + m;
    }
  }

  lemma {:induction false} ScanPlain(data: seq<byte>, s: seq<byte>)
    requires Plain(s)
    ensures Scan(data, false, s) == Pending(data + s, false)
    decreases |s|
  {
    if s == [] {
      assert data + s == data;
    } else {
      assert s[0] in s && forall b :: b in s[1..] ==> b in s;
      ScanPlain(data + [s[0]], s[1..]);
      assert data + [s[0]] + s[1..] == data + s;
    }
  }

  /** A whole frame: magic, stuffed body, EOT. */
  function FrameBytes(magic: byte, body: seq<byte>): seq<byte> {
    [magic] + Stuff(body) + [EOT_MAGIC]
  }

  /** The first unescaped EOT of a frame is its last byte, whatever follows the frame. */
  lemma ScanFrame(magic: byte, body: seq<byte>, rest: seq<byte>)
    requires magic == REQUEST_MAGIC || magic == RESPONSE_MAGIC
    ensures Scan([], false, FrameBytes(magic, body) + rest) == Complete([magic] + body, rest)
  {
    var tail := [EOT_MAGIC] + rest;
    assert FrameBytes(magic, body) + rest == ([magic] + Stuff(body)) + tail;
    ScanConcat([], false, [magic] + Stuff(body), tail);
    ScanConcat([], false, [magic], Stuff(body));
    ScanPlain([], [magic]);
    assert [] + [magic] == [magic];
    ScanStuffed([magic], body);
    assert tail[1..] == rest;
  }

  lemma ScanFrameAlone(magic: byte, body: seq<byte>)
    requires magic == REQUEST_MAGIC || magic == RESPONSE_MAGIC
    ensures Scan([], false, FrameBytes(magic, body)) == Complete([magic] + body, [])
  {
    assert FrameBytes(magic, body) + [] == FrameBytes(magic, body);
    ScanFrame(magic, body, []);
  }
}
