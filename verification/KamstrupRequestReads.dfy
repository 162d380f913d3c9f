/** What `get_request` makes of well-formed requests: alone, pipelined, and cut into several reads. */
module KamstrupRequestReads {
  import opened Bytes
  import opened Stuffing
  import opened KamstrupMessages
  import opened KamstrupRequestParser

  /** `bytes[3:-3]` of a buffer starting with a request: the count byte, the ids, and then
      anything from the end of this frame or from the frames behind it. */
  lemma MiddleOfRequest(header: seq<byte>, counted: seq<byte>, tail: seq<byte>)
    requires |header| == 3 <= |tail|
    ensures Middle(header + counted + tail) == counted + tail[..|tail| - 3]
  {
  }

  lemma RegistersOfCounted(ids: seq<word>, tail: seq<byte>)
    requires |ids| < 0x100
    ensures RegistersOf(CountedIds(ids) + tail) == Ok(ids)
  {
    RegisterIdsOfIdBytes(ids, |ids|, tail);
  }

  /** What follows the ids in the buffer: checksum, EOT, and everything behind the frame. */
  function AfterIds(crc: Checksum, address: byte, ids: seq<word>, rest: seq<byte>): (s: seq<byte>)
    requires |ids| < 0x100
    ensures |s| == 3 + |rest|
  {
    var sum := crc([address, GET_REGISTERS] + CountedIds(ids));
    [Hi(sum), Lo(sum), EOT_MAGIC] + rest
  }

  lemma BufferLayout(crc: Checksum, address: byte, ids: seq<word>, rest: seq<byte>)
    requires |ids| < 0x100
    ensures [REQUEST_MAGIC] + RequestBody(crc, address, ids) + [EOT_MAGIC] + rest ==
            [REQUEST_MAGIC, address, GET_REGISTERS] + CountedIds(ids) + AfterIds(crc, address, ids, rest)
  {
    var sum := crc([address, GET_REGISTERS] + CountedIds(ids));
    Layout(address, CountedIds(ids), Hi(sum), Lo(sum), rest);
  }

  lemma Layout(address: byte, t: seq<byte>, hi: byte, lo: byte, rest: seq<byte>)
    ensures [REQUEST_MAGIC] + ([address, GET_REGISTERS] + t + [hi, lo]) + [EOT_MAGIC] + rest ==
            [REQUEST_MAGIC, address, GET_REGISTERS] + t + ([hi, lo, EOT_MAGIC] + rest)
  {
    var core := [address, GET_REGISTERS] + t;
    Regroup([REQUEST_MAGIC], core, [hi, lo], [EOT_MAGIC], rest);
    assert [REQUEST_MAGIC] + core == [REQUEST_MAGIC, address, GET_REGISTERS] + t;
    assert [hi, lo] + [EOT_MAGIC] == [hi, lo, EOT_MAGIC];
  }

  lemma Regroup(a: seq<byte>, b: seq<byte>, c: seq<byte>, d: seq<byte>, e: seq<byte>)
    ensures a + (b + c) + d + e == (a + b) + (c + d + e)
  {
  }

  /** The request built from a request frame that `rest` follows in the buffer. */
  lemma FinishRequest(crc: Checksum, address: byte, ids: seq<word>, rest: seq<byte>)
    requires |ids| < 0x100
    ensures var frame := [REQUEST_MAGIC] + RequestBody(crc, address, ids);
      Finish(crc, frame, rest) ==
      (Parsed(GetRegisters(address, Middle(frame + [EOT_MAGIC] + rest), ids)), ParserState(rest, true, false))
  {
    var body := RequestBody(crc, address, ids);
    var frame := [REQUEST_MAGIC] + body;
    var bytes := frame + [EOT_MAGIC] + rest;
    assert frame[1..] == body;
    CheckedIsValid(crc, [address, GET_REGISTERS] + CountedIds(ids));
    var tail := AfterIds(crc, address, ids, rest);
    BufferLayout(crc, address, ids, rest);
    MiddleOfRequest([REQUEST_MAGIC, address, GET_REGISTERS], CountedIds(ids), tail);
    RegistersOfCounted(ids, tail[..|tail| - 3]);
    assert bytes[1] == address && bytes[2] == GET_REGISTERS;
    assert bytes[|frame| + 1..] == rest;
  }

  /** Alone in the buffer, a request is recorded with exactly its count byte and ids. */
  lemma MessageBytesAlone(crc: Checksum, address: byte, ids: seq<word>)
    requires |ids| < 0x100
    ensures Middle([REQUEST_MAGIC] + RequestBody(crc, address, ids) + [EOT_MAGIC] + []) == CountedIds(ids)
  {
    BufferLayout(crc, address, ids, []);
    var tail := AfterIds(crc, address, ids, []);
    MiddleOfRequest([REQUEST_MAGIC, address, GET_REGISTERS], CountedIds(ids), tail);
    assert CountedIds(ids) + tail[..0] == CountedIds(ids);
  }

  /** A request frame at the head of the buffer is parsed whole, whatever follows it. */
  lemma CallOnFrame(crc: Checksum, st: ParserState, address: byte, ids: seq<word>, rest: seq<byte>)
    requires |ids| < 0x100 && !st.escaped
    requires st.bytes == RequestFrame(crc, address, ids) + rest
    ensures var (r, after) := Call(crc, st);
      && r.Parsed? && r.request.GetRegisters?
      && r.request.address == address && r.request.registers == ids
      && (rest == [] ==> r.request.messageBytes == CountedIds(ids))
      && after == ParserState(rest, true, false)
  {
    ScanFrame(REQUEST_MAGIC, RequestBody(crc, address, ids), rest);
    assert Unread(st.parsing, st.bytes) == st.bytes;
    FinishRequest(crc, address, ids, rest);
    MessageBytesAlone(crc, address, ids);
  }

  // ----- pipelining

  datatype Query = Query(address: byte, ids: seq<word>)

  ghost predicate ValidQueries(qs: seq<Query>) {
    forall i :: 0 <= i < |qs| ==> |qs[i].ids| < 0x100
  }

  function Stream(crc: Checksum, qs: seq<Query>): seq<byte>
    requires ValidQueries(qs)
  {
    if qs == [] then [] else RequestFrame(crc, qs[0].address, qs[0].ids) + Stream(crc, qs[1..])
  }

  /** `n` calls of `get_request` in a row. */
  function Calls(crc: Checksum, st: ParserState, n: nat): (r: (seq<Outcome>, ParserState))
    ensures |r.0| == n
    decreases n
  {
    if n == 0 then ([], st)
    else
      var (first, next) := Call(crc, st);
      var (others, last) := Calls(crc, next, n - 1);
      ([first] + others, last)
  }

  predicate Answers(r: Outcome, q: Query) {
    r.Parsed? && r.request.GetRegisters? && r.request.address == q.address && r.request.registers == q.ids
  }

  /** n requests in the buffer are read by n calls, in order; the next call finds nothing. */
  lemma {:induction false} Pipelining(crc: Checksum, st: ParserState, qs: seq<Query>)
    requires ValidQueries(qs) && !st.escaped && st.bytes == Stream(crc, qs)
    ensures var (rs, last) := Calls(crc, st, |qs| + 1);
      && (forall i :: 0 <= i < |qs| ==> Answers(rs[i], qs[i]))
      && rs[|qs|] == NoRequest
      && last == ParserState([], st.parsing || qs != [], false)
    decreases |qs|
  {
    var (first, next) := Call(crc, st);
    if qs == [] {
      NothingToRead(crc, st);
    } else {
      CallOnFrame(crc, st, qs[0].address, qs[0].ids, Stream(crc, qs[1..]));
      Pipelining(crc, next, qs[1..]);
      PrependAnswer(first, Calls(crc, next, |qs|).0, qs);
    }
  }

  lemma NothingToRead(crc: Checksum, st: ParserState)
    requires Idle(st)
    ensures Call(crc, st) == (NoRequest, st)
    ensures Calls(crc, st, 1) == ([NoRequest], st)
  {
    assert Calls(crc, st, 0) == ([], st);
    assert [Call(crc, st).0] + [] == [NoRequest];
  }

  lemma PrependAnswer(first: Outcome, others: seq<Outcome>, qs: seq<Query>)
    requires qs != [] && |others| == |qs| && Answers(first, qs[0])
    requires forall i :: 0 <= i < |qs| - 1 ==> Answers(others[i], qs[1..][i])
    ensures forall i :: 0 <= i < |qs| ==> Answers(([first] + others)[i], qs[i])
  {
    forall i | 0 < i < |qs| ensures Answers(([first] + others)[i], qs[i]) {
      assert qs[i] == qs[1..][i - 1];
    }
  }

  // ----- several reads

  function Flatten(chunks: seq<seq<byte>>): seq<byte> {
    if chunks == [] then [] else chunks[0] + Flatten(chunks[1..])
  }

  lemma {:induction false} FlattenSnoc(chunks: seq<seq<byte>>, last: seq<byte>)
    ensures Flatten(chunks + [last]) == Flatten(chunks) + last
    decreases |chunks|
  {
    if chunks == [] {
      assert [last][1..] == [] && Flatten([last]) == last + Flatten([]);
    } else {
      assert (chunks + [last])[1..] == chunks[1..] + [last];
      FlattenSnoc(chunks[1..], last);
      assert chunks[0] + (Flatten(chunks[1..]) + last) == chunks[0] + Flatten(chunks[1..]) + last;
    }
  }

  /** One `get_request` call after each read. */
  function Feed(crc: Checksum, st: ParserState, chunks: seq<seq<byte>>): (r: (seq<Outcome>, ParserState))
    ensures |r.0| == |chunks|
    decreases |chunks|
  {
    if chunks == [] then ([], st)
    else
      var (rs, mid) := Feed(crc, st, chunks[..|chunks| - 1]);
      var (r, last) := Call(crc, mid.(bytes := mid.bytes + chunks[|chunks| - 1]));
      (rs + [r], last)
  }

  /** The part of a frame received so far can be rescanned: once unescaped it holds neither
      ESCAPE nor EOT, and it does not end between an ESCAPE and its byte. */
  predicate SafeCut(received: seq<byte>) {
    match Scan([], false, received)
    case Pending(d, e) => !e && Plain(d)
    case Complete(_, _) => false
  }

  /** Every read but the last ends at a safe cut. */
  ghost predicate SafeReads(chunks: seq<seq<byte>>) {
    forall k :: 0 <= k < |chunks| ==> SafeCut(Flatten(chunks[..k]))
  }

  /** The parser holds the unescaped form of what was received of a frame, and nothing else. */
  predicate Waits(st: ParserState, received: seq<byte>) {
    && !st.escaped && Plain(st.bytes) && Scan([], false, received) == ScanResult.Pending(st.bytes, false)
    && (st.bytes == [] || (st.parsing && st.bytes[0] == REQUEST_MAGIC))
  }

  /** A safe prefix waits in the buffer, and rescanning it together with more input is the same as
      scanning on. */
  lemma Rescan(received: seq<byte>, data: seq<byte>, more: seq<byte>)
    requires Plain(data) && Scan([], false, received) == Pending(data, false)
    ensures Scan([], false, data + more) == Scan([], false, received + more)
  {
    ScanPlain([], data);
    assert [] + data == data;
    ScanConcat([], false, data, more);
    ScanConcat([], false, received, more);
  }

  /** One more read of a frame, onto a safe prefix of it. */
  lemma OneMoreRead(crc: Checksum, st: ParserState, received: seq<byte>, chunk: seq<byte>, body: seq<byte>)
    requires received + chunk <= FrameBytes(REQUEST_MAGIC, body) && Waits(st, received)
    ensures var (r, next) := Call(crc, st.(bytes := st.bytes + chunk));
      && (received + chunk == FrameBytes(REQUEST_MAGIC, body) ==> (r, next) == Finish(crc, [REQUEST_MAGIC] + body, []))
      && (SafeCut(received + chunk) ==> r == NoRequest && Waits(next, received + chunk))
  {
    var whole, now := FrameBytes(REQUEST_MAGIC, body), received + chunk;
    Rescan(received, st.bytes, chunk);
    FirstByte(received, st.bytes, chunk, whole);
    assert Unread(st.parsing, st.bytes + chunk) == st.bytes + chunk;
    if SafeCut(now) {
      FirstByte(now, Scan([], false, now).data, [], whole);
    }
    ScanFrameAlone(REQUEST_MAGIC, body);
  }

  /** Before the last byte of a frame, cut at safe cuts only, every call returns nothing and keeps what
      was received. */
  lemma {:induction false} SafeReadsWait(crc: Checksum, st: ParserState, chunks: seq<seq<byte>>, body: seq<byte>)
    requires Idle(st) && Flatten(chunks) <= FrameBytes(REQUEST_MAGIC, body)
    requires forall k :: 0 <= k <= |chunks| ==> SafeCut(Flatten(chunks[..k]))
    ensures var (rs, last) := Feed(crc, st, chunks);
      (forall i :: 0 <= i < |chunks| ==> rs[i] == NoRequest) && Waits(last, Flatten(chunks))
    decreases |chunks|
  {
    if chunks != [] {
      var n := |chunks| - 1;
      var init := chunks[..n];
      FlattenInit(chunks);
      forall k | 0 <= k <= n ensures SafeCut(Flatten(init[..k])) {
        assert init[..k] == chunks[..k];
      }
      SafeReadsWait(crc, st, init, body);
      OneMoreRead(crc, Feed(crc, st, init).1, Flatten(init), chunks[n], body);
      assert chunks[..n + 1] == chunks;
    }
  }

  lemma ScanKeepsFirst(data: seq<byte>, escaped: bool, input: seq<byte>)
    ensures data <= Scan(data, escaped, input).data
    decreases |input|
  {
  }

  /** What is buffered of a frame starts with the magic byte. */
  lemma FirstByte(received: seq<byte>, data: seq<byte>, more: seq<byte>, whole: seq<byte>)
    requires received + more <= whole && whole != [] && whole[0] == REQUEST_MAGIC
    requires Scan([], false, received) == Pending(data, false)
    ensures received != [] ==> data != [] && data[0] == REQUEST_MAGIC
    ensures data + more != [] ==> (data + more)[0] == REQUEST_MAGIC
  {
    if received != [] {
      assert received[0] == (received + more)[0] == REQUEST_MAGIC;
      ScanKeepsFirst([REQUEST_MAGIC], false, received[1..]);
      assert [] + [received[0]] == [REQUEST_MAGIC];
    } else if more != [] {
      assert (received + more)[0] == more[0];
    }
  }

  /** A frame cut into reads at safe cuts only: every call before the last returns nothing and keeps what
      was received, and the last does what one call on the whole frame does. */
  lemma SafeReadsFinish(crc: Checksum, st: ParserState, chunks: seq<seq<byte>>, body: seq<byte>)
    requires Idle(st) && chunks != [] && Flatten(chunks) == FrameBytes(REQUEST_MAGIC, body) && SafeReads(chunks)
    ensures var (rs, last) := Feed(crc, st, chunks);
      && (forall i :: 0 <= i < |chunks| - 1 ==> rs[i] == NoRequest)
      && (rs[|chunks| - 1], last) == Finish(crc, [REQUEST_MAGIC] + body, [])
    ensures Waits(Feed(crc, st, chunks[..|chunks| - 1]).1, Flatten(chunks[..|chunks| - 1]))
  {
    var n := |chunks| - 1;
    var init := chunks[..n];
    FlattenInit(chunks);
    SafeReadsInit(chunks);
    SafeReadsWait(crc, st, init, body);
    var (rs, mid) := Feed(crc, st, init);
    OneMoreRead(crc, mid, Flatten(init), chunks[n], body);
    var (r, last) := Call(crc, mid.(bytes := mid.bytes + chunks[n]));
    assert Feed(crc, st, chunks) == (rs + [r], last);
  }

  lemma FlattenInit(chunks: seq<seq<byte>>)
    requires chunks != []
    ensures Flatten(chunks) == Flatten(chunks[..|chunks| - 1]) + chunks[|chunks| - 1]
  {
    FlattenSnoc(chunks[..|chunks| - 1], chunks[|chunks| - 1]);
    assert chunks == chunks[..|chunks| - 1] + [chunks[|chunks| - 1]];
  }

  lemma SafeReadsInit(chunks: seq<seq<byte>>)
    requires chunks != [] && SafeReads(chunks)
    ensures var init := chunks[..|chunks| - 1];
      forall k :: 0 <= k <= |init| ==> SafeCut(Flatten(init[..k]))
  {
    var init := chunks[..|chunks| - 1];
    forall k | 0 <= k <= |init| ensures SafeCut(Flatten(init[..k])) {
      assert init[..k] == chunks[..k];
    }
  }

  /** The same for a request, from a parser between requests. */
  lemma ChunkIndependence(crc: Checksum, st: ParserState, chunks: seq<seq<byte>>, address: byte, ids: seq<word>)
    requires |ids| < 0x100 && Idle(st)
    requires chunks != [] && Flatten(chunks) == RequestFrame(crc, address, ids) && SafeReads(chunks)
    ensures var (rs, last) := Feed(crc, st, chunks);
      && (forall i :: 0 <= i < |chunks| - 1 ==> rs[i] == NoRequest)
      && rs[|chunks| - 1] == Parsed(GetRegisters(address, CountedIds(ids), ids))
      && last == ParserState([], true, false)
  {
    SafeReadsFinish(crc, st, chunks, RequestBody(crc, address, ids));
    FinishAlone(crc, address, ids);
  }

  lemma FinishAlone(crc: Checksum, address: byte, ids: seq<word>)
    requires |ids| < 0x100
    ensures Finish(crc, [REQUEST_MAGIC] + RequestBody(crc, address, ids), []) ==
            (Parsed(GetRegisters(address, CountedIds(ids), ids)), ParserState([], true, false))
  {
    FinishRequest(crc, address, ids, []);
    MessageBytesAlone(crc, address, ids);
  }

  lemma {:induction false} FlattenPrefix(chunks: seq<seq<byte>>, k: nat)
    requires k < |chunks| && chunks[|chunks| - 1] != []
    ensures Flatten(chunks[..k]) <= Flatten(chunks) && |Flatten(chunks[..k])| < |Flatten(chunks)|
    decreases |chunks| - k
  {
    assert chunks[..k + 1] == chunks[..k] + [chunks[k]];
    FlattenSnoc(chunks[..k], chunks[k]);
    if k + 1 < |chunks| {
      FlattenPrefix(chunks, k + 1);
    } else {
      assert chunks[..k + 1] == chunks;
    }
  }

  lemma PlainIsSafe(received: seq<byte>)
    requires Plain(received)
    ensures SafeCut(received) && Scan([], false, received) == ScanResult.Pending(received, false)
  {
    ScanPlain([], received);
    assert [] + received == received;
  }

  lemma PrefixIsPlain(body: seq<byte>, received: seq<byte>)
    requires ESCAPE !in FrameBytes(REQUEST_MAGIC, body)
    requires received <= FrameBytes(REQUEST_MAGIC, body) && |received| < |FrameBytes(REQUEST_MAGIC, body)|
    ensures Plain(received)
  {
    var raw := FrameBytes(REQUEST_MAGIC, body);
    StuffedBytesAreClean(body);
    forall i | 0 <= i < |received| ensures received[i] != ESCAPE && received[i] != EOT_MAGIC {
      assert received[i] == raw[i] && raw[i] in raw;
      if i > 0 {
        assert raw[i] == Stuff(body)[i - 1] && Stuff(body)[i - 1] in Stuff(body);
      }
    }
  }

  /** A request in which nothing had to be escaped may be cut anywhere, and until its last byte arrives
      the buffer holds exactly the bytes received. */
  lemma UnescapedRequestCutsAnywhere(crc: Checksum, st: ParserState, chunks: seq<seq<byte>>, address: byte,
                                     ids: seq<word>, k: nat)
    requires |ids| < 0x100 && Idle(st) && ESCAPE !in RequestFrame(crc, address, ids)
    requires chunks != [] && chunks[|chunks| - 1] != [] && Flatten(chunks) == RequestFrame(crc, address, ids)
    requires k < |chunks|
    ensures SafeReads(chunks)
    ensures Feed(crc, st, chunks[..k]).1.bytes == Flatten(chunks[..k])
  {
    var body := RequestBody(crc, address, ids);
    forall i | 0 <= i < |chunks| ensures SafeCut(Flatten(chunks[..i])) {
      FlattenPrefix(chunks, i);
      PrefixIsPlain(body, Flatten(chunks[..i]));
      PlainIsSafe(Flatten(chunks[..i]));
    }
    FlattenPrefix(chunks, k);
    PrefixIsPlain(body, Flatten(chunks[..k]));
    PlainIsSafe(Flatten(chunks[..k]));
    assert forall i :: 0 <= i <= k ==> chunks[..k][..i] == chunks[..i];
    SafeReadsWait(crc, st, chunks[..k], body);
  }
}
