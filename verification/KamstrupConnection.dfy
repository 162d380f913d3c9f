/** A whole connection: any number of requests, for this meter or others, arriving in any number of reads
    (meter_protocol/kamstrup_server.py). */
module KamstrupConnection {
  import opened Bytes
  import opened Common
  import opened Stuffing
  import opened KamstrupMessages
  import opened KamstrupRequestParser
  import opened KamstrupRequestReads
  import opened KamstrupServer

  /** What has been received since the last complete frame. */
  function Tail(received: seq<byte>): seq<byte>
    decreases |received|
  {
    ScanShrinks([], false, received);
    match Scan([], false, received)
    case Complete(_, rest) => Tail(rest)
    case Pending(_, _) => received
  }

  /** Every read brings something and ends at a cut that is safe within the frame it falls into. */
  predicate SafeStream(before: seq<byte>, chunks: seq<seq<byte>>)
    decreases |chunks|
  {
    chunks == []
    || (chunks[0] != [] && SafeCut(Tail(before + chunks[0])) && SafeStream(before + chunks[0], chunks[1..]))
  }

  lemma {:induction false} TailOfStream(crc: Checksum, qs: seq<Query>, more: seq<byte>)
    requires ValidQueries(qs)
    ensures Tail(Stream(crc, qs) + more) == Tail(more)
    decreases |qs|
  {
    if qs == [] {
      assert Stream(crc, qs) + more == more;
    } else {
      var frame, others := RequestFrame(crc, qs[0].address, qs[0].ids), Stream(crc, qs[1..]);
      Assoc(frame, others, more);
      ScanFrame(REQUEST_MAGIC, RequestBody(crc, qs[0].address, qs[0].ids), others + more);
      TailOfStream(crc, qs[1..], more);
    }
  }

  lemma EmptyStream(crc: Checksum)
    ensures Stream(crc, []) == []
  {
  }

  lemma StreamFirst(crc: Checksum, qs: seq<Query>)
    requires ValidQueries(qs) && qs != []
    ensures Stream(crc, qs) != [] && Stream(crc, qs)[0] == REQUEST_MAGIC
  {
  }

  /** The parser has left to do what `left`, the raw bytes not yet answered, says: either it holds them as
      they came, or it holds the unescaped part of one frame. */
  predicate Stands(st: ParserState, left: seq<byte>) {
    && !st.escaped && (st.parsing || st.bytes == [] == left)
    && (st.bytes == left || (Plain(st.bytes) && Scan([], false, left) == ScanResult.Pending(st.bytes, false)))
  }

  /** More bytes are scanned as if nothing had been unescaped. */
  lemma Resume(st: ParserState, left: seq<byte>, chunk: seq<byte>)
    requires Stands(st, left) && chunk != [] && (left + chunk)[0] == REQUEST_MAGIC
    ensures Scan([], false, st.bytes + chunk) == Scan([], false, left + chunk)
    ensures Unread(st.parsing, st.bytes + chunk) == st.bytes + chunk
  {
    if st.bytes != left {
      Rescan(left, st.bytes, chunk);
    }
    assert st.bytes == [] == left ==> st.bytes + chunk == left + chunk;
  }

  lemma PrefixIsPending(body: seq<byte>, part: seq<byte>)
    requires part <= FrameBytes(REQUEST_MAGIC, body) && |part| < |FrameBytes(REQUEST_MAGIC, body)|
    ensures Scan([], false, part).Pending?
  {
    var whole := FrameBytes(REQUEST_MAGIC, body);
    var more := whole[|part|..];
    assert part + more == whole;
    ScanConcat([], false, part, more);
    ScanFrameAlone(REQUEST_MAGIC, body);
  }

  /** One call on a buffer that scans as a request frame with `rest` behind it. */
  lemma CallCompletes(crc: Checksum, st: ParserState, q: Query, rest: seq<byte>)
    requires |q.ids| < 0x100 && !st.escaped && Unread(st.parsing, st.bytes) == st.bytes
    requires Scan([], false, st.bytes) == Scan([], false, RequestFrame(crc, q.address, q.ids) + rest)
    ensures Answers(Call(crc, st).0, q) && Call(crc, st).1 == ParserState(rest, true, false)
  {
    ScanFrame(REQUEST_MAGIC, RequestBody(crc, q.address, q.ids), rest);
    FinishRequest(crc, q.address, q.ids, rest);
  }

  /** A read ends within a frame: nothing is returned, and what was received of it is kept. */
  lemma CallWaits(crc: Checksum, st: ParserState, body: seq<byte>, raw: seq<byte>)
    requires !st.escaped && Unread(st.parsing, st.bytes) == st.bytes
    requires Scan([], false, st.bytes) == Scan([], false, raw)
    requires raw <= FrameBytes(REQUEST_MAGIC, body) && |raw| < |FrameBytes(REQUEST_MAGIC, body)| && SafeCut(Tail(raw))
    ensures Call(crc, st).0 == NoRequest && Stands(Call(crc, st).1, raw)
  {
    PrefixIsPending(body, raw);
    if raw != [] {
      assert raw[0] == FrameBytes(REQUEST_MAGIC, body)[0];
      ScanKeepsFirst([] + [raw[0]], false, raw[1..]);
    }
  }

  lemma CallOnNothing(crc: Checksum, st: ParserState)
    requires !st.escaped && Unread(st.parsing, st.bytes) == st.bytes
    requires Scan([], false, st.bytes) == Scan([], false, [])
    ensures Call(crc, st).0 == NoRequest && Stands(Call(crc, st).1, [])
  {
  }

  lemma CutAtFrame(frame: seq<byte>, others: seq<byte>, raw: seq<byte>, behind: seq<byte>)
    requires raw + behind == frame + others
    ensures |raw| < |frame| ==> raw <= frame
    ensures |raw| >= |frame| ==> raw == frame + raw[|frame|..] && raw[|frame|..] + behind == others
  {
    if |raw| < |frame| {
      assert raw == (raw + behind)[..|raw|] == frame[..|raw|];
    } else {
      assert raw[..|frame|] == (raw + behind)[..|frame|] == frame;
      assert raw[|frame|..] + behind == (raw + behind)[|frame|..];
    }
  }

  lemma StreamTaken(crc: Checksum, table: RegisterTable, address: byte, bus: Databus, qs: seq<Query>, k: nat)
    requires ValidQueries(qs) && k < |qs|
    ensures Stream(crc, qs[..k + 1]) == RequestFrame(crc, qs[0].address, qs[0].ids) + Stream(crc, qs[1..][..k])
    ensures qs[k + 1..] == qs[1..][k..]
    ensures Responses(crc, table, address, bus, qs[..k + 1]) ==
      (if qs[0].address == address then [ResponseFrame(crc, address, Select(table, qs[0].ids), bus)] else [])
      + Responses(crc, table, address, bus, qs[1..][..k])
  {
    assert qs[..k + 1][1..] == qs[1..][..k];
  }

  lemma ServeWaits(crc: Checksum, table: RegisterTable, address: byte, bus: Databus, st: ParserState)
    ensures Call(crc, st).0 == NoRequest ==>
      Serve(crc, table, address, bus, st) == Served([], Call(crc, st).1, None)
  {
  }

  lemma Standing(left: seq<byte>)
    ensures Stands(ParserState(left, true, false), left)
  {
  }

  /** The first step of the inner loop, when a request is complete. */
  lemma ServeStep(crc: Checksum, table: RegisterTable, address: byte, bus: Databus, st: ParserState, q: Query)
    requires Answers(Call(crc, st).0, q)
    ensures var next := Call(crc, st).1;
      Serve(crc, table, address, bus, st) ==
      if q.address != address then Served([], next, None)
      else
        var others := Serve(crc, table, address, bus, next);
        others.(replies := [ResponseFrame(crc, address, Select(table, q.ids), bus)] + others.replies)
  {
  }

  /** How many requests a read of `n` bytes takes, and how many bytes it leaves: those complete within it,
      up to and including the first for another meter. */
  function Taken(crc: Checksum, address: byte, qs: seq<Query>, n: nat): (r: (nat, nat))
    requires ValidQueries(qs)
    ensures r.0 <= |qs| && r.1 <= n
    decreases |qs|
  {
    if qs == [] then (0, n)
    else
      var size := |RequestFrame(crc, qs[0].address, qs[0].ids)|;
      if n < size then (0, n)
      else if qs[0].address != address then (1, n - size)
      else
        var (k, left) := Taken(crc, address, qs[1..], n - size);
        (k + 1, left)
  }

  /** How many requests a list of reads takes, with `left` bytes still there from before. */
  function TakenReads(crc: Checksum, address: byte, left: nat, chunks: seq<seq<byte>>, qs: seq<Query>): (j: nat)
    requires ValidQueries(qs)
    ensures j <= |qs|
    decreases |chunks|
  {
    if chunks == [] then 0
    else
      var (k, rest) := Taken(crc, address, qs, left + |chunks[0]|);
      ValidParts(qs, k);
      k + TakenReads(crc, address, rest, chunks[1..], qs[k..])
  }

  lemma ValidParts(qs: seq<Query>, k: nat)
    requires ValidQueries(qs) && k <= |qs|
    ensures ValidQueries(qs[..k]) && ValidQueries(qs[k..])
  {
  }

  lemma TakenReadsStep(crc: Checksum, address: byte, left: nat, chunks: seq<seq<byte>>, qs: seq<Query>)
    requires ValidQueries(qs)
    ensures chunks == [] ==> TakenReads(crc, address, left, chunks, qs) == 0
    ensures chunks != [] ==>
      var (k, rest) := Taken(crc, address, qs, left + |chunks[0]|);
      ValidQueries(qs[k..])
      && TakenReads(crc, address, left, chunks, qs) == k + TakenReads(crc, address, rest, chunks[1..], qs[k..])
  {
    if chunks != [] {
      ValidParts(qs, Taken(crc, address, qs, left + |chunks[0]|).0);
    }
  }

  /** What one read leads to: the requests completed by it are taken one by one up to the first for
      another meter, and the others stand. */
  lemma {:induction false} ServeRead(crc: Checksum, table: RegisterTable, address: byte, bus: Databus,
                                     st: ParserState, raw: seq<byte>, behind: seq<byte>, qs: seq<Query>)
    returns (k: nat, left: seq<byte>)
    requires ValidQueries(qs) && raw + behind == Stream(crc, qs) && SafeCut(Tail(raw))
    requires !st.escaped && Unread(st.parsing, st.bytes) == st.bytes
    requires Scan([], false, st.bytes) == Scan([], false, raw)
    ensures (k, |left|) == Taken(crc, address, qs, |raw|)
    ensures k <= |qs| && raw == Stream(crc, qs[..k]) + left && left + behind == Stream(crc, qs[k..])
    ensures var served := Serve(crc, table, address, bus, st);
      && served.error == None && served.replies == Responses(crc, table, address, bus, qs[..k])
      && Stands(served.parser, left)
    ensures behind == [] && left != [] ==> k > 0 && qs[k - 1].address != address
    decreases |qs|
  {
    hide Serve, Call, Scan, Stands, FrameBytes, Tail, Responses, SafeCut;
    ServeWaits(crc, table, address, bus, st);
    if qs == [] {
      assert raw == [];
      CallOnNothing(crc, st);
      NothingTaken(crc, table, address, bus, qs, raw);
      return 0, [];
    }
    var q, others := qs[0], qs[1..];
    var frame := RequestFrame(crc, q.address, q.ids);
    CutAtFrame(frame, Stream(crc, others), raw, behind);
    if |raw| < |frame| {
      CallWaits(crc, st, RequestBody(crc, q.address, q.ids), raw);
      NothingTaken(crc, table, address, bus, qs, raw);
      return 0, raw;
    }
    var rest := raw[|frame|..];
    var next := Call(crc, st).1;
    CallCompletes(crc, st, q, rest);
    ServeStep(crc, table, address, bus, st, q);
    Standing(rest);
    if q.address != address {
      ForeignTaken(crc, table, address, bus, qs);
      return 1, rest;
    }
    TailOfFrame(RequestBody(crc, q.address, q.ids), rest);
    k, left := ServeRead(crc, table, address, bus, next, rest, behind, others);
    StreamTaken(crc, table, address, bus, qs, k);
    Assoc(frame, Stream(crc, others[..k]), left);
    k := k + 1;
  }

  lemma NothingTaken(crc: Checksum, table: RegisterTable, address: byte, bus: Databus, qs: seq<Query>, s: seq<byte>)
    requires ValidQueries(qs)
    ensures qs[0..] == qs && Stream(crc, qs[..0]) == [] && Responses(crc, table, address, bus, qs[..0]) == []
    ensures [] + s == s == s + []
  {
    assert qs[..0] == [];
  }

  lemma ForeignTaken(crc: Checksum, table: RegisterTable, address: byte, bus: Databus, qs: seq<Query>)
    requires ValidQueries(qs) && qs != [] && qs[0].address != address
    ensures Stream(crc, qs[..1]) == RequestFrame(crc, qs[0].address, qs[0].ids)
    ensures Responses(crc, table, address, bus, qs[..1]) == []
  {
    StreamTaken(crc, table, address, bus, qs, 0);
    NothingTaken(crc, table, address, bus, qs[1..], Stream(crc, qs[..1]));
  }

  lemma TailOfFrame(body: seq<byte>, more: seq<byte>)
    ensures Tail(FrameBytes(REQUEST_MAGIC, body) + more) == Tail(more)
  {
    ScanFrame(REQUEST_MAGIC, body, more);
  }

  lemma {:induction false} ResponsesConcat(crc: Checksum, table: RegisterTable, address: byte, bus: Databus,
                                           qs: seq<Query>, more: seq<Query>)
    ensures Responses(crc, table, address, bus, qs + more)
         == Responses(crc, table, address, bus, qs) + Responses(crc, table, address, bus, more)
    decreases |qs|
  {
    if qs == [] {
      assert qs + more == more;
    } else {
      assert (qs + more)[1..] == qs[1..] + more;
      ResponsesConcat(crc, table, address, bus, qs[1..], more);
      var first :=
        if qs[0].address == address then [ResponseFrame(crc, address, Select(table, qs[0].ids), bus)] else [];
      Assoc(first, Responses(crc, table, address, bus, qs[1..]), Responses(crc, table, address, bus, more));
      hide ResponseFrame, Select;
    }
  }

  lemma {:induction false} SafeLater(crc: Checksum, taken: seq<Query>, left: seq<byte>, chunks: seq<seq<byte>>)
    requires ValidQueries(taken) && SafeStream(Stream(crc, taken) + left, chunks)
    ensures SafeStream(left, chunks)
    decreases |chunks|
  {
    if chunks != [] {
      Assoc(Stream(crc, taken), left, chunks[0]);
      TailOfStream(crc, taken, left + chunks[0]);
      SafeLater(crc, taken, left + chunks[0], chunks[1..]);
    }
  }

  lemma TakenTwice(crc: Checksum, table: RegisterTable, address: byte, bus: Databus, qs: seq<Query>, k: nat, j: nat)
    requires k <= |qs| && j <= |qs| - k
    ensures qs[k..][j..] == qs[k + j..] && (j > 0 ==> qs[k..][j - 1] == qs[k + j - 1])
    ensures Responses(crc, table, address, bus, qs[..k]) + Responses(crc, table, address, bus, qs[k..][..j])
         == Responses(crc, table, address, bus, qs[..k + j])
  {
    assert qs[..k] + qs[k..][..j] == qs[..k + j];
    ResponsesConcat(crc, table, address, bus, qs[..k], qs[k..][..j]);
  }

  lemma FirstOfPrefix(raw: seq<byte>, behind: seq<byte>, stream: seq<byte>)
    requires raw != [] && raw + behind == stream && stream != []
    ensures raw[0] == stream[0]
  {
    assert raw[0] == (raw + behind)[0];
  }

  lemma StreamNotEmpty(crc: Checksum, qs: seq<Query>, raw: seq<byte>, behind: seq<byte>)
    requires ValidQueries(qs) && raw != [] && raw + behind == Stream(crc, qs)
    ensures qs != []
  {
  }

  /** One round of the outer loop: `raw` is what was left and what has come. */
  lemma OneRead(crc: Checksum, table: RegisterTable, address: byte, bus: Databus, st: ParserState,
                left: seq<byte>, chunk: seq<byte>, raw: seq<byte>, behind: seq<byte>, qs: seq<Query>)
    returns (k: nat, rest: seq<byte>)
    requires ValidQueries(qs) && Stands(st, left) && raw + behind == Stream(crc, qs) && qs != []
    requires chunk != [] && raw == left + chunk && SafeCut(Tail(raw))
    ensures (k, |rest|) == Taken(crc, address, qs, |raw|)
    ensures k <= |qs| && raw == Stream(crc, qs[..k]) + rest && rest + behind == Stream(crc, qs[k..])
    ensures var served := Serve(crc, table, address, bus, st.(bytes := st.bytes + chunk));
      && served.error == None && served.replies == Responses(crc, table, address, bus, qs[..k])
      && Stands(served.parser, rest)
    ensures behind == [] && rest != [] ==> k > 0 && qs[k - 1].address != address
  {
    StreamFirst(crc, qs);
    FirstOfPrefix(raw, behind, Stream(crc, qs));
    Resume(st, left, chunk);
    assert !st.escaped;
    hide Serve, Responses, Tail, SafeCut, Scan, Taken, Stands, Stream, Unread, ValidQueries;
    k, rest := ServeRead(crc, table, address, bus, st.(bytes := st.bytes + chunk), raw, behind, qs);
  }

  lemma ServeReadsStep(crc: Checksum, table: RegisterTable, address: byte, bus: Databus, st: ParserState,
                       chunks: seq<seq<byte>>)
    requires chunks != [] && chunks[0] != []
    ensures var first := Serve(crc, table, address, bus, st.(bytes := st.bytes + chunks[0]));
      first.error == None ==>
        var others := ServeReads(crc, table, address, bus, first.parser, chunks[1..]);
        ServeReads(crc, table, address, bus, st, chunks) == others.(replies := first.replies + others.replies)
  {
  }

  /** The first `j` requests have been taken, and the others stand. */
  predicate Reached(served: Served, crc: Checksum, table: RegisterTable, address: byte, bus: Databus,
                    qs: seq<Query>, j: nat)
    requires ValidQueries(qs) && j <= |qs|
  {
    && served.error == None && served.replies == Responses(crc, table, address, bus, qs[..j])
    && Stands(served.parser, Stream(crc, qs[j..]))
  }

  lemma NothingReached(crc: Checksum, table: RegisterTable, address: byte, bus: Databus, st: ParserState,
                       qs: seq<Query>)
    requires ValidQueries(qs) && Stands(st, Stream(crc, qs))
    ensures Reached(Served([], st, None), crc, table, address, bus, qs, 0)
  {
    NothingTaken(crc, table, address, bus, qs, []);
  }

  lemma JoinReached(first: Served, others: Served, crc: Checksum, table: RegisterTable, address: byte, bus: Databus,
                    qs: seq<Query>, k: nat, j: nat)
    requires k <= |qs| && j <= |qs| - k && ValidQueries(qs) && ValidQueries(qs[k..])
    requires first.replies == Responses(crc, table, address, bus, qs[..k])
    requires Reached(others, crc, table, address, bus, qs[k..], j)
    ensures Reached(others.(replies := first.replies + others.replies), crc, table, address, bus, qs, k + j)
  {
    TakenTwice(crc, table, address, bus, qs, k, j);
  }

  lemma {:induction false} ServeReadsStand(crc: Checksum, table: RegisterTable, address: byte, bus: Databus,
                                           st: ParserState, left: seq<byte>, chunks: seq<seq<byte>>, qs: seq<Query>)
    returns (j: nat)
    requires ValidQueries(qs) && Stands(st, left) && left + Flatten(chunks) == Stream(crc, qs)
    requires SafeStream(left, chunks)
    ensures j == TakenReads(crc, address, |left|, chunks, qs)
    ensures j <= |qs| && Reached(ServeReads(crc, table, address, bus, st, chunks), crc, table, address, bus, qs, j)
    ensures if chunks == [] then j == 0 else j < |qs| ==> j > 0 && qs[j - 1].address != address
    decreases |chunks|
  {
    hide Serve, Stream, Tail, Stands, Responses, Reached, Taken, TakenReads;
    TakenReadsStep(crc, address, |left|, chunks, qs);
    if chunks == [] {
      assert left + Flatten(chunks) == left;
      NothingReached(crc, table, address, bus, st, qs);
      return 0;
    }
    var chunk, others := chunks[0], chunks[1..];
    var raw := left + chunk;
    Assoc(left, chunk, Flatten(others));
    StreamNotEmpty(crc, qs, raw, Flatten(others));
    var k, rest := OneRead(crc, table, address, bus, st, left, chunk, raw, Flatten(others), qs);
    var first := Serve(crc, table, address, bus, st.(bytes := st.bytes + chunk));
    ValidParts(qs, k);
    SafeLater(crc, qs[..k], rest, others);
    var j' := ServeReadsStand(crc, table, address, bus, first.parser, rest, others, qs[k..]);
    ServeReadsStep(crc, table, address, bus, st, chunks);
    var later := ServeReads(crc, table, address, bus, first.parser, others);
    JoinReached(first, later, crc, table, address, bus, qs, k, j');
    if others == [] && k < |qs| {
      StreamFirst(crc, qs[k..]);
      NothingTaken(crc, table, address, bus, [], rest);
    }
    assert j' > 0 ==> qs[k..][j' - 1] == qs[k + j' - 1];
    j := k + j';
  }

  /** Whatever requests arrive on a connection, in however many reads that end at safe cuts: each read takes
      the requests complete by then, up to and including the first for another meter, and leaves the others
      to the next read. Those for this meter among the ones taken are answered in order; what the last read
      leaves waits untouched in the buffer. */
  lemma ConnectionServes(crc: Checksum, table: RegisterTable, address: byte, bus: Databus, st: ParserState,
                         chunks: seq<seq<byte>>, qs: seq<Query>) returns (j: nat)
    requires ValidQueries(qs) && Idle(st) && Flatten(chunks) == Stream(crc, qs)
    requires SafeStream([], chunks)
    ensures j == TakenReads(crc, address, 0, chunks, qs)
    ensures j <= |qs| && (j < |qs| ==> j > 0 && qs[j - 1].address != address)
    ensures var served := ServeReads(crc, table, address, bus, st, chunks);
      && served.error == None && served.replies == Responses(crc, table, address, bus, qs[..j])
      && served.parser.bytes == Stream(crc, qs[j..]) && !served.parser.escaped
  {
    assert [] + Flatten(chunks) == Flatten(chunks);
    j := ServeReadsStand(crc, table, address, bus, st, [], chunks, qs);
    if chunks == [] && qs != [] {
      StreamFirst(crc, qs);
    }
    if j < |qs| {
      var q, others := qs[j], Stream(crc, qs[j..][1..]);
      assert qs[j..][0] == q;
      ScanFrame(REQUEST_MAGIC, RequestBody(crc, q.address, q.ids), others);
    }
  }

  lemma {:induction false} NoneOwnNoResponse(crc: Checksum, table: RegisterTable, address: byte, bus: Databus,
                                             qs: seq<Query>)
    ensures Responses(crc, table, address, bus, qs) == []
       <==> forall i :: 0 <= i < |qs| ==> qs[i].address != address
    decreases |qs|
  {
    if qs != [] {
      NoneOwnNoResponse(crc, table, address, bus, qs[1..]);
      assert forall i :: 1 <= i < |qs| ==> qs[i] == qs[1..][i - 1];
    }
  }

  /** From `j` on, no request is for this meter. */
  ghost predicate NoneOwnFrom(address: byte, qs: seq<Query>, j: nat) {
    forall i :: j <= i < |qs| ==> qs[i].address != address
  }

  lemma NoneOwnBehind(crc: Checksum, table: RegisterTable, address: byte, bus: Databus, qs: seq<Query>, j: nat)
    requires j <= |qs|
    ensures Responses(crc, table, address, bus, qs[j..]) == [] <==> NoneOwnFrom(address, qs, j)
  {
    NoneOwnNoResponse(crc, table, address, bus, qs[j..]);
    assert forall i :: j <= i < |qs| ==> qs[i] == qs[j..][i - j];
  }

  lemma ResponsesSplit(crc: Checksum, table: RegisterTable, address: byte, bus: Databus, qs: seq<Query>, j: nat)
    requires j <= |qs|
    ensures Responses(crc, table, address, bus, qs[..j]) == Responses(crc, table, address, bus, qs)
       <==> NoneOwnFrom(address, qs, j)
  {
    assert qs[..j] + qs[j..] == qs;
    ResponsesConcat(crc, table, address, bus, qs[..j], qs[j..]);
    NoneOwnBehind(crc, table, address, bus, qs, j);
    hide Responses, NoneOwnFrom;
    NothingAdded(Responses(crc, table, address, bus, qs[..j]), Responses(crc, table, address, bus, qs[j..]));
  }

  /** Every request for this meter is answered if and only if none stands behind those the reads take. */
  lemma AllAnsweredIff(crc: Checksum, table: RegisterTable, address: byte, bus: Databus, st: ParserState,
                       chunks: seq<seq<byte>>, qs: seq<Query>)
    requires ValidQueries(qs) && Idle(st) && Flatten(chunks) == Stream(crc, qs)
    requires SafeStream([], chunks)
    ensures ServeReads(crc, table, address, bus, st, chunks).replies == Responses(crc, table, address, bus, qs)
       <==> NoneOwnFrom(address, qs, TakenReads(crc, address, 0, chunks, qs))
  {
    hide ServeReads, Stream, SafeStream, Flatten, TakenReads, Responses, NoneOwnFrom, ValidQueries;
    var j := ConnectionServes(crc, table, address, bus, st, chunks, qs);
    ResponsesSplit(crc, table, address, bus, qs, j);
  }

  lemma NothingAdded<T>(a: seq<T>, b: seq<T>)
    ensures a == a + b <==> b == []
  {
    assert b == [] ==> a == a + b;
    assert |a + b| == |a| + |b|;
  }

  function Frames(crc: Checksum, qs: seq<Query>): seq<seq<byte>>
    requires ValidQueries(qs)
  {
    if qs == [] then [] else [RequestFrame(crc, qs[0].address, qs[0].ids)] + Frames(crc, qs[1..])
  }

  /** A read for each request takes all of them, wherever those for other meters stand. */
  lemma {:induction false} OneReadEach(crc: Checksum, address: byte, qs: seq<Query>)
    requires ValidQueries(qs)
    ensures TakenReads(crc, address, 0, Frames(crc, qs), qs) == |qs|
    decreases |qs|
  {
    if qs != [] {
      OneReadEach(crc, address, qs[1..]);
      var frame := RequestFrame(crc, qs[0].address, qs[0].ids);
      assert Frames(crc, qs)[0] == frame && Frames(crc, qs)[1..] == Frames(crc, qs[1..]);
      NoBytesTakeNothing(crc, address, qs[1..]);
      assert Taken(crc, address, qs, |frame|) == (1, 0);
    }
  }

  lemma NoBytesTakeNothing(crc: Checksum, address: byte, qs: seq<Query>)
    requires ValidQueries(qs)
    ensures Taken(crc, address, qs, 0) == (0, 0)
  {
  }

  /** One read for all takes those up to the first for another meter. */
  lemma {:induction false} OneReadForAll(crc: Checksum, address: byte, qs: seq<Query>)
    requires ValidQueries(qs)
    ensures Taken(crc, address, qs, |Stream(crc, qs)|).0 == Least(FirstForeign(qs, address) + 1, |qs|)
    decreases |qs|
  {
    if qs != [] && qs[0].address == address {
      OneReadForAll(crc, address, qs[1..]);
    }
  }

  /** So if all requests are for this meter, each is answered once, in order, and the parser ends idle. */
  lemma ConnectionAnswersAll(crc: Checksum, table: RegisterTable, address: byte, bus: Databus, st: ParserState,
                             chunks: seq<seq<byte>>, qs: seq<Query>)
    requires ValidQueries(qs) && Idle(st) && Flatten(chunks) == Stream(crc, qs)
    requires SafeStream([], chunks) && forall i :: 0 <= i < |qs| ==> qs[i].address == address
    ensures var served := ServeReads(crc, table, address, bus, st, chunks);
      && served.error == None && Idle(served.parser)
      && served.replies == Responses(crc, table, address, bus, qs) && |served.replies| == |qs|
  {
    hide ServeReads, Stream, SafeStream, Flatten, Responses, TakenReads;
    var j := ConnectionServes(crc, table, address, bus, st, chunks, qs);
    assert qs[..|qs|] == qs && qs[|qs|..] == [];
    EmptyStream(crc);
    OneResponseEach(crc, table, address, bus, qs);
  }

  lemma {:induction false} OneResponseEach(crc: Checksum, table: RegisterTable, address: byte, bus: Databus,
                                           qs: seq<Query>)
    requires forall i :: 0 <= i < |qs| ==> qs[i].address == address
    ensures |Responses(crc, table, address, bus, qs)| == |qs|
    decreases |qs|
  {
    if qs != [] {
      OneResponseEach(crc, table, address, bus, qs[1..]);
    }
  }
}
