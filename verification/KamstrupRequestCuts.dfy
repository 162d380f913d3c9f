/** Exactly when `get_request` survives a request cut into reads.

    Because each call rescans bytes it has already unescaped, and because a pending escape is
    applied to the first buffered byte, a cut is harmless only where the part received so far
    holds no unescaped ESCAPE or EOT and does not end inside an escape pair. One harmful cut spoils
    the request for good, whatever the cuts behind it do. */
module KamstrupRequestCuts {
  import opened Bytes
  import opened Common
  import opened Stuffing
  import opened KamstrupMessages
  import opened KamstrupRequestParser
  import opened KamstrupRequestReads

  // ----- where in a frame the reading stands

  /** `done` bytes of the body have been received, and, if `inside`, the ESCAPE of the next one. */
  datatype Place = Place(done: nat, inside: bool)

  predicate PlaceIn(body: seq<byte>, at: Place) {
    at.done <= |body| && (at.inside ==> at.done < |body| && NeedsEscape(body[at.done]))
  }

  /** What of the frame is still to come. */
  function Remaining(body: seq<byte>, at: Place): seq<byte>
    requires PlaceIn(body, at)
  {
    (if at.inside then [Flip(body[at.done])] + Stuff(body[at.done + 1..]) else Stuff(body[at.done..])) + [EOT_MAGIC]
  }

  /** The place after one more byte that is not the closing EOT. */
  function Next(body: seq<byte>, at: Place): Place
    requires PlaceIn(body, at) && at.done < |body|
  {
    if !at.inside && NeedsEscape(body[at.done]) then Place(at.done, true) else Place(at.done + 1, false)
  }

  /** The byte that comes next. */
  function Incoming(body: seq<byte>, at: Place): byte
    requires PlaceIn(body, at) && at.done < |body|
  {
    if at.inside then Flip(body[at.done]) else if NeedsEscape(body[at.done]) then ESCAPE else body[at.done]
  }

  lemma RemainingStep(body: seq<byte>, at: Place)
    requires PlaceIn(body, at)
    ensures at.done == |body| ==> Remaining(body, at) == [EOT_MAGIC]
    ensures at.done < |body| ==>
      && PlaceIn(body, Next(body, at))
      && Remaining(body, at) == [Incoming(body, at)] + Remaining(body, Next(body, at))
      && Remaining(body, Next(body, at)) != []
  {
    if at.done < |body| {
      var tail := body[at.done..];
      assert tail[1..] == body[at.done + 1..];
      assert at.inside ==> Remaining(body, at)[1..] == Stuff(body[at.done + 1..]) + [EOT_MAGIC];
      assert !at.inside ==> Stuff(tail) == StuffByte(body[at.done]) + Stuff(body[at.done + 1..]);
    } else {
      assert body[at.done..] == [];
    }
  }

  // ----- states from which the request cannot come out right

  /** The bytes the buffer holds or is owed for its pending escape, less the body bytes received. It
      never grows, and is 1, for the magic byte, as long as nothing is lost. */
  function Balance(buf: seq<byte>, escaped: bool, at: Place): int {
    |buf| + (if escaped && !at.inside then 1 else 0) - at.done
  }

  /** A byte that went through without its escape. */
  predicate Flipped(body: seq<byte>, i: nat, b: byte)
    requires i < |body|
  {
    NeedsEscape(body[i]) && b == Flip(body[i])
  }

  /** Behind the magic byte, every byte is the right one or lacks its escape. */
  ghost predicate Aligned(body: seq<byte>, buf: seq<byte>) {
    |buf| <= 1 + |body| && forall i :: 1 <= i < |buf| ==> buf[i] == body[i - 1] || Flipped(body, i - 1, buf[i])
  }

  ghost predicate HasFlipped(body: seq<byte>, buf: seq<byte>) {
    exists i :: 1 <= i < |buf| && i <= |body| && Flipped(body, i - 1, buf[i])
  }

  /** The first byte is the magic, or the magic a pending escape was applied to. */
  predicate Headed(buf: seq<byte>) {
    buf != [] && (buf[0] == REQUEST_MAGIC || buf[0] == Flip(REQUEST_MAGIC))
  }

  /** A byte has been lost, or one has lost its escape, or one is about to. */
  ghost predicate Doomed(body: seq<byte>, buf: seq<byte>, escaped: bool, at: Place) {
    && Headed(buf)
    && (|| Balance(buf, escaped, at) < 1
        || (&& Balance(buf, escaped, at) == 1 && Aligned(body, buf)
            && (escaped && !at.inside ==> 1 <= at.done <= |body| && body[at.done - 1] == ESCAPE)
            && (escaped != at.inside || HasFlipped(body, buf))))
  }

  lemma FlippedIsPlain(body: seq<byte>, i: nat, b: byte)
    requires i < |body| && Flipped(body, i, b)
    ensures b != ESCAPE && b != EOT_MAGIC && b != body[i]
  {
  }

  lemma KeepsFlipped(body: seq<byte>, buf: seq<byte>, longer: seq<byte>)
    requires HasFlipped(body, buf) && |buf| <= |longer|
    requires forall i :: 1 <= i < |buf| ==> longer[i] == buf[i]
    ensures HasFlipped(body, longer)
  {
    var i :| 1 <= i < |buf| && i <= |body| && Flipped(body, i - 1, buf[i]);
    assert Flipped(body, i - 1, longer[i]);
  }

  /** What one more byte of the frame does to the buffer. */
  function Take(buf: seq<byte>, escaped: bool, b: byte): (seq<byte>, bool) {
    if escaped then (buf + [Flip(b)], false)
    else if b == ESCAPE then (buf, true)
    else (buf + [b], false)
  }

  lemma TakeDoomed(body: seq<byte>, buf: seq<byte>, escaped: bool, at: Place)
    requires PlaceIn(body, at) && at.done < |body| && Doomed(body, buf, escaped, at)
    ensures var (buf', escaped') := Take(buf, escaped, Incoming(body, at));
      Doomed(body, buf', escaped', Next(body, at))
  {
    var (buf', escaped') := Take(buf, escaped, Incoming(body, at));
    if Balance(buf, escaped, at) == 1 && Balance(buf', escaped', Next(body, at)) == 1 {
      if escaped == at.inside {
        KeepsFlipped(body, buf, buf');
      } else if at.inside {
        assert Flipped(body, at.done, buf'[|buf|]);
      } else {
        assert Flipped(body, at.done - 1, buf'[|buf|]);
      }
    }
  }

  lemma HeadOf(chunk: seq<byte>, behind: seq<byte>, first: byte, others: seq<byte>)
    requires chunk != [] && chunk + behind == [first] + others
    ensures chunk[0] == first && chunk[1..] + behind == others
  {
    assert chunk[0] == (chunk + behind)[0];
    assert chunk[1..] + behind == (chunk + behind)[1..];
  }

  /** Reading on, short of the closing EOT, completes nothing and mends nothing. */
  lemma {:induction false} ReadDoomed(body: seq<byte>, buf: seq<byte>, escaped: bool, at: Place,
                                      chunk: seq<byte>, behind: seq<byte>) returns (at': Place)
    requires PlaceIn(body, at) && Doomed(body, buf, escaped, at)
    requires chunk + behind == Remaining(body, at) && behind != []
    ensures PlaceIn(body, at') && behind == Remaining(body, at')
    ensures match Scan(buf, escaped, chunk)
      case Complete(_, _) => false
      case Pending(buf', escaped') => Doomed(body, buf', escaped', at')
    decreases |chunk|
  {
    if chunk == [] {
      assert chunk + behind == behind;
      at' := at;
    } else {
      RemainingStep(body, at);
      HeadOf(chunk, behind, Incoming(body, at), Remaining(body, Next(body, at)));
      TakeDoomed(body, buf, escaped, at);
      var (buf', escaped') := Take(buf, escaped, chunk[0]);
      at' := ReadDoomed(body, buf', escaped', Next(body, at), chunk[1..], behind);
    }
  }

  // ----- rescanning

  /** Scanning a buffer yields at most one byte for each of its bytes, a pending escape counted as one;
      it yields that many only if there is no ESCAPE to act on but, perhaps, a last one. */
  lemma {:induction false} ScanNeverGrows(data: seq<byte>, s: seq<byte>)
    ensures match Scan(data, false, s)
      case Complete(_, _) => true
      case Pending(d, e) =>
        && |d| + (if e then 1 else 0) <= |data| + |s|
        && (|d| + (if e then 1 else 0) == |data| + |s| ==>
              if e then s != [] && s[|s| - 1] == ESCAPE && d == data + s[..|s| - 1] else Plain(s) && d == data + s)
    decreases |s|
  {
    if s == [] {
      assert data + s == data;
    } else if s[0] == ESCAPE {
      if |s| == 1 {
        assert Scan(data, true, s[1..]) == Pending(data, true);
        assert data + s[..0] == data;
      } else {
        ScanNeverGrows(data + [Flip(s[1])], s[2..]);
        assert s[1..][1..] == s[2..];
      }
    } else if s[0] != EOT_MAGIC {
      ScanNeverGrows(data + [s[0]], s[1..]);
      assert data + [s[0]] + s[1..] == data + s;
      if |s| > 1 {
        assert data + [s[0]] + s[1..][..|s| - 2] == data + s[..|s| - 1];
      }
    }
  }

  /** The buffer is what it should be, but rescanning it will do harm. */
  predicate Unsafe(body: seq<byte>, buf: seq<byte>, escaped: bool, at: Place) {
    && at.done <= |body| && buf == [REQUEST_MAGIC] + body[..at.done] && escaped == at.inside
    && (escaped || !Plain(buf))
  }

  /** The next call's rescan of the buffer: it meets a false EOT, or the request is doomed. */
  lemma RescanDooms(body: seq<byte>, buf: seq<byte>, escaped: bool, at: Place)
    requires PlaceIn(body, at) && (Doomed(body, buf, escaped, at) || Unsafe(body, buf, escaped, at))
    ensures match Scan([], escaped, buf)
      case Complete(_, _) => true
      case Pending(buf', escaped') => Doomed(body, buf', escaped', at)
  {
    var first, tail := [if escaped then Flip(buf[0]) else buf[0]], buf[1..];
    assert [] + first == first;
    assert Scan([], escaped, buf) == Scan(first, false, tail);
    ScanNeverGrows(first, tail);
    ScanKeepsFirst(first, false, tail);
    var r := Scan(first, false, tail);
    if r.Pending? {
      assert r.data[0] == first[0];
      if Balance(r.data, r.escaped, at) == 1 {
        SameBytes(body, buf, escaped, at, r.data, r.escaped);
      }
    }
  }

  /** A rescan that loses nothing leaves the flipped bytes where they are. */
  lemma SameBytes(body: seq<byte>, buf: seq<byte>, escaped: bool, at: Place, buf': seq<byte>, escaped': bool)
    requires PlaceIn(body, at) && (Doomed(body, buf, escaped, at) || Unsafe(body, buf, escaped, at))
    requires Headed(buf') && Balance(buf', escaped', at) == 1
    requires |buf'| + (if escaped' then 1 else 0) <= |buf|
    requires |buf'| + (if escaped' then 1 else 0) == |buf| ==>
      if escaped' then |buf| > 1 && buf[|buf| - 1] == ESCAPE && buf'[1..] == buf[1..|buf| - 1]
      else Plain(buf[1..]) && buf'[1..] == buf[1..]
    ensures Doomed(body, buf', escaped', at)
  {
    assert |buf'| + (if escaped' then 1 else 0) == |buf|;
    forall i | 1 <= i < |buf'| ensures buf'[i] == buf[i] {
      assert buf'[i] == buf'[1..][i - 1];
    }
    if escaped' {
      var n := |buf| - 1;
      assert n == at.done;
      if Flipped(body, n - 1, buf[n]) {
        FlippedIsPlain(body, n - 1, buf[n]);
      }
    } else if !at.inside {
      assert !escaped;
      if HasFlipped(body, buf) {
        KeepsFlipped(body, buf, buf');
      } else {
        PlainFromTail(buf);
      }
    }
  }

  lemma PlainFromTail(buf: seq<byte>)
    requires buf != [] && buf[0] == REQUEST_MAGIC && Plain(buf[1..])
    ensures Plain(buf)
  {
    assert buf == [buf[0]] + buf[1..];
  }

  // ----- one call

  /** One call after a harmful cut, when more of the frame is still to come. */
  lemma DoomedCall(crc: Checksum, body: seq<byte>, buf: seq<byte>, escaped: bool, at: Place,
                   chunk: seq<byte>, behind: seq<byte>) returns (at': Place)
    requires PlaceIn(body, at) && (Doomed(body, buf, escaped, at) || Unsafe(body, buf, escaped, at))
    requires chunk + behind == Remaining(body, at) && behind != []
    ensures var (r, next) := Call(crc, ParserState(buf + chunk, true, escaped));
      r == NoRequest ==>
        && PlaceIn(body, at') && behind == Remaining(body, at')
        && next.parsing && Doomed(body, next.bytes, next.escaped, at')
  {
    at' := at;
    RescanDooms(body, buf, escaped, at);
    ScanConcat([], escaped, buf, chunk);
    var r := Scan([], escaped, buf);
    if r.Pending? {
      at' := ReadDoomed(body, r.data, r.escaped, at, chunk, behind);
    }
  }

  /** What a call must return and leave for the request to have come through. */
  predicate Through(result: (Outcome, ParserState), address: byte, ids: seq<word>)
    requires |ids| < 0x100
  {
    result == (Parsed(GetRegisters(address, CountedIds(ids), ids)), ParserState([], true, false))
  }

  /** Two frames that give the same request and leave an empty buffer agree from their second byte on. */
  lemma SameRequestSameBody(crc: Checksum, address: byte, ids: seq<word>, frame: seq<byte>, rest: seq<byte>)
    requires |ids| < 0x100 && Through(Finish(crc, frame, rest), address, ids)
    ensures |frame| > 0 && frame[1..] == RequestBody(crc, address, ids) && rest == []
  {
    var bytes := frame + [EOT_MAGIC] + rest;
    assert |frame| >= 3 && ValidCrc(crc, frame[1..]);
    assert bytes[|frame| + 1..] == rest;
    assert rest == [];
    var message, core := frame[1..], [address, GET_REGISTERS] + CountedIds(ids);
    var n := |message| - 2;
    assert Middle(bytes) == CountedIds(ids);
    assert Middle(bytes) == message[2..n];
    assert message[..n] == core;
    WordParts(message[n], message[n + 1]);
    assert message == core + [message[n], message[n + 1]];
  }

  /** The call that reads the closing EOT after a harmful cut does not return the request. */
  lemma DoomedEnd(crc: Checksum, address: byte, ids: seq<word>, buf: seq<byte>, escaped: bool, at: Place,
                  chunk: seq<byte>)
    requires |ids| < 0x100
    requires var body := RequestBody(crc, address, ids);
      && PlaceIn(body, at) && (Doomed(body, buf, escaped, at) || Unsafe(body, buf, escaped, at))
      && chunk == Remaining(body, at)
    ensures !Through(Call(crc, ParserState(buf + chunk, true, escaped)), address, ids)
  {
    var body, n := RequestBody(crc, address, ids), |chunk| - 1;
    RescanDooms(body, buf, escaped, at);
    ScanConcat([], escaped, buf, chunk);
    match Scan([], escaped, buf) {
      case Complete(frame, rest) =>
        if Through(Finish(crc, frame, rest + chunk), address, ids) {
          SameRequestSameBody(crc, address, ids, frame, rest + chunk);
        }
      case Pending(d, e) =>
        assert chunk == chunk[..n] + [EOT_MAGIC];
        var last := ReadDoomed(body, d, e, at, chunk[..n], [EOT_MAGIC]);
        RemainingStep(body, last);
        ScanConcat(d, e, chunk[..n], [EOT_MAGIC]);
        var r := Scan(d, e, chunk[..n]);
        DoomedFrame(crc, address, ids, r.data, r.escaped, last);
    }
  }

  lemma DoomedFrame(crc: Checksum, address: byte, ids: seq<word>, buf: seq<byte>, escaped: bool, at: Place)
    requires |ids| < 0x100
    requires var body := RequestBody(crc, address, ids);
      at == Place(|body|, false) && Doomed(body, buf, escaped, at)
    ensures match Scan(buf, escaped, [EOT_MAGIC])
      case Pending(_, _) => true
      case Complete(frame, rest) => !Through(Finish(crc, frame, rest), address, ids)
  {
    var body := RequestBody(crc, address, ids);
    assert [EOT_MAGIC][1..] == [];
    if HasFlipped(body, buf) {
      FlippedDiffers(body, buf);
    }
    if !escaped && Through(Finish(crc, buf, []), address, ids) {
      SameRequestSameBody(crc, address, ids, buf, []);
    }
  }

  lemma FlippedDiffers(body: seq<byte>, buf: seq<byte>)
    requires HasFlipped(body, buf)
    ensures buf[1..] != body
  {
    var i :| 1 <= i < |buf| && i <= |body| && Flipped(body, i - 1, buf[i]);
    FlippedIsPlain(body, i - 1, buf[i]);
    assert i - 1 < |buf[1..]| && buf[1..][i - 1] == buf[i] != body[i - 1];
  }

  /** Where in the frame a proper prefix of it ends. */
  lemma PlaceOf(body: seq<byte>, received: seq<byte>, behind: seq<byte>) returns (at: Place)
    requires received != [] && behind != [] && received + behind == FrameBytes(REQUEST_MAGIC, body)
    ensures PlaceIn(body, at) && behind == Remaining(body, at)
    ensures Scan([], false, received) == Pending([REQUEST_MAGIC] + body[..at.done], at.inside)
  {
    var raw, start := FrameBytes(REQUEST_MAGIC, body), Place(0, false);
    assert received[0] == raw[0] && received[1..] + behind == raw[1..];
    assert body[0..] == body && raw[1..] == Remaining(body, start);
    assert [] + [received[0]] == [REQUEST_MAGIC] == [REQUEST_MAGIC] + body[..0];
    at := ReadClean(body, start, received[1..], behind);
  }

  lemma TakeClean(body: seq<byte>, at: Place)
    requires PlaceIn(body, at) && at.done < |body|
    ensures var next := Next(body, at);
      Take([REQUEST_MAGIC] + body[..at.done], at.inside, Incoming(body, at))
      == ([REQUEST_MAGIC] + body[..next.done], next.inside)
  {
    assert body[..at.done + 1] == body[..at.done] + [body[at.done]];
    Assoc([REQUEST_MAGIC], body[..at.done], [body[at.done]]);
  }

  lemma {:induction false} ReadClean(body: seq<byte>, at: Place, chunk: seq<byte>, behind: seq<byte>)
    returns (at': Place)
    requires PlaceIn(body, at) && chunk + behind == Remaining(body, at) && behind != []
    ensures PlaceIn(body, at') && behind == Remaining(body, at')
    ensures Scan([REQUEST_MAGIC] + body[..at.done], at.inside, chunk)
         == Pending([REQUEST_MAGIC] + body[..at'.done], at'.inside)
    decreases |chunk|
  {
    if chunk == [] {
      assert chunk + behind == behind;
      at' := at;
    } else {
      RemainingStep(body, at);
      HeadOf(chunk, behind, Incoming(body, at), Remaining(body, Next(body, at)));
      TakeClean(body, at);
      at' := ReadClean(body, Next(body, at), chunk[1..], behind);
    }
  }

  // ----- all calls

  /** The parser has unescaped what was received and holds nothing else. */
  predicate Holds(st: ParserState, received: seq<byte>) {
    Scan([], false, received) == ScanResult.Pending(st.bytes, st.escaped) && (received != [] ==> st.parsing)
  }

  /** One call after a harmless cut, when more of the frame is still to come. */
  lemma SafeCall(crc: Checksum, st: ParserState, received: seq<byte>, chunk: seq<byte>, behind: seq<byte>,
                 body: seq<byte>)
    requires received + chunk + behind == FrameBytes(REQUEST_MAGIC, body) && behind != []
    requires Holds(st, received) && SafeCut(received)
    ensures var (r, next) := Call(crc, st.(bytes := st.bytes + chunk));
      r == NoRequest && Holds(next, received + chunk)
  {
    var now, whole := received + chunk, FrameBytes(REQUEST_MAGIC, body);
    assert now <= whole;
    Rescan(received, st.bytes, chunk);
    FirstByte(received, st.bytes, chunk, whole);
    assert Unread(st.parsing, st.bytes + chunk) == st.bytes + chunk;
    if now == [] {
      assert st.bytes + chunk == [];
    } else {
      var at := PlaceOf(body, now, behind);
    }
  }

  /** As far as a proper prefix of the frame: some call has already returned something, or the state is
      right, after harmless cuts only, or beyond repair. */
  ghost predicate OnTrack(body: seq<byte>, st: ParserState, chunks: seq<seq<byte>>, behind: seq<byte>) {
    if SafeReads(chunks) then Holds(st, Flatten(chunks))
    else st.parsing && exists at :: PlaceIn(body, at) && behind == Remaining(body, at)
                                    && Doomed(body, st.bytes, st.escaped, at)
  }

  ghost predicate AllWait(rs: seq<Outcome>) {
    forall i :: 0 <= i < |rs| ==> rs[i] == NoRequest
  }

  lemma SafeReadsSnoc(chunks: seq<seq<byte>>, last: seq<byte>)
    ensures SafeReads(chunks + [last]) <==> SafeReads(chunks) && SafeCut(Flatten(chunks))
  {
    var longer := chunks + [last];
    forall k | 0 <= k <= |chunks| ensures longer[..k] == chunks[..k] {
    }
    assert longer[..|chunks|] == chunks;
    if SafeReads(longer) {
      forall k | 0 <= k < |chunks| ensures SafeCut(Flatten(chunks[..k])) {
        assert longer[..k] == chunks[..k];
      }
    }
  }

  /** The state in which one more call finds the parser after a harmful cut. */
  lemma HarmedPlace(body: seq<byte>, st: ParserState, chunks: seq<seq<byte>>, behind: seq<byte>)
    returns (at: Place)
    requires Flatten(chunks) + behind == FrameBytes(REQUEST_MAGIC, body) && behind != []
    requires OnTrack(body, st, chunks, behind) && !(SafeReads(chunks) && SafeCut(Flatten(chunks)))
    ensures st.parsing && PlaceIn(body, at) && behind == Remaining(body, at)
    ensures Doomed(body, st.bytes, st.escaped, at) || Unsafe(body, st.bytes, st.escaped, at)
  {
    if SafeReads(chunks) {
      at := PlaceOf(body, Flatten(chunks), behind);
    } else {
      at :| PlaceIn(body, at) && behind == Remaining(body, at) && Doomed(body, st.bytes, st.escaped, at);
    }
  }

  /** One more call keeps on track. */
  lemma OneMoreCall(crc: Checksum, st: ParserState, chunks: seq<seq<byte>>, chunk: seq<byte>, behind: seq<byte>,
                    body: seq<byte>)
    requires Flatten(chunks) + (chunk + behind) == FrameBytes(REQUEST_MAGIC, body) && behind != []
    requires OnTrack(body, st, chunks, chunk + behind)
    ensures var (r, next) := Call(crc, st.(bytes := st.bytes + chunk));
      && (r == NoRequest ==> OnTrack(body, next, chunks + [chunk], behind))
      && (SafeReads(chunks + [chunk]) ==> r == NoRequest)
  {
    var received := Flatten(chunks);
    FlattenSnoc(chunks, chunk);
    SafeReadsSnoc(chunks, chunk);
    if SafeReads(chunks + [chunk]) {
      Assoc(received, chunk, behind);
      SafeCall(crc, st, received, chunk, behind, body);
    } else {
      var at := HarmedPlace(body, st, chunks, chunk + behind);
      var at' := DoomedCall(crc, body, st.bytes, st.escaped, at, chunk, behind);
    }
  }

  lemma FeedSnoc(crc: Checksum, st: ParserState, chunks: seq<seq<byte>>, chunk: seq<byte>)
    ensures var (rs, mid) := Feed(crc, st, chunks);
      var (r, last) := Call(crc, mid.(bytes := mid.bytes + chunk));
      && Feed(crc, st, chunks + [chunk]) == (rs + [r], last)
      && (AllWait(rs + [r]) <==> AllWait(rs) && r == NoRequest)
  {
    var longer := chunks + [chunk];
    assert longer[..|longer| - 1] == chunks;
    var rs, r := Feed(crc, st, chunks).0, Feed(crc, st, longer).0;
    assert r[..|rs|] == rs;
    if AllWait(r) {
      assert forall i :: 0 <= i < |rs| ==> rs[i] == r[i];
      assert r[|rs|] == NoRequest;
    }
  }

  lemma {:induction false} PrefixReads(crc: Checksum, st: ParserState, chunks: seq<seq<byte>>, behind: seq<byte>,
                                       body: seq<byte>)
    requires Idle(st) && Flatten(chunks) + behind == FrameBytes(REQUEST_MAGIC, body) && behind != []
    ensures var (rs, last) := Feed(crc, st, chunks);
      && (AllWait(rs) ==> OnTrack(body, last, chunks, behind))
      && (SafeReads(chunks) ==> AllWait(rs))
    decreases |chunks|
  {
    if chunks != [] {
      var n := |chunks| - 1;
      var init, chunk := chunks[..n], chunks[n];
      assert chunks == init + [chunk];
      FlattenInit(chunks);
      Assoc(Flatten(init), chunk, behind);
      PrefixReads(crc, st, init, chunk + behind, body);
      SafeReadsSnoc(init, chunk);
      FeedSnoc(crc, st, init, chunk);
      var (rs, mid) := Feed(crc, st, init);
      if AllWait(rs) {
        OneMoreCall(crc, mid, init, chunk, behind, body);
      }
    }
  }

  /** A request cut into any number of reads comes through, each call before the last returning
      nothing and the last returning the request, if and only if every cut is harmless. */
  lemma ReadsIff(crc: Checksum, st: ParserState, chunks: seq<seq<byte>>, address: byte, ids: seq<word>)
    requires |ids| < 0x100 && Idle(st) && chunks != [] && chunks[|chunks| - 1] != []
    requires Flatten(chunks) == RequestFrame(crc, address, ids)
    ensures var (rs, last) := Feed(crc, st, chunks);
      AllWait(rs[..|chunks| - 1]) && Through((rs[|chunks| - 1], last), address, ids) <==> SafeReads(chunks)
  {
    if SafeReads(chunks) {
      ChunkIndependence(crc, st, chunks, address, ids);
    } else {
      var n := |chunks| - 1;
      var init, chunk, body := chunks[..n], chunks[n], RequestBody(crc, address, ids);
      assert chunks == init + [chunk];
      FlattenInit(chunks);
      PrefixReads(crc, st, init, chunk, body);
      SafeReadsSnoc(init, chunk);
      FeedSnoc(crc, st, init, chunk);
      var (rs, mid) := Feed(crc, st, init);
      assert Feed(crc, st, chunks).0[..n] == rs;
      if AllWait(rs) {
        var at := HarmedPlace(body, mid, init, chunk);
        DoomedEnd(crc, address, ids, mid.bytes, mid.escaped, at, chunk);
      }
    }
  }

  /** A request to a meter whose address needs an escape, cut behind its second byte, does not come
      through. */
  lemma CutInsideEscape(crc: Checksum, st: ParserState, address: byte, ids: seq<word>)
    requires |ids| < 0x100 && Idle(st) && NeedsEscape(address)
    ensures var raw := RequestFrame(crc, address, ids);
      && |raw| > 2
      && var chunks := [raw[..2], raw[2..]];
         var (rs, last) := Feed(crc, st, chunks);
         && Flatten(chunks) == raw && |rs| == 2 && !SafeReads(chunks)
         && !(rs[0] == NoRequest && Through((rs[1], last), address, ids))
  {
    var body := RequestBody(crc, address, ids);
    var raw := RequestFrame(crc, address, ids);
    assert body[0] == address;
    assert raw[..2] == [REQUEST_MAGIC, ESCAPE];
    var chunks := [raw[..2], raw[2..]];
    assert chunks[1..] == [raw[2..]] && [raw[2..]][1..] == [];
    assert Flatten([raw[2..]]) == raw[2..] + [];
    assert raw[..2] + raw[2..] == raw;
    assert chunks[..1] == [raw[..2]] && [raw[..2]][1..] == [];
    assert Flatten(chunks[..1]) == raw[..2] + [] == raw[..2];
    PlaceOfTwo(raw[..2]);
    ReadsIff(crc, st, chunks, address, ids);
    assert Feed(crc, st, chunks).0[..1] == [Feed(crc, st, chunks).0[0]];
  }

  lemma PlaceOfTwo(received: seq<byte>)
    requires received == [REQUEST_MAGIC, ESCAPE]
    ensures !SafeCut(received)
  {
    assert received[1..] == [ESCAPE] && [ESCAPE][1..] == [];
    assert Scan([] + [REQUEST_MAGIC], false, [ESCAPE]) == Scan([] + [REQUEST_MAGIC], true, []);
  }
}
