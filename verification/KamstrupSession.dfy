/** The prober and the server talking to each other: request, in-place parse, lookup, serialization,
    unescape, decode. */
module KamstrupSession {
  import opened Bytes
  import opened Stuffing
  import opened KamstrupMessages
  import opened KamstrupRequestParser
  import opened KamstrupRequestReads
  import opened KamstrupServer
  import opened KamstrupProber

  /** What a client should learn about register `id`. The prober takes a reply of at most 12 bytes for
      "not found", so registers shorter than two bytes go unseen. */
  function Expected(table: RegisterTable, bus: Databus, id: word): Reply {
    if id in table && table[id].length >= 2 then
      var r := table[id];
      Found(r.units, r.length, r.unknown, bus(r.databusKey) % Pow256(r.length))
    else NotFound
  }

  lemma SelectOne(table: RegisterTable, id: word)
    ensures Select(table, [id]) == if id in table then [table[id]] else []
  {
    assert [id][..0] == [];
    assert Select(table, []) == [];
  }

  /** The unescaped reply holding one register reads back as that register. */
  lemma ReadOneRegister(address: byte, r: Register, bus: Databus, hi: byte, lo: byte)
    ensures var body := [address, GET_REGISTERS] + RegisterRecord(r, bus) + [hi, lo];
      var result := [RESPONSE_MAGIC] + body + [EOT_MAGIC];
      && |result| == 11 + r.length
      && ReadReply(result) ==
         if r.length >= 2 then Found(r.units, r.length, r.unknown, bus(r.databusKey) % Pow256(r.length)) else NotFound
  {
    var record := RegisterRecord(r, bus);
    var result := [RESPONSE_MAGIC] + ([address, GET_REGISTERS] + record + [hi, lo]) + [EOT_MAGIC];
    assert result == [RESPONSE_MAGIC, address, GET_REGISTERS] + record + [hi, lo, EOT_MAGIC];
    assert result[5] == record[2] && result[6] == record[3] && result[7] == record[4];
    assert result[8..8 + r.length] == ToBigEndian(bus(r.databusKey), r.length);
    BigEndianRoundTrip(bus(r.databusKey), r.length);
  }

  /** What the prober reads from the server's answer to a request for one register. */
  lemma ReadAnswer(crc: Checksum, table: RegisterTable, address: byte, bus: Databus, id: word)
    ensures var received := Unescape(ResponseFrame(crc, address, Select(table, [id]), bus));
      && received.Some?
      && (|received.value| <= 12 <==> id !in table || table[id].length < 2)
      && ReadReply(received.value) == Expected(table, bus, id)
  {
    var rs := Select(table, [id]);
    SelectOne(table, id);
    var records := RegisterRecords(rs, bus);
    var core := [address, GET_REGISTERS] + records;
    UnescapeFrame(RESPONSE_MAGIC, ResponseBody(crc, address, rs, bus));
    if id in table {
      assert records == RegisterRecords([], bus) + RegisterRecord(table[id], bus) by {
        assert rs[..0] == [];
      }
      assert records == RegisterRecord(table[id], bus);
      ReadOneRegister(address, table[id], bus, Hi(crc(core)), Lo(crc(core)));
    }
  }

  /** End to end: from an idle parser, the request for any register id is answered by exactly one
      reply, the reply tells exactly what it should, and the parser is idle again. */
  lemma EndToEnd(crc: Checksum, table: RegisterTable, address: byte, bus: Databus, st: ParserState, id: word)
    requires Idle(st)
    ensures var served := Serve(crc, table, address, bus, st.(bytes := RequestFrame(crc, address, [id])));
      && served.error == None && Idle(served.parser) && |served.replies| == 1
      && var received := Unescape(served.replies[0]);
         received.Some? && ReadReply(received.value) == Expected(table, bus, id)
  {
    hide Serve, RequestFrame, ResponseFrame, Unescape, ReadReply, Expected, Select;
    var q := Query(address, [id]);
    var raw := RequestFrame(crc, address, [id]);
    assert Stream(crc, [q]) == raw by {
      assert [q][1..] == [];
      assert Stream(crc, []) == [];
      assert raw + [] == raw;
    }
    ServePipelined(crc, table, address, bus, st.(bytes := raw), [q]);
    assert [q][..1] == [q];
    assert Responses(crc, table, address, bus, [q])
        == [ResponseFrame(crc, address, Select(table, [id]), bus)] + Responses(crc, table, address, bus, [q][1..]);
    assert Responses(crc, table, address, bus, [q])[0] == ResponseFrame(crc, address, Select(table, [id]), bus);
    ReadAnswer(crc, table, address, bus, id);
  }

  /** Asking for one register after another on one connection. */
  function Probe(crc: Checksum, table: RegisterTable, address: byte, bus: Databus, st: ParserState, ids: seq<word>)
    : (Option<seq<Reply>>, ParserState)
    decreases |ids|
  {
    if ids == [] then (Some([]), st)
    else
      var served := Serve(crc, table, address, bus, st.(bytes := st.bytes + RequestFrame(crc, address, [ids[0]])));
      if served.error != None || |served.replies| != 1 || Unescape(served.replies[0]).None? then (None, served.parser)
      else
        var reply := ReadReply(Unescape(served.replies[0]).value);
        var (others, last) := Probe(crc, table, address, bus, served.parser, ids[1..]);
        (if others.Some? then Some([reply] + others.value) else None, last)
  }

  /** Any number of requests on one connection, each answered as it should be. */
  lemma {:induction false} WholeSession(crc: Checksum, table: RegisterTable, address: byte, bus: Databus,
                                        st: ParserState, ids: seq<word>)
    requires Idle(st)
    ensures var (replies, last) := Probe(crc, table, address, bus, st, ids);
      && Idle(last) && replies.Some? && |replies.value| == |ids|
      && forall i :: 0 <= i < |ids| ==> replies.value[i] == Expected(table, bus, ids[i])
    decreases |ids|
  {
    if ids != [] {
      var raw := RequestFrame(crc, address, [ids[0]]);
      assert st.bytes + raw == raw;
      EndToEnd(crc, table, address, bus, st, ids[0]);
      var served := Serve(crc, table, address, bus, st.(bytes := raw));
      WholeSession(crc, table, address, bus, served.parser, ids[1..]);
    }
  }

  /** `get_register` against the server, and the decoding of its result. */
  method ProbeOne(connection: Connection, bus: Databus, id: word) returns (reply: Reply)
    requires connection.Valid() && Idle(connection.parser.State())
    modifies connection.parser
    ensures Idle(connection.parser.State())
    ensures reply == Expected(connection.responder.registers, bus, id)
  {
    var raw := BuildRequest(connection.responder.crc, connection.responder.communicationAddress, id);
    EndToEnd(connection.responder.crc, connection.responder.registers, connection.responder.communicationAddress,
             bus, connection.parser.State(), id);
    assert connection.parser.bytes + raw == raw;
    var replies, error := connection.Handle(raw, bus);
    var received := RemoveEscapes(replies[0]);
    reply := InterpretReply(received.value);
  }

  function Misses(table: RegisterTable, bus: Databus, ids: seq<word>): nat {
    if ids == [] then 0
    else
      var last := ids[|ids| - 1];
      Misses(table, bus, ids[..|ids| - 1]) + (if Expected(table, bus, last).NotFound? then 1 else 0)
  }

  /** The prober's main loop run against the server: the registers it records are exactly those of
      the table among the candidates that are at least two bytes long, with their true contents. */
  method ProbeAll(connection: Connection, bus: Databus, candidates: seq<word>)
    returns (found: map<word, Reply>, notFound: nat, scanned: nat)
    requires connection.Valid() && Idle(connection.parser.State())
    modifies connection.parser
    ensures Idle(connection.parser.State())
    ensures var table := connection.responder.registers;
      && (forall id :: id in found <==> id in candidates && id in table && table[id].length >= 2)
      && (forall id :: id in found ==> found[id] == Expected(table, bus, id))
      && notFound == Misses(table, bus, candidates) && scanned == |candidates|
  {
    ghost var table := connection.responder.registers;
    found := map[];
    notFound := 0;
    scanned := 0;
    for i := 0 to |candidates|
      invariant Idle(connection.parser.State())
      invariant forall id :: id in found <==> id in candidates[..i] && id in table && table[id].length >= 2
      invariant forall id :: id in found ==> found[id] == Expected(table, bus, id)
      invariant notFound == Misses(table, bus, candidates[..i]) && scanned == i
    {
      var id := candidates[i];
      assert candidates[..i + 1] == candidates[..i] + [id];
      var reply := ProbeOne(connection, bus, id);
      if reply.Found? {
        found := found[id := reply];
      } else {
        notFound := notFound + 1;
      }
      scanned := scanned + 1;
    }
    assert candidates[..|candidates|] == candidates;
  }
}
