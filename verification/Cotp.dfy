/** COTP packets and connection parameters (conpot/protocols/s7comm/cotp.py; section 13 of RFC 905). */
module Cotp {
  import opened Bytes

  // ----- base packets

  datatype Base = Base(tpduType: byte, optField: byte, packetLength: nat, payload: seq<byte>, trailer: seq<byte>)

  const DATA: byte := 0xf0

  /** `COTP(tpdu_type, opt_field, payload, trailer)` */
  function MakeBase(tpduType: byte, optField: byte, payload: seq<byte>, trailer: seq<byte>): Base {
    Base(tpduType, optField, if tpduType == DATA then 2 else 1 + |payload|, payload, trailer)
  }

  function PackBase(b: Base): Option<seq<byte>> {
    if b.packetLength > 0xff then None
    else if b.tpduType == DATA then
      Some([b.packetLength as byte, b.tpduType, b.optField] + b.payload + b.trailer)
    else Some([b.packetLength as byte, b.tpduType] + b.payload + b.trailer)
  }

  /** `parse`, over the fields the object already has. */
  function ParseBase(b: Base, packet: seq<byte>): Option<Base> {
    if |packet| < 3 then None
    else
      var n: nat := packet[0];
      var trailer := Slice(packet, 1 + n, |packet|);
      if packet[1] == DATA then Some(Base(packet[1], packet[2], n, Slice(packet, 3, 1 + n), trailer))
      else Some(Base(packet[1], b.optField, n, Slice(packet, 2, 1 + n), trailer))
  }

  class COTP {
    var base: Base

    constructor (tpduType: byte, optField: byte, payload: seq<byte>, trailer: seq<byte>)
      ensures base == MakeBase(tpduType, optField, payload, trailer)
    {
      base := Base(tpduType, optField, if tpduType == DATA then 2 else 1 + |payload|, payload, trailer);
    }

    method ParseFrom(packet: seq<byte>) returns (ok: bool)
      modifies this
      ensures ok <==> ParseBase(old(base), packet).Some?
      ensures base == if ok then ParseBase(old(base), packet).value else old(base)
    {
      if |packet| < 3 {
        return false;
      }
      var n: nat := packet[0];
      base := base.(packetLength := n, tpduType := packet[1]);
      base := base.(trailer := Slice(packet, 1 + n, |packet|));
      if base.tpduType == DATA {
        base := base.(optField := packet[2]);
        base := base.(payload := Slice(packet, 3, 1 + n));
      } else {
        base := base.(payload := Slice(packet, 2, 1 + n));
      }
      return true;
    }
  }

  /** Data packets: what goes in as payload and trailer comes out as trailer alone. */
  lemma DataRoundTrip(b: Base, optField: byte, payload: seq<byte>, trailer: seq<byte>)
    ensures var packed := PackBase(MakeBase(DATA, optField, payload, trailer));
      packed.Some? && ParseBase(b, packed.value) == Some(Base(DATA, optField, 2, [], payload + trailer))
  {
    var raw := PackBase(MakeBase(DATA, optField, payload, trailer)).value;
    assert Slice(raw, 3, |raw|) == payload + trailer;
    assert Slice(raw, 3, 3) == [];
  }

  /** Every other packet comes back as it was if it fits its length byte and is at least three bytes
      long: the parser insists on an option byte even where there is none. */
  lemma OtherRoundTrip(b: Base, tpduType: byte, payload: seq<byte>, trailer: seq<byte>)
    requires tpduType != DATA
    ensures var packed := PackBase(MakeBase(tpduType, b.optField, payload, trailer));
      && (packed.Some? <==> |payload| <= 254)
      && (packed.Some? ==>
           (ParseBase(b, packed.value) == Some(MakeBase(tpduType, b.optField, payload, trailer))
            <==> |payload| + |trailer| > 0))
  {
    if |payload| <= 254 {
      var raw := PackBase(MakeBase(tpduType, b.optField, payload, trailer)).value;
      assert Slice(raw, 2, 2 + |payload|) == payload;
      assert Slice(raw, 2 + |payload|, |raw|) == trailer;
    }
  }

  /** A packet of two bytes can be packed, but not parsed. */
  lemma TwoBytesDoNotParse(b: Base)
    ensures PackBase(MakeBase(0xd0, 0, [], [])) == Some([1, 0xd0])
    ensures ParseBase(b, [1, 0xd0]) == None
  {
    assert [1, 0xd0] + [] + [] == [1, 0xd0];
  }

  // ----- connection packets

  const SRC_TSAP: byte := 0xc1
  const DST_TSAP: byte := 0xc2
  const TPDU_SIZE: byte := 0xc0

  datatype Fields = Fields(dstRef: word, srcRef: word, optField: byte, srcTsap: word, dstTsap: word, tpduSize: word)

  datatype Param = Short(code: byte, low: byte) | Long(code: byte, both: word)
  {
    function Value(): word {
      if Short? then low else both
    }

    function Encoding(): (s: seq<byte>)
      ensures |s| >= 3
    {
      if Short? then [code, 1, low] else [code, 2, Hi(both), Lo(both)]
    }
  }

  predicate Known(code: byte) {
    code == SRC_TSAP || code == DST_TSAP || code == TPDU_SIZE
  }

  predicate AllKnown(ps: seq<Param>) {
    forall i :: 0 <= i < |ps| ==> Known(ps[i].code)
  }

  function Set(f: Fields, code: byte, value: word): Fields
    requires Known(code)
  {
    if code == SRC_TSAP then f.(srcTsap := value)
    else if code == DST_TSAP then f.(dstTsap := value)
    else f.(tpduSize := value)
  }

  function Get(f: Fields, code: byte): word
    requires Known(code)
  {
    if code == SRC_TSAP then f.srcTsap else if code == DST_TSAP then f.dstTsap else f.tpduSize
  }

  datatype Outcome = Dissected | ParseError | StructError

  /** The variable header: read one parameter, assign its field, go on. */
  function Variable(f: Fields, chunk: seq<byte>): (Outcome, Fields)
    decreases |chunk|
  {
    if chunk == [] then (Dissected, f)
    else if |chunk| < 2 then (StructError, f)
    else if chunk[1] != 1 && chunk[1] != 2 then (ParseError, f)
    else if |chunk| < 2 + chunk[1] as nat then (StructError, f)
    else if !Known(chunk[0]) then (ParseError, f)
    else Variable(Set(f, chunk[0], HeadValue(chunk)), chunk[2 + chunk[1] as nat..])
  }

  function HeadValue(chunk: seq<byte>): word
    requires |chunk| >= 3 && (chunk[1] == 1 || (chunk[1] == 2 && |chunk| >= 4))
  {
    if chunk[1] == 1 then chunk[2] else Word(chunk[2], chunk[3])
  }

  function Dissect(f: Fields, packet: seq<byte>): (Outcome, Fields) {
    if |packet| < 5 then (ParseError, f)
    else
      Variable(f.(dstRef := Word(packet[0], packet[1]), srcRef := Word(packet[2], packet[3]), optField := packet[4]),
               packet[5..])
  }

  /** `COTPConnectionPacket` with the `assemble` of its two subclasses. */
  class ConnectionPacket {
    var fields: Fields

    constructor (f: Fields)
      ensures fields == f
    {
      fields := f;
    }

    /** `dissect`; an exception leaves the fields read before it. */
    method DissectFrom(packet: seq<byte>) returns (r: Outcome)
      modifies this
      ensures (r, fields) == Dissect(old(fields), packet)
    {
      if |packet| < 5 {
        return ParseError;
      }
      fields := fields.(dstRef := Word(packet[0], packet[1]));
      fields := fields.(srcRef := Word(packet[2], packet[3]));
      fields := fields.(optField := packet[4]);
      var chunk: seq<byte> := packet[5..];
      while |chunk| > 0
        invariant Variable(fields, chunk) == Dissect(old(fields), packet)
        decreases |chunk|
      {
        if |chunk| < 2 {
          return StructError;
        }
        var code, length := chunk[0], chunk[1];
        if length != 1 && length != 2 {
          return ParseError;
        }
        if |chunk| < 2 + length as nat {
          return StructError;
        }
        var value := HeadValue(chunk);
        if code == SRC_TSAP {
          fields := fields.(srcTsap := value);
        } else if code == DST_TSAP {
          fields := fields.(dstTsap := value);
        } else if code == TPDU_SIZE {
          fields := fields.(tpduSize := value);
        } else {
          return ParseError;
        }
        chunk := chunk[2 + length as nat..];
      }
      return Dissected;
    }
  }

  function Flat(ps: seq<Param>): seq<byte> {
    if ps == [] then [] else ps[0].Encoding() + Flat(ps[1..])
  }

  function Apply(f: Fields, ps: seq<Param>): Fields
    requires AllKnown(ps)
    decreases |ps|
  {
    if ps == [] then f else Apply(Set(f, ps[0].code, ps[0].Value()), ps[1..])
  }

  /** The dissector reads back any list of known parameters. */
  lemma {:induction false} VariableOfParams(f: Fields, ps: seq<Param>)
    requires AllKnown(ps)
    ensures Variable(f, Flat(ps)) == (Dissected, Apply(f, ps))
    decreases |ps|
  {
    if ps != [] {
      var chunk, head := Flat(ps), ps[0].Encoding();
      assert chunk[|head|..] == Flat(ps[1..]);
      assert chunk[..|head|] == head;
      assert chunk[0] == head[0] && chunk[1] == head[1] && chunk[2] == head[2];
      if ps[0].Long? {
        assert chunk[3] == head[3];
      }
      VariableOfParams(Set(f, ps[0].code, ps[0].Value()), ps[1..]);
    }
  }

  /** And accepts nothing else. */
  lemma {:induction false} VariableIsParams(f: Fields, chunk: seq<byte>) returns (ps: seq<Param>)
    requires Variable(f, chunk).0 == Dissected
    ensures AllKnown(ps) && Flat(ps) == chunk && Variable(f, chunk).1 == Apply(f, ps)
    decreases |chunk|
  {
    if chunk == [] {
      ps := [];
    } else {
      var p := HeadParam(chunk);
      var n := |p.Encoding()|;
      var others := VariableIsParams(Set(f, p.code, p.Value()), chunk[n..]);
      ps := [p] + others;
      assert ps[1..] == others;
      assert chunk[..n] + chunk[n..] == chunk;
    }
  }

  lemma HeadParam(chunk: seq<byte>) returns (p: Param)
    requires |chunk| >= 3 && (chunk[1] == 1 || (chunk[1] == 2 && |chunk| >= 4))
    ensures p.code == chunk[0] && p.Value() == HeadValue(chunk)
    ensures |p.Encoding()| == 2 + chunk[1] as nat && p.Encoding() == chunk[..|p.Encoding()|]
  {
    if chunk[1] == 1 {
      p := Short(chunk[0], chunk[2]);
    } else {
      WordParts(chunk[2], chunk[3]);
      p := Long(chunk[0], Word(chunk[2], chunk[3]));
    }
  }

  /** The last value given for a code, or the value before. */
  function LastValue(ps: seq<Param>, code: byte, before: word): word {
    if ps == [] then before
    else if ps[|ps| - 1].code == code then ps[|ps| - 1].Value()
    else LastValue(ps[..|ps| - 1], code, before)
  }

  lemma {:induction false} LastValueFirst(ps: seq<Param>, code: byte, before: word)
    requires ps != []
    ensures LastValue(ps, code, before) ==
            LastValue(ps[1..], code, if ps[0].code == code then ps[0].Value() else before)
    decreases |ps|
  {
    if |ps| > 1 {
      var n := |ps| - 1;
      assert ps[1..][..n - 1] == ps[..n][1..] && ps[1..][n - 1] == ps[n];
      LastValueFirst(ps[..n], code, before);
    } else {
      assert ps[..0] == [] && ps[1..] == [];
    }
  }

  /** Each field ends as the last value given for its code; the fixed header is untouched. */
  lemma {:induction false} ApplyKeepsLast(f: Fields, ps: seq<Param>)
    requires AllKnown(ps)
    ensures forall code | Known(code) :: Get(Apply(f, ps), code) == LastValue(ps, code, Get(f, code))
    ensures var r := Apply(f, ps); r.dstRef == f.dstRef && r.srcRef == f.srcRef && r.optField == f.optField
    decreases |ps|
  {
    if ps != [] {
      var g := Set(f, ps[0].code, ps[0].Value());
      ApplyKeepsLast(g, ps[1..]);
      forall code | Known(code) ensures Get(Apply(f, ps), code) == LastValue(ps, code, Get(f, code)) {
        LastValueFirst(ps, code, Get(f, code));
      }
    }
  }

  predicate DistinctCodes(ps: seq<Param>) {
    forall i, j :: 0 <= i < j < |ps| ==> ps[i].code != ps[j].code
  }

  lemma {:induction false} LastValueOfMember(ps: seq<Param>, p: Param, before: word)
    requires DistinctCodes(ps) && p in ps
    ensures LastValue(ps, p.code, before) == p.Value()
    decreases |ps|
  {
    var n := |ps| - 1;
    if ps[n] != p {
      assert ps == ps[..n] + [ps[n]];
      LastValueOfMember(ps[..n], p, before);
    }
  }

  lemma {:induction false} LastValueOfStranger(ps: seq<Param>, code: byte, before: word)
    requires forall p :: p in ps ==> p.code != code
    ensures LastValue(ps, code, before) == before
    decreases |ps|
  {
    if ps != [] {
      LastValueOfStranger(ps[..|ps| - 1], code, before);
    }
  }

  /** Parameters with distinct codes may come in any order. */
  lemma OrderDoesNotMatter(f: Fields, ps: seq<Param>, qs: seq<Param>)
    requires AllKnown(ps) && AllKnown(qs) && DistinctCodes(ps) && DistinctCodes(qs)
    requires forall p :: p in ps <==> p in qs
    ensures Variable(f, Flat(ps)) == Variable(f, Flat(qs))
  {
    VariableOfParams(f, ps);
    VariableOfParams(f, qs);
    ApplyKeepsLast(f, ps);
    ApplyKeepsLast(f, qs);
    forall code | Known(code) ensures Get(Apply(f, ps), code) == Get(Apply(f, qs), code) {
      if p :| p in ps && p.code == code {
        LastValueOfMember(ps, p, Get(f, code));
        LastValueOfMember(qs, p, Get(f, code));
      } else {
        LastValueOfStranger(ps, code, Get(f, code));
        LastValueOfStranger(qs, code, Get(f, code));
      }
    }
    assert Get(Apply(f, ps), SRC_TSAP) == Get(Apply(f, qs), SRC_TSAP);
    assert Get(Apply(f, ps), DST_TSAP) == Get(Apply(f, qs), DST_TSAP);
    assert Get(Apply(f, ps), TPDU_SIZE) == Get(Apply(f, qs), TPDU_SIZE);
  }

  // ----- assembling

  function FixedHeader(f: Fields): (s: seq<byte>)
    ensures |s| == 5
  {
    [Hi(f.dstRef), Lo(f.dstRef), Hi(f.srcRef), Lo(f.srcRef), f.optField]
  }

  /** `COTP_ConnectionConfirm.assemble` */
  function AssembleConfirm(f: Fields): seq<byte> {
    FixedHeader(f) + [SRC_TSAP, 2, Hi(f.srcTsap), Lo(f.srcTsap), DST_TSAP, 2, Hi(f.dstTsap), Lo(f.dstTsap)]
  }

  /** `COTP_ConnectionRequest.assemble`; the size has one byte only. */
  function AssembleRequest(f: Fields): Option<seq<byte>> {
    if f.tpduSize > 0xff then None
    else Some(AssembleConfirm(f) + [TPDU_SIZE, 1, f.tpduSize as byte])
  }

  lemma DissectAssembled(g: Fields, f: Fields, ps: seq<Param>)
    requires AllKnown(ps)
    ensures Dissect(g, FixedHeader(f) + Flat(ps)) ==
            (Dissected, Apply(g.(dstRef := f.dstRef, srcRef := f.srcRef, optField := f.optField), ps))
  {
    var packet := FixedHeader(f) + Flat(ps);
    assert packet[..5] == FixedHeader(f) && packet[5..] == Flat(ps);
    VariableOfParams(g.(dstRef := f.dstRef, srcRef := f.srcRef, optField := f.optField), ps);
  }

  /** Dissecting undoes both ways of assembling; a confirm packet carries no size. */
  lemma AssembleRoundTrip(g: Fields, f: Fields)
    ensures Dissect(g, AssembleConfirm(f)) == (Dissected, f.(tpduSize := g.tpduSize))
    ensures AssembleRequest(f).Some? <==> f.tpduSize <= 0xff
    ensures AssembleRequest(f).Some? ==> Dissect(g, AssembleRequest(f).value) == (Dissected, f)
  {
    var tsaps := [Long(SRC_TSAP, f.srcTsap), Long(DST_TSAP, f.dstTsap)];
    FlatTwo(tsaps[0], tsaps[1]);
    DissectAssembled(g, f, tsaps);
    assert AssembleConfirm(f) == FixedHeader(f) + Flat(tsaps);
    ApplyTwo(g.(dstRef := f.dstRef, srcRef := f.srcRef, optField := f.optField), tsaps[0], tsaps[1]);
    if f.tpduSize <= 0xff {
      var size := Short(TPDU_SIZE, f.tpduSize);
      FlatThree(tsaps[0], tsaps[1], size);
      DissectAssembled(g, f, [tsaps[0], tsaps[1], size]);
      assert AssembleRequest(f).value == FixedHeader(f) + Flat([tsaps[0], tsaps[1], size]);
      ApplyThree(g.(dstRef := f.dstRef, srcRef := f.srcRef, optField := f.optField), tsaps[0], tsaps[1], size);
    }
  }

  lemma FlatTwo(p: Param, q: Param)
    ensures Flat([p, q]) == p.Encoding() + q.Encoding()
  {
    assert [p, q][1..] == [q] && [q][1..] == [];
    assert Flat([q]) == q.Encoding() + Flat([]);
  }

  lemma FlatThree(p: Param, q: Param, r: Param)
    ensures Flat([p, q, r]) == p.Encoding() + (q.Encoding() + r.Encoding())
  {
    assert [p, q, r][1..] == [q, r];
    FlatTwo(q, r);
  }

  lemma ApplyTwo(f: Fields, p: Param, q: Param)
    requires Known(p.code) && Known(q.code)
    ensures Apply(f, [p, q]) == Set(Set(f, p.code, p.Value()), q.code, q.Value())
  {
    assert [p, q][1..] == [q] && [q][1..] == [];
    var g := Set(f, p.code, p.Value());
    assert Apply(g, [q]) == Apply(Set(g, q.code, q.Value()), []);
  }

  lemma ApplyThree(f: Fields, p: Param, q: Param, r: Param)
    requires Known(p.code) && Known(q.code) && Known(r.code)
    ensures Apply(f, [p, q, r]) == Set(Set(Set(f, p.code, p.Value()), q.code, q.Value()), r.code, r.Value())
  {
    assert [p, q, r][1..] == [q, r];
    ApplyTwo(Set(f, p.code, p.Value()), q, r);
  }
}
