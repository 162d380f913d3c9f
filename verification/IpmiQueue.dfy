/** The outgoing queue of an IPMI session over whole runs (conpot/protocols/ipmi/fakesession.py). */
module IpmiQueue {
  import opened Bytes
  import opened Common
  import opened IpmiFraming
  import opened IpmiSession

  /** What can happen to a session: it is given something to send, SOL data arrives, or a message does. */
  datatype Event = Submit(item: Item, iv: seq<byte>) | Sol(iv: seq<byte>) | Receipt(bytes: seq<byte>)

  function PacketsOf(r: Option<Sent>): seq<seq<byte>> {
    if r.Some? && r.value.Transmitted? then [r.value.packet] else []
  }

  function Step(suite: Suite, s: Session, ev: Event): (seq<seq<byte>>, Session) {
    match ev
    case Submit(item, iv) => var (r, next) := Send(suite, s, item, false, iv); (PacketsOf(Some(r)), next)
    case Sol(iv) => var (r, next) := Acknowledge(suite, s, iv); (PacketsOf(r), next)
    case Receipt(bytes) => ([], TakeMessage(s, bytes).1)
  }

  function Run(suite: Suite, s: Session, evs: seq<Event>): (seq<seq<byte>>, Session)
    decreases |evs|
  {
    if evs == [] then ([], s)
    else
      var (first, next) := Step(suite, s, evs[0]);
      var (others, last) := Run(suite, next, evs[1..]);
      (first + others, last)
  }

  /** A payload and its type. */
  type Cargo = (byte, seq<byte>)

  /** Something to send, of a type that travels in a session, and not too large. */
  predicate Proper(e: Endpoint, item: Item) {
    && item.payload != [] && item.payloadType.Some? && item.payloadType.value <= 1
    && SizeField(e, item.payload) < 0x1_0000
  }

  ghost predicate AllProper(e: Endpoint, items: seq<Item>) {
    forall i :: 0 <= i < |items| ==> Proper(e, items[i])
  }

  predicate ProperEvent(e: Endpoint, ev: Event) {
    match ev
    case Submit(item, iv) => Proper(e, item) && |iv| == 16
    case Sol(iv) => |iv| == 16
    case Receipt(_) => true
  }

  ghost predicate ProperEvents(e: Endpoint, evs: seq<Event>) {
    forall i :: 0 <= i < |evs| ==> ProperEvent(e, evs[i])
  }

  function Cargos(items: seq<Item>): (cs: seq<Cargo>)
    requires forall i :: 0 <= i < |items| ==> items[i].payloadType.Some?
    ensures |cs| == |items|
    ensures forall i :: 0 <= i < |items| ==> cs[i] == (items[i].payloadType.value, items[i].payload)
  {
    seq(|items|, i requires 0 <= i < |items| => (items[i].payloadType.value, items[i].payload))
  }

  function Given(ev: Event): seq<Cargo> {
    if ev.Submit? && ev.item.payloadType.Some? then [(ev.item.payloadType.value, ev.item.payload)] else []
  }

  function Submitted(evs: seq<Event>): seq<Cargo> {
    if evs == [] then [] else Given(evs[0]) + Submitted(evs[1..])
  }

  function Carried(ss: seq<Sending>): (cs: seq<Cargo>)
    ensures |cs| == |ss| && forall i :: 0 <= i < |ss| ==> cs[i] == (ss[i].bareType, ss[i].payload)
  {
    seq(|ss|, i requires 0 <= i < |ss| => (ss[i].bareType, ss[i].payload))
  }

  /** Something is submitted while others wait in the queue though nothing is outstanding. */
  predicate Overtakes(s: Session, ev: Event) {
    ev.Submit? && s.pending != [] && !s.Busy()
  }

  predicate Overtaken(suite: Suite, s: Session, evs: seq<Event>)
    decreases |evs|
  {
    evs != [] && (Overtakes(s, evs[0]) || Overtaken(suite, Step(suite, s, evs[0]).1, evs[1..]))
  }

  /** What one step sends. */
  function Outgoing(s: Session, ev: Event): seq<Sending>
    requires !s.version15 && s.sequenceNumber < 0x1_0000_0000
    requires AllProper(s.endpoint, s.pending) && ProperEvent(s.endpoint, ev)
  {
    if ev.Submit? && !s.Busy() then
      [Sending(s.sequenceNumber, ev.item.payloadType.value, ev.item.payload, ev.iv)]
    else if ev.Sol? && s.lastType == Some(1) && s.pending != [] then
      [Sending(s.sequenceNumber, s.pending[0].payloadType.value, s.pending[0].payload, ev.iv)]
    else []
  }

  function NumberAfter(n: nat, ss: seq<Sending>): nat {
    if ss == [] then n else NextNumber(n)
  }

  /** One step: at most one packet goes out, with the next number, and what was waiting or given is sent or
      waits, in order unless the step overtakes. */
  lemma StepSends(suite: Suite, s: Session, ev: Event)
    requires !s.version15 && s.sequenceNumber < 0x1_0000_0000
    requires AllProper(s.endpoint, s.pending) && ProperEvent(s.endpoint, ev)
    ensures var out, (packets, next) := Outgoing(s, ev), Step(suite, s, ev);
      && AllSendable(s.endpoint, out) && packets == Packets(suite, s.endpoint, out)
      && !next.version15 && next.endpoint == s.endpoint && next.sequenceNumber == NumberAfter(s.sequenceNumber, out)
      && AllProper(s.endpoint, next.pending)
      && next.pending == (if ev.Submit? && s.Busy() then s.pending + [ev.item]
                          else if ev.Sol? && out != [] then s.pending[1..] else s.pending)
  {
    hide Packet, SizeField;
    var out := Outgoing(s, ev);
    if out != [] {
      assert out[1..] == [];
      assert Packets(suite, s.endpoint, out[1..]) == [];
    }
  }

  lemma CargosConcat(items: seq<Item>, more: seq<Item>)
    requires forall i :: 0 <= i < |items + more| ==> (items + more)[i].payloadType.Some?
    ensures (forall i :: 0 <= i < |items| ==> items[i].payloadType.Some?)
    ensures (forall i :: 0 <= i < |more| ==> more[i].payloadType.Some?)
    ensures Cargos(items + more) == Cargos(items) + Cargos(more)
  {
    assert forall i :: 0 <= i < |items| ==> (items + more)[i] == items[i];
    assert forall i :: 0 <= i < |more| ==> (items + more)[|items| + i] == more[i];
  }

  lemma CargoStep(suite: Suite, s: Session, ev: Event)
    requires !s.version15 && s.sequenceNumber < 0x1_0000_0000
    requires AllProper(s.endpoint, s.pending) && ProperEvent(s.endpoint, ev)
    ensures AllProper(s.endpoint, Step(suite, s, ev).1.pending)
    ensures if Overtakes(s, ev) then
              |Given(ev)| == 1 && Carried(Outgoing(s, ev)) == Given(ev) && Cargos(s.pending) != []
            else Carried(Outgoing(s, ev)) + Cargos(Step(suite, s, ev).1.pending) == Cargos(s.pending) + Given(ev)
  {
    StepSends(suite, s, ev);
    hide Step;
    var out, next := Outgoing(s, ev), Step(suite, s, ev).1.pending;
    if ev.Submit? && s.Busy() {
      CargosConcat(s.pending, [ev.item]);
      assert Cargos([ev.item]) == Given(ev) && Carried(out) == [];
      assert [] + Cargos(next) == Cargos(next);
    } else if ev.Sol? && out != [] {
      assert s.pending == [s.pending[0]] + next;
      CargosConcat([s.pending[0]], next);
      assert Cargos([s.pending[0]]) == Carried(out);
      assert Cargos(s.pending) + [] == Cargos(s.pending);
    } else if ev.Submit? {
      assert Carried(out) == Given(ev);
      if s.pending == [] {
        assert Cargos(next) == Cargos(s.pending) == [];
      }
    } else {
      assert Carried(out) == [] && Given(ev) == [];
      assert [] + Cargos(next) == Cargos(next) == Cargos(s.pending) + [];
    }
  }

  /** The packets of a run, without the packets. */
  function Transmissions(suite: Suite, s: Session, evs: seq<Event>): seq<Sending>
    requires !s.version15 && AllProper(s.endpoint, s.pending) && ProperEvents(s.endpoint, evs)
    requires s.sequenceNumber == 0 || s.sequenceNumber + |evs| <= 0x1_0000_0000
    decreases |evs|
  {
    if evs == [] then []
    else
      StepSends(suite, s, evs[0]);
      Outgoing(s, evs[0]) + Transmissions(suite, Step(suite, s, evs[0]).1, evs[1..])
  }

  lemma {:induction false} PacketsConcat(suite: Suite, e: Endpoint, ss: seq<Sending>, more: seq<Sending>)
    requires AllSendable(e, ss) && AllSendable(e, more)
    ensures AllSendable(e, ss + more)
    ensures Packets(suite, e, ss + more) == Packets(suite, e, ss) + Packets(suite, e, more)
    decreases |ss|
  {
    if ss == [] {
      assert ss + more == more;
    } else {
      assert (ss + more)[1..] == ss[1..] + more;
      PacketsConcat(suite, e, ss[1..], more);
    }
  }

  /** The packets of a run are these transmissions, numbered one after the other. */
  lemma {:induction false} RunTransmits(suite: Suite, s: Session, evs: seq<Event>)
    requires !s.version15 && AllProper(s.endpoint, s.pending) && ProperEvents(s.endpoint, evs)
    requires s.sequenceNumber == 0 || s.sequenceNumber + |evs| <= 0x1_0000_0000
    ensures var ss, (packets, last) := Transmissions(suite, s, evs), Run(suite, s, evs);
      && AllSendable(s.endpoint, ss) && packets == Packets(suite, s.endpoint, ss)
      && NumberedFrom(s.sequenceNumber, ss) && AllProper(s.endpoint, last.pending)
    decreases |evs|
  {
    if evs != [] {
      StepSends(suite, s, evs[0]);
      var next := Step(suite, s, evs[0]).1;
      RunTransmits(suite, next, evs[1..]);
      var out, others := Outgoing(s, evs[0]), Transmissions(suite, next, evs[1..]);
      PacketsConcat(suite, s.endpoint, out, others);
      assert out != [] ==> (out + others)[1..] == others;
      assert out == [] ==> out + others == others;
    }
  }

  lemma CancelFirst<T>(a: seq<T>, b: seq<T>, c: seq<T>)
    ensures a + b == a + c <==> b == c
  {
    assert (a + b)[|a|..] == b && (a + c)[|a|..] == c;
  }

  lemma InOrderStep(sent: seq<Cargo>, more: seq<Cargo>, last: seq<Cargo>, before: seq<Cargo>, given: seq<Cargo>,
                    waiting: seq<Cargo>, later: seq<Cargo>)
    requires sent + waiting == before + given
    ensures Distinct(before + (given + later)) ==> Distinct(waiting + later)
    ensures (sent + more) + last == before + (given + later) <==> more + last == waiting + later
  {
    assert before + (given + later) == before + given + later == sent + (waiting + later);
    assert (sent + more) + last == sent + (more + last);
    CancelFirst(sent, more + last, waiting + later);
    if Distinct(before + (given + later)) {
      DistinctSuffix(sent, waiting + later);
    }
  }

  lemma OvertakingShows(given: seq<Cargo>, more: seq<Cargo>, last: seq<Cargo>, before: seq<Cargo>, later: seq<Cargo>)
    requires before != [] && |given| == 1 && Distinct(before + (given + later))
    ensures (given + more) + last != before + (given + later)
  {
    var order := before + (given + later);
    assert order[0] == before[0] && order[|before|] == given[0];
    assert ((given + more) + last)[0] == given[0];
  }

  lemma CarriedConcat(ss: seq<Sending>, more: seq<Sending>)
    ensures Carried(ss + more) == Carried(ss) + Carried(more)
  {
  }

  /** What was waiting and what is given has been transmitted in order, and what has not waits in order. */
  ghost predicate InOrder(suite: Suite, s: Session, evs: seq<Event>)
    requires !s.version15 && AllProper(s.endpoint, s.pending) && ProperEvents(s.endpoint, evs)
    requires s.sequenceNumber == 0 || s.sequenceNumber + |evs| <= 0x1_0000_0000
  {
    RunTransmits(suite, s, evs);
    Carried(Transmissions(suite, s, evs)) + Cargos(Run(suite, s, evs).1.pending) == Cargos(s.pending) + Submitted(evs)
  }

  /** Over every run the order is kept if nothing is submitted while others wait and nothing is outstanding,
      and, where payloads can be told apart, only then. */
  lemma {:induction false} QueueInOrderIff(suite: Suite, s: Session, evs: seq<Event>)
    requires !s.version15 && AllProper(s.endpoint, s.pending) && ProperEvents(s.endpoint, evs)
    requires s.sequenceNumber == 0 || s.sequenceNumber + |evs| <= 0x1_0000_0000
    ensures !Overtaken(suite, s, evs) ==> InOrder(suite, s, evs)
    ensures Distinct(Cargos(s.pending) + Submitted(evs)) && InOrder(suite, s, evs) ==> !Overtaken(suite, s, evs)
    decreases |evs|
  {
    hide Step, Distinct, ProperEvent, Outgoing, Given, Carried, Cargos, Overtakes;
    RunTransmits(suite, s, evs);
    if evs == [] {
      NothingCarried();
      assert [] + Cargos(s.pending) == Cargos(s.pending) + [];
    } else {
      var ev, others := evs[0], evs[1..];
      var next := Step(suite, s, ev).1;
      StepSends(suite, s, ev);
      CargoStep(suite, s, ev);
      RunTransmits(suite, next, others);
      var out, more := Outgoing(s, ev), Transmissions(suite, next, others);
      CarriedConcat(out, more);
      var before, later, last := Cargos(s.pending), Submitted(others), Cargos(Run(suite, s, evs).1.pending);
      if !Overtakes(s, ev) {
        InOrderStep(Carried(out), Carried(more), last, before, Given(ev), Cargos(next.pending), later);
        QueueInOrderIff(suite, next, others);
      } else if Distinct(before + (Given(ev) + later)) {
        OvertakingShows(Given(ev), Carried(more), last, before, later);
      }
    }
  }

  lemma NothingCarried()
    ensures Carried([]) == []
  {
  }

  lemma DistinctSuffix(a: seq<Cargo>, b: seq<Cargo>)
    requires Distinct(a + b)
    ensures Distinct(b)
  {
    forall i, j | 0 <= i < j < |b| ensures b[i] != b[j] {
      assert (a + b)[|a| + i] == b[i] && (a + b)[|a| + j] == b[j];
    }
  }

  /** A peer that shares keys and session id gets exactly what was transmitted, in that order. */
  lemma PeerReceives(suite: Suite, s: Session, evs: seq<Event>, r: Receiver)
    requires !s.version15 && AllProper(s.endpoint, s.pending) && ProperEvents(s.endpoint, evs)
    requires s.sequenceNumber == 0 || s.sequenceNumber + |evs| <= 0x1_0000_0000
    requires s.endpoint.integrity && suite.Lawful()
    requires r == Receiver(s.endpoint.sessionId, Some(s.endpoint.k1), s.endpoint.aesKey, None)
    ensures var ss := Transmissions(suite, s, evs);
      ReceiveAll(suite, r, Run(suite, s, evs).0) == (Deliveries(ss), true)
  {
    var ss := Transmissions(suite, s, evs);
    RunTransmits(suite, s, evs);
    SenderIsSteady(None, s.sequenceNumber, ss);
    var raws, k := SessionDelivers(suite, s.endpoint, r, ss);
    assert ss[..|ss|] == ss;
  }

  lemma RunStep(suite: Suite, s: Session, evs: seq<Event>)
    requires !s.version15 && AllProper(s.endpoint, s.pending) && ProperEvents(s.endpoint, evs) && evs != []
    requires s.sequenceNumber == 0 || s.sequenceNumber + |evs| <= 0x1_0000_0000
    ensures var next := Step(suite, s, evs[0]).1;
      && !next.version15 && AllProper(next.endpoint, next.pending) && next.endpoint == s.endpoint
      && ProperEvents(next.endpoint, evs[1..])
      && (next.sequenceNumber == 0 || next.sequenceNumber + |evs[1..]| <= 0x1_0000_0000)
      && Transmissions(suite, s, evs) == Outgoing(s, evs[0]) + Transmissions(suite, next, evs[1..])
      && Run(suite, s, evs).1 == Run(suite, next, evs[1..]).1
  {
    StepSends(suite, s, evs[0]);
  }

  lemma OvertakeStates(suite: Suite, s: Session, a: Item, b: Item, c: Item, iv: seq<byte>, bytes: seq<byte>)
    returns (s1: Session, s2: Session, s3: Session, s4: Session)
    requires !s.version15 && s.pending == [] && !s.Busy() && s.sequenceNumber + 4 <= 0x1_0000_0000
    requires Proper(s.endpoint, a) && Proper(s.endpoint, b) && Proper(s.endpoint, c)
    requires a.retry && |iv| == 16 && |bytes| >= 6
    ensures s1 == Step(suite, s, Submit(a, iv)).1 && s2 == Step(suite, s1, Submit(b, iv)).1
    ensures s3 == Step(suite, s2, Receipt(bytes)).1 && s4 == Step(suite, s3, Submit(c, iv)).1
    ensures s1.Busy() && s1.pending == [] && s2.Busy() && s2.pending == [b]
    ensures !s3.Busy() && s3.pending == [b] && s4.pending == [b]
  {
    hide Packet, SizeField, Settled;
    s1 := Step(suite, s, Submit(a, iv)).1;
    s2 := Step(suite, s1, Submit(b, iv)).1;
    s3 := Step(suite, s2, Receipt(bytes)).1;
    s4 := Step(suite, s3, Submit(c, iv)).1;
  }

  /** A message that arrives while `b` waits for `a` to be acknowledged clears what is outstanding but not
      the queue: `c` is then sent, and `b` is left behind. */
  lemma MessageLetsOvertake(suite: Suite, s: Session, a: Item, b: Item, c: Item, iv: seq<byte>, bytes: seq<byte>)
    requires !s.version15 && s.pending == [] && !s.Busy() && s.sequenceNumber + 4 <= 0x1_0000_0000
    requires Proper(s.endpoint, a) && Proper(s.endpoint, b) && Proper(s.endpoint, c)
    requires a.retry && |iv| == 16 && |bytes| >= 6
    ensures var evs := [Submit(a, iv), Submit(b, iv), Receipt(bytes), Submit(c, iv)];
      && ProperEvents(s.endpoint, evs) && Overtaken(suite, s, evs)
      && Carried(Transmissions(suite, s, evs)) == Cargos([a, c]) && Run(suite, s, evs).1.pending == [b]
  {
    hide Step;
    var e0, e1, e2, e3 := Submit(a, iv), Submit(b, iv), Receipt(bytes), Submit(c, iv);
    var evs := [e0, e1, e2, e3];
    var s1, s2, s3, s4 := OvertakeStates(suite, s, a, b, c, iv, bytes);
    assert evs[1..] == [e1, e2, e3] && [e1, e2, e3][1..] == [e2, e3] && [e2, e3][1..] == [e3];
    assert ProperEvents(s.endpoint, evs);
    RunStep(suite, s, evs);
    RunStep(suite, s1, evs[1..]);
    RunStep(suite, s2, [e2, e3]);
    RunStep(suite, s3, [e3]);
    assert Transmissions(suite, s4, [e3][1..]) == [];
    assert Overtaken(suite, s3, [e3]);
    assert Overtaken(suite, s2, [e2, e3]);
    assert Overtaken(suite, s1, [e1, e2, e3]);
  }
}
