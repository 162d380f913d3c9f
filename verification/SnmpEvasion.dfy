/** The SNMP request counters and the throttles that read them
    (conpot/protocols/snmp/databus_mediator.py, conpot/protocols/snmp/conpot_cmdrsp.py).

    Four responders, one for each command and each with a threshold of its own, share one table of
    counters, in which the command is not recorded. */
module SnmpEvasion {
  import opened Common

  type Client = string

  const OVERALL: Client := "overall"

  /** Minute stamp to counters; the overall counter shares its dictionary with the clients'. */
  type Table = map<int, map<Client, nat>>

  datatype Command = Get | Set | Next | Bulk

  /** One request: the minute it arrives in, the client it comes from, and what it is. */
  datatype Call = Call(minute: int, client: Client, command: Command)

  datatype Who = OneClient(client: Client) | Anyone

  datatype What = OneCommand(command: Command) | AnyCommand

  predicate Concerns(call: Call, who: Who, what: What) {
    && (who.Anyone? || call.client == who.client)
    && (what.AnyCommand? || call.command == what.command)
  }

  /** The calls since the minute stamp last changed. */
  function Window(h: seq<Call>): (w: seq<Call>)
    ensures h != [] ==> w != []
  {
    if h == [] then []
    else
      var n := |h| - 1;
      if n > 0 && h[n - 1].minute == h[n].minute then Window(h[..n]) + [h[n]] else [h[n]]
  }

  function Count(w: seq<Call>, who: Who, what: What): (n: nat)
    ensures n <= |w|
  {
    if w == [] then 0
    else Count(w[..|w| - 1], who, what) + (if Concerns(w[|w| - 1], who, what) then 1 else 0)
  }

  /** The counters of one minute: one for all calls, and one for every client that made any. */
  ghost predicate Tallies(counts: map<Client, nat>, w: seq<Call>) {
    && OVERALL in counts && counts[OVERALL] == |w|
    && forall c :: c != OVERALL ==>
         (c in counts <==> Count(w, OneClient(c), AnyCommand) > 0)
         && (c in counts ==> counts[c] == Count(w, OneClient(c), AnyCommand))
  }

  /** The table is what the calls of the current window say, and nothing else. */
  ghost predicate Reflects(t: Table, h: seq<Call>) {
    if h == [] then t == map[]
    else
      var minute := h[|h| - 1].minute;
      t.Keys == {minute} && Tallies(t[minute], Window(h))
  }

  /** One more for the client, who may be new, and one more for all. */
  function CountedUp(counts: map<Client, nat>, client: Client): map<Client, nat>
    requires OVERALL in counts
  {
    var one: nat, all: nat := if client in counts then counts[client] + 1 else 1, counts[OVERALL] + 1;
    counts[client := one][OVERALL := all]
  }

  lemma TalliesStep(counts: map<Client, nat>, w: seq<Call>, call: Call)
    requires Tallies(counts, w) && call.client != OVERALL
    ensures var counts' := CountedUp(counts, call.client);
      && Tallies(counts', w + [call])
      && call.client in counts' && counts'[call.client] == Count(w + [call], OneClient(call.client), AnyCommand)
      && OVERALL in counts' && counts'[OVERALL] == |w + [call]|
  {
    assert (w + [call])[..|w|] == w;
  }

  lemma WindowSnoc(h: seq<Call>, call: Call)
    ensures Window(h + [call]) ==
      (if h != [] && h[|h| - 1].minute == call.minute then Window(h) else []) + [call]
  {
    assert (h + [call])[..|h|] == h;
  }

  datatype Threshold = Threshold(individual: int, overall: int)

  /** The threshold of each responder. */
  type Thresholds = Command -> Threshold

  /** `check_evasive`, given the two numbers of the threshold text. */
  predicate CheckEvasive(current: nat, overall: nat, t: Threshold) {
    || (t.individual > 0 && current > t.individual)
    || (t.overall > 0 && overall > t.overall)
  }

  /** Whether the last call of `h` passes the throttle of its responder. */
  predicate Admitted(h: seq<Call>, ts: Thresholds)
    requires h != []
  {
    var w, last := Window(h), h[|h| - 1];
    !CheckEvasive(Count(w, OneClient(last.client), AnyCommand), |w|, ts(last.command))
  }

  class DatabusMediator {
    var evasionTable: Table

    constructor ()
      ensures Reflects(evasionTable, [])
    {
      evasionTable := map[];
    }

    /** `update_evasion_table`; `h` are the calls so far. The command is not recorded. */
    method UpdateEvasionTable(minute: int, client: Client, ghost command: Command, ghost h: seq<Call>)
      returns (current: nat, overall: nat)
      requires client != OVERALL && Reflects(evasionTable, h)
      modifies this
      ensures Reflects(evasionTable, h + [Call(minute, client, command)])
      ensures var w := Window(h + [Call(minute, client, command)]);
        current == Count(w, OneClient(client), AnyCommand) && overall == |w|
    {
      ghost var call := Call(minute, client, command);
      ghost var w := if minute in evasionTable then Window(h) else [];
      WindowSnoc(h, call);
      if minute !in evasionTable {
        evasionTable := map[];
        evasionTable := evasionTable[minute := map[]];
        evasionTable := evasionTable[minute := evasionTable[minute][OVERALL := 0]];
      }
      var counts := evasionTable[minute];
      assert Tallies(counts, w) && evasionTable.Keys == {minute};
      assert Window(h + [call]) == w + [call];
      hide Tallies, Count, Window, CountedUp;
      TalliesStep(counts, w, call);
      current, overall := CountUp(minute, client);
    }

    /** Increments the two counters of a minute that has some. */
    method CountUp(minute: int, client: Client) returns (current: nat, overall: nat)
      requires client != OVERALL && minute in evasionTable && OVERALL in evasionTable[minute]
      modifies this
      ensures var counts := CountedUp(old(evasionTable)[minute], client);
        && evasionTable == old(evasionTable)[minute := counts]
        && current == counts[client] && overall == counts[OVERALL]
    {
      var counts := evasionTable[minute];
      if client !in counts {
        counts := counts[client := 0];
      }
      counts := counts[client := counts[client] + 1];
      counts := counts[OVERALL := counts[OVERALL] + 1];
      assert counts == CountedUp(old(evasionTable)[minute], client);
      evasionTable := evasionTable[minute := counts];
      current := counts[client];
      overall := counts[OVERALL];
    }
  }

  /** What the responders of the four commands have in common. */
  class Responder {
    const command: Command
    const mediator: DatabusMediator
    var threshold: Threshold

    constructor (command: Command, mediator: DatabusMediator)
      ensures this.command == command && this.mediator == mediator && threshold == Threshold(0, 0)
    {
      this.command, this.mediator, threshold := command, mediator, Threshold(0, 0);
    }

    /** The opening of `handleMgmtOperation`: count the request in the shared table, then decide. */
    method Handle(minute: int, client: Client, ghost h: seq<Call>, ghost ts: Thresholds) returns (admit: bool)
      requires client != OVERALL && Reflects(mediator.evasionTable, h) && ts(command) == threshold
      modifies mediator
      ensures Reflects(mediator.evasionTable, h + [Call(minute, client, command)])
      ensures admit == Admitted(h + [Call(minute, client, command)], ts)
    {
      var current, overall := mediator.UpdateEvasionTable(minute, client, command, h);
      admit := !CheckEvasive(current, overall, threshold);
    }
  }

  // ----- the overall counter is the sum of the clients' counters

  function SumOf(w: seq<Call>, cs: seq<Client>): nat {
    if cs == [] then 0 else SumOf(w, cs[..|cs| - 1]) + Count(w, OneClient(cs[|cs| - 1]), AnyCommand)
  }

  lemma {:induction false} SumOfOneMore(w: seq<Call>, call: Call, cs: seq<Client>)
    requires Distinct(cs)
    ensures SumOf(w + [call], cs) == SumOf(w, cs) + (if call.client in cs then 1 else 0)
    decreases |cs|
  {
    assert (w + [call])[..|w|] == w;
    if cs != [] {
      var n := |cs| - 1;
      assert cs == cs[..n] + [cs[n]];
      SumOfOneMore(w, call, cs[..n]);
    }
  }

  /** However the clients of a window are listed, their counters add up to the overall counter. */
  lemma {:induction false} OverallIsSum(w: seq<Call>, cs: seq<Client>)
    requires Distinct(cs) && forall i :: 0 <= i < |w| ==> w[i].client in cs
    ensures SumOf(w, cs) == |w|
    decreases |w|
  {
    if w == [] {
      SumOfNothing(cs);
    } else {
      var n := |w| - 1;
      assert w == w[..n] + [w[n]];
      OverallIsSum(w[..n], cs);
      SumOfOneMore(w[..n], w[n], cs);
    }
  }

  lemma {:induction false} SumOfNothing(cs: seq<Client>)
    ensures SumOf([], cs) == 0
    decreases |cs|
  {
    if cs != [] {
      SumOfNothing(cs[..|cs| - 1]);
    }
  }

  lemma {:induction false} AnyoneIsAll(w: seq<Call>)
    ensures Count(w, Anyone, AnyCommand) == |w|
    decreases |w|
  {
    if w != [] {
      AnyoneIsAll(w[..|w| - 1]);
    }
  }

  // ----- counting over whole histories

  function CountIn(h: seq<Call>, minute: int, who: Who, what: What): nat {
    if h == [] then 0
    else
      var n := |h| - 1;
      CountIn(h[..n], minute, who, what) + (if h[n].minute == minute && Concerns(h[n], who, what) then 1 else 0)
  }

  function AdmittedIn(h: seq<Call>, ts: Thresholds, minute: int, who: Who, what: What): nat {
    if h == [] then 0
    else
      var n := |h| - 1;
      AdmittedIn(h[..n], ts, minute, who, what)
      + (if h[n].minute == minute && Concerns(h[n], who, what) && Admitted(h, ts) then 1 else 0)
  }

  function Limit(t: Threshold, who: Who): int {
    if who.Anyone? then t.overall else t.individual
  }

  /** The last call's counter for `who`, who made it. */
  lemma AdmittedWithin(h: seq<Call>, ts: Thresholds, who: Who)
    requires h != [] && Concerns(h[|h| - 1], who, AnyCommand) && Admitted(h, ts)
    requires Limit(ts(h[|h| - 1].command), who) > 0
    ensures Count(Window(h), who, AnyCommand) <= Limit(ts(h[|h| - 1].command), who)
  {
    AnyoneIsAll(Window(h));
    assert who.OneClient? ==> who == OneClient(h[|h| - 1].client);
  }

  lemma WindowGrows(h: seq<Call>, who: Who, what: What)
    requires h != []
    ensures var n := |h| - 1;
      Count(Window(h), who, what) ==
      (if n > 0 && h[n - 1].minute == h[n].minute then Count(Window(h[..n]), who, what) else 0)
      + (if Concerns(h[n], who, what) then 1 else 0)
  {
    var n := |h| - 1;
    if n > 0 && h[n - 1].minute == h[n].minute {
      assert Window(h)[..|Window(h)| - 1] == Window(h[..n]);
    } else {
      assert Window(h)[..0] == [];
    }
  }

  lemma {:induction false} CounterIsBounded(h: seq<Call>, who: Who)
    requires h != []
    ensures Count(Window(h), who, AnyCommand) <= CountIn(h, h[|h| - 1].minute, who, AnyCommand)
    decreases |h|
  {
    var n := |h| - 1;
    WindowGrows(h, who, AnyCommand);
    if n > 0 && h[n - 1].minute == h[n].minute {
      CounterIsBounded(h[..n], who);
    }
  }

  lemma {:induction false} NeverMoreThanCalls(h: seq<Call>, ts: Thresholds, minute: int, who: Who, what: What)
    ensures AdmittedIn(h, ts, minute, who, what) <= CountIn(h, minute, who, what)
    ensures CountIn(h, minute, who, what) <= CountIn(h, minute, who, AnyCommand)
    decreases |h|
  {
    if h != [] {
      NeverMoreThanCalls(h[..|h| - 1], ts, minute, who, what);
    }
  }

  // ----- reopened minutes

  /** Some call of `who` started the counter anew although there had been one in that minute before: the
      clock had gone back, and the minute's counters were purged in between. */
  predicate Reopened(h: seq<Call>, minute: int, who: Who) {
    h != [] &&
    var n := |h| - 1;
    || Reopened(h[..n], minute, who)
    || (&& h[n].minute == minute && Concerns(h[n], who, AnyCommand)
        && Count(Window(h), who, AnyCommand) == 1 && CountIn(h[..n], minute, who, AnyCommand) > 0)
  }

  predicate MinutesForward(h: seq<Call>) {
    forall i, j :: 0 <= i < j < |h| ==> h[i].minute <= h[j].minute
  }

  lemma {:induction false} NothingLater(h: seq<Call>, minute: int, who: Who, what: What)
    requires forall i :: 0 <= i < |h| ==> h[i].minute < minute
    ensures CountIn(h, minute, who, what) == 0
    decreases |h|
  {
    if h != [] {
      NothingLater(h[..|h| - 1], minute, who, what);
    }
  }

  lemma CountInGrows(h: seq<Call>, minute: int, who: Who, what: What)
    requires h != []
    ensures var n := |h| - 1;
      CountIn(h, minute, who, what) ==
      CountIn(h[..n], minute, who, what) + (if h[n].minute == minute && Concerns(h[n], who, what) then 1 else 0)
  {
  }

  lemma ForwardBefore(h: seq<Call>)
    requires h != [] && MinutesForward(h)
    ensures var n := |h| - 1;
      && MinutesForward(h[..n])
      && (n > 0 && h[n - 1].minute != h[n].minute ==> forall i :: 0 <= i < n ==> h[..n][i].minute < h[n].minute)
  {
    var n := |h| - 1;
    forall i | 0 <= i < n && h[n - 1].minute != h[n].minute ensures h[..n][i].minute < h[n].minute {
      assert h[..n][i] == h[i] && h[i].minute <= h[n - 1].minute;
    }
  }

  /** While the clock does not go back the window holds the calls of the minute. */
  lemma {:induction false} ForwardCountsMinute(h: seq<Call>, who: Who, what: What)
    requires h != [] && MinutesForward(h)
    ensures Count(Window(h), who, what) == CountIn(h, h[|h| - 1].minute, who, what)
    decreases |h|
  {
    var n := |h| - 1;
    WindowGrows(h, who, what);
    CountInGrows(h, h[n].minute, who, what);
    ForwardBefore(h);
    hide MinutesForward, Window, Count, CountIn, Concerns;
    if n > 0 && h[n - 1].minute == h[n].minute {
      ForwardCountsMinute(h[..n], who, what);
    } else {
      NothingLater(h[..n], h[n].minute, who, what);
    }
  }

  /** So no minute is reopened, for anyone. */
  lemma {:induction false} ForwardNeverReopens(h: seq<Call>, minute: int, who: Who)
    requires MinutesForward(h)
    ensures !Reopened(h, minute, who)
    decreases |h|
  {
    if h != [] {
      ForwardNeverReopens(h[..|h| - 1], minute, who);
      ForwardCountsMinute(h, who, AnyCommand);
    }
  }

  lemma NeverReopened(h: seq<Call>, minute: int, who: Who)
    requires h != [] && !Reopened(h, minute, who)
    ensures var n := |h| - 1;
      && !Reopened(h[..n], minute, who)
      && (h[n].minute == minute && Concerns(h[n], who, AnyCommand) && Count(Window(h), who, AnyCommand) == 1 ==>
            CountIn(h, minute, who, AnyCommand) == 1)
  {
  }

  /** Without reopening, a counter that runs is the number of calls in the minute. */
  lemma {:induction false} CounterIsTrue(h: seq<Call>, who: Who)
    requires h != [] && !Reopened(h, h[|h| - 1].minute, who)
    ensures Count(Window(h), who, AnyCommand) > 0 ==>
      Count(Window(h), who, AnyCommand) == CountIn(h, h[|h| - 1].minute, who, AnyCommand)
    decreases |h|
  {
    var n := |h| - 1;
    NeverReopened(h, h[n].minute, who);
    WindowGrows(h, who, AnyCommand);
    if n > 0 && h[n - 1].minute == h[n].minute {
      CounterIsTrue(h[..n], who);
    }
  }

  lemma {:induction false} ReopenedIsNotTrue(h: seq<Call>, minute: int, who: Who)
    requires Reopened(h, minute, who)
    ensures CountIn(h, minute, who, AnyCommand) > 0
    ensures h[|h| - 1].minute == minute ==>
      Count(Window(h), who, AnyCommand) < CountIn(h, minute, who, AnyCommand)
    decreases |h|
  {
    var n := |h| - 1;
    WindowGrows(h, who, AnyCommand);
    if Reopened(h[..n], minute, who) {
      ReopenedIsNotTrue(h[..n], minute, who);
    }
  }

  // ----- what the throttles guarantee

  lemma PassedMeansFew(h: seq<Call>, ts: Thresholds, who: Who)
    requires h != [] && Concerns(h[|h| - 1], who, AnyCommand) && Admitted(h, ts)
    requires !Reopened(h, h[|h| - 1].minute, who) && Limit(ts(h[|h| - 1].command), who) > 0
    ensures CountIn(h, h[|h| - 1].minute, who, AnyCommand) <= Limit(ts(h[|h| - 1].command), who)
  {
    AdmittedWithin(h, ts, who);
    WindowGrows(h, who, AnyCommand);
    CounterIsTrue(h, who);
  }

  /** Whatever the other commands and their thresholds are: in a minute that was not reopened, a command's
      responder lets through at most its threshold of a client's requests, and at most its overall
      threshold of everyone's. */
  lemma {:induction false} ThrottleHolds(h: seq<Call>, ts: Thresholds, command: Command, minute: int, who: Who)
    requires !Reopened(h, minute, who) && Limit(ts(command), who) > 0
    ensures AdmittedIn(h, ts, minute, who, OneCommand(command)) <= Limit(ts(command), who)
    decreases |h|
  {
    if h != [] {
      var n := |h| - 1;
      ThrottleHolds(h[..n], ts, command, minute, who);
      if h[n].minute == minute && Concerns(h[n], who, OneCommand(command)) && Admitted(h, ts) {
        PassedMeansFew(h, ts, who);
        NeverMoreThanCalls(h, ts, minute, who, OneCommand(command));
      }
    }
  }

  predicate Within(count: nat, limit: int) {
    limit > 0 ==> count <= limit
  }

  /** The limits of `t` leave room for the last call of `h`, counted over `what` in its minute. */
  predicate FitsMinute(h: seq<Call>, t: Threshold, what: What)
    requires h != []
  {
    var last := h[|h| - 1];
    && Within(CountIn(h, last.minute, OneClient(last.client), what), t.individual)
    && Within(CountIn(h, last.minute, Anyone, what), t.overall)
  }

  /** Exactly which requests pass, while the clock does not go back: those that are, whatever their
      command, among the client's first and among everyone's first of the minute. */
  lemma AdmittedIff(h: seq<Call>, ts: Thresholds)
    requires h != [] && MinutesForward(h)
    ensures Admitted(h, ts) <==> FitsMinute(h, ts(h[|h| - 1].command), AnyCommand)
  {
    ForwardCountsMinute(h, OneClient(h[|h| - 1].client), AnyCommand);
    ForwardCountsMinute(h, Anyone, AnyCommand);
    AnyoneIsAll(Window(h));
  }

  // ----- the throttle under any clock

  /** The other of the two limits a call is held to. */
  function Other(who: Who, call: Call): Who {
    if who.Anyone? then OneClient(call.client) else Anyone
  }

  /** All that `who` sent in the minute is held to the limit `n`, and the other limit, if it is set, is wide
      enough for the minute. */
  ghost predicate HeldTo(h: seq<Call>, ts: Thresholds, minute: int, who: Who, n: nat) {
    forall i :: 0 <= i < |h| && h[i].minute == minute && Concerns(h[i], who, AnyCommand) ==>
      var t, other := ts(h[i].command), Other(who, h[i]);
      Limit(t, who) == n && Within(CountIn(h, minute, other, AnyCommand), Limit(t, other))
  }

  lemma HeldBefore(h: seq<Call>, ts: Thresholds, minute: int, who: Who, n: nat)
    requires h != [] && HeldTo(h, ts, minute, who, n)
    ensures HeldTo(h[..|h| - 1], ts, minute, who, n)
  {
    var before := h[..|h| - 1];
    forall i | 0 <= i < |before| && before[i].minute == minute && Concerns(before[i], who, AnyCommand)
      ensures var t, other := ts(before[i].command), Other(who, before[i]);
        Limit(t, who) == n && Within(CountIn(before, minute, other, AnyCommand), Limit(t, other)) {
      assert before[i] == h[i];
    }
  }

  lemma HeldDecision(h: seq<Call>, ts: Thresholds, minute: int, who: Who, n: nat)
    requires h != [] && n > 0 && HeldTo(h, ts, minute, who, n)
    requires h[|h| - 1].minute == minute && Concerns(h[|h| - 1], who, AnyCommand)
    ensures Admitted(h, ts) <==> Count(Window(h), who, AnyCommand) <= n
  {
    var last := h[|h| - 1];
    CounterIsBounded(h, Other(who, last));
    AnyoneIsAll(Window(h));
    assert who.OneClient? ==> who == OneClient(last.client);
  }

  lemma {:induction false} FewCallsAllPass(h: seq<Call>, ts: Thresholds, minute: int, who: Who, n: nat)
    requires n > 0 && HeldTo(h, ts, minute, who, n) && CountIn(h, minute, who, AnyCommand) <= n
    ensures AdmittedIn(h, ts, minute, who, AnyCommand) == CountIn(h, minute, who, AnyCommand)
    decreases |h|
  {
    if h != [] {
      var m := |h| - 1;
      HeldBefore(h, ts, minute, who, n);
      FewCallsAllPass(h[..m], ts, minute, who, n);
      if h[m].minute == minute && Concerns(h[m], who, AnyCommand) {
        CounterIsBounded(h, who);
        HeldDecision(h, ts, minute, who, n);
      }
    }
  }

  lemma {:induction false} AtLeastTheFirst(h: seq<Call>, ts: Thresholds, minute: int, who: Who, n: nat)
    requires n > 0 && HeldTo(h, ts, minute, who, n)
    ensures AdmittedIn(h, ts, minute, who, AnyCommand) >= Least(CountIn(h, minute, who, AnyCommand), n)
    decreases |h|
  {
    if h != [] {
      var m := |h| - 1;
      HeldBefore(h, ts, minute, who, n);
      AtLeastTheFirst(h[..m], ts, minute, who, n);
      if h[m].minute == minute && Concerns(h[m], who, AnyCommand) {
        CounterIsBounded(h, who);
        HeldDecision(h, ts, minute, who, n);
      }
    }
  }

  lemma {:induction false} NotReopenedHolds(h: seq<Call>, ts: Thresholds, minute: int, who: Who, n: nat)
    requires n > 0 && HeldTo(h, ts, minute, who, n) && !Reopened(h, minute, who)
    ensures AdmittedIn(h, ts, minute, who, AnyCommand) <= n
    decreases |h|
  {
    if h != [] {
      var m := |h| - 1;
      HeldBefore(h, ts, minute, who, n);
      NotReopenedHolds(h[..m], ts, minute, who, n);
      if h[m].minute == minute && Concerns(h[m], who, AnyCommand) {
        HeldDecision(h, ts, minute, who, n);
        WindowGrows(h, who, AnyCommand);
        CounterIsTrue(h, who);
        NeverMoreThanCalls(h[..m], ts, minute, who, AnyCommand);
      }
    }
  }

  lemma {:induction false} ReopenedExceeds(h: seq<Call>, ts: Thresholds, minute: int, who: Who, n: nat)
    requires n > 0 && HeldTo(h, ts, minute, who, n)
    requires Reopened(h, minute, who) && CountIn(h, minute, who, AnyCommand) > n
    ensures AdmittedIn(h, ts, minute, who, AnyCommand) > n
    decreases |h|
  {
    var m := |h| - 1;
    HeldBefore(h, ts, minute, who, n);
    if Reopened(h[..m], minute, who) && CountIn(h[..m], minute, who, AnyCommand) > n {
      ReopenedExceeds(h[..m], ts, minute, who, n);
    } else {
      ReopenedIsNotTrue(h, minute, who);
      HeldDecision(h, ts, minute, who, n);
      AtLeastTheFirst(h[..m], ts, minute, who, n);
    }
  }

  /** Over any history, whatever its clock does, for `who` held to the limit `n` in a minute for which the
      other limit is wide enough: at most `n` requests pass if and only if there were no more, or the minute
      was not reopened. */
  lemma ThrottleIff(h: seq<Call>, ts: Thresholds, minute: int, who: Who, n: nat)
    requires n > 0 && HeldTo(h, ts, minute, who, n)
    ensures AdmittedIn(h, ts, minute, who, AnyCommand) <= n
       <==> CountIn(h, minute, who, AnyCommand) <= n || !Reopened(h, minute, who)
    ensures !Reopened(h, minute, who) ==>
      AdmittedIn(h, ts, minute, who, AnyCommand) == Least(CountIn(h, minute, who, AnyCommand), n)
  {
    NeverMoreThanCalls(h, ts, minute, who, AnyCommand);
    AtLeastTheFirst(h, ts, minute, who, n);
    if !Reopened(h, minute, who) {
      NotReopenedHolds(h, ts, minute, who, n);
    } else if CountIn(h, minute, who, AnyCommand) > n {
      ReopenedExceeds(h, ts, minute, who, n);
    }
  }

  // ----- window by window

  /** The windows of a history, one behind the other. */
  function Windows(h: seq<Call>): (ws: seq<seq<Call>>)
    ensures h != [] ==> ws != [] && ws[|ws| - 1] == Window(h)
  {
    if h == [] then []
    else
      var n := |h| - 1;
      var before := Windows(h[..n]);
      (if n > 0 && h[n - 1].minute == h[n].minute then before[..|before| - 1] else before) + [Window(h)]
  }

  /** Whether the last call of a window passes: nothing before the window matters. */
  predicate Passes(w: seq<Call>, ts: Thresholds)
    requires w != []
  {
    var last := w[|w| - 1];
    !CheckEvasive(Count(w, OneClient(last.client), AnyCommand), |w|, ts(last.command))
  }

  function PassedIn(w: seq<Call>, ts: Thresholds, who: Who, what: What): nat {
    if w == [] then 0
    else
      var n := |w| - 1;
      PassedIn(w[..n], ts, who, what) + (if Concerns(w[n], who, what) && Passes(w, ts) then 1 else 0)
  }

  /** The sum over the windows of a minute. */
  function SumPassed(ws: seq<seq<Call>>, ts: Thresholds, minute: int, who: Who, what: What): nat {
    if ws == [] then 0
    else
      var n := |ws| - 1;
      SumPassed(ws[..n], ts, minute, who, what)
      + (if ws[n] != [] && ws[n][0].minute == minute then PassedIn(ws[n], ts, who, what) else 0)
  }

  /** How often a minute was opened. */
  function Openings(ws: seq<seq<Call>>, minute: int): nat {
    if ws == [] then 0
    else
      var n := |ws| - 1;
      Openings(ws[..n], minute) + (if ws[n] != [] && ws[n][0].minute == minute then 1 else 0)
  }

  lemma {:induction false} WindowIsOfMinute(h: seq<Call>)
    requires h != []
    ensures var w := Window(h); w[0].minute == h[|h| - 1].minute && w[|w| - 1] == h[|h| - 1]
    decreases |h|
  {
    var n := |h| - 1;
    if n > 0 && h[n - 1].minute == h[n].minute {
      WindowIsOfMinute(h[..n]);
    }
  }

  lemma SumSnoc(ws: seq<seq<Call>>, w: seq<Call>, ts: Thresholds, minute: int, who: Who, what: What)
    requires w != []
    ensures SumPassed(ws + [w], ts, minute, who, what)
         == SumPassed(ws, ts, minute, who, what)
            + (if w[0].minute == minute then PassedIn(w, ts, who, what) else 0)
  {
    assert (ws + [w])[..|ws|] == ws;
  }

  /** The window that the last call of `h` joins or opens. */
  lemma LastWindow(h: seq<Call>, ts: Thresholds, who: Who, what: What)
    requires h != []
    ensures var n := |h| - 1;
      PassedIn(Window(h), ts, who, what) ==
      (if n > 0 && h[n - 1].minute == h[n].minute then PassedIn(Window(h[..n]), ts, who, what) else 0)
      + (if Concerns(h[n], who, what) && Admitted(h, ts) then 1 else 0)
  {
    var n := |h| - 1;
    WindowIsOfMinute(h);
    if n > 0 && h[n - 1].minute == h[n].minute {
      assert Window(h)[..|Window(h)| - 1] == Window(h[..n]);
    } else {
      assert Window(h)[..0] == [];
    }
  }

  /** One more call changes the last window only, or opens one. */
  lemma SumStep(h: seq<Call>, ts: Thresholds, minute: int, who: Who, what: What)
    requires h != []
    ensures var n := |h| - 1;
      SumPassed(Windows(h), ts, minute, who, what)
      == SumPassed(Windows(h[..n]), ts, minute, who, what)
         + (if h[n].minute == minute && Concerns(h[n], who, what) && Admitted(h, ts) then 1 else 0)
  {
    var n := |h| - 1;
    var before, w := Windows(h[..n]), Window(h);
    var joined := n > 0 && h[n - 1].minute == h[n].minute;
    assert Windows(h) == (if joined then before[..|before| - 1] else before) + [w];
    assert joined ==> before != [] && before[|before| - 1] == Window(h[..n]);
    hide *;
    LastWindow(h, ts, who, what);
    WindowIsOfMinute(h);
    if joined {
      var m := |before| - 1;
      assert before == before[..m] + [Window(h[..n])];
      WindowIsOfMinute(h[..n]);
      SumSnoc(before[..m], Window(h[..n]), ts, minute, who, what);
      SumSnoc(before[..m], w, ts, minute, who, what);
    } else {
      SumSnoc(before, w, ts, minute, who, what);
    }
  }

  /** For every history, clock and thresholds: the requests of a command that pass in a minute are those
      that pass in each of its windows taken by itself. */
  lemma {:induction false} SumOverWindows(h: seq<Call>, ts: Thresholds, minute: int, who: Who, what: What)
    ensures AdmittedIn(h, ts, minute, who, what) == SumPassed(Windows(h), ts, minute, who, what)
    decreases |h|
  {
    if h != [] {
      hide Window, Windows, SumPassed, Admitted, Concerns;
      SumStep(h, ts, minute, who, what);
      SumOverWindows(h[..|h| - 1], ts, minute, who, what);
    } else {
      assert Windows(h) == [];
    }
  }

  /** Both limits of `t` leave room for client `c` at the end of `w`. */
  predicate HasRoom(w: seq<Call>, c: Client, t: Threshold) {
    Within(Count(w, OneClient(c), AnyCommand), t.individual) && Within(|w|, t.overall)
  }

  /** The longest part of a window, from its start, that leaves room. */
  function RoomFor(w: seq<Call>, c: Client, t: Threshold): (r: seq<Call>)
    ensures r <= w && (r == [] || HasRoom(r, c, t))
  {
    if w == [] || HasRoom(w, c, t) then w else RoomFor(w[..|w| - 1], c, t)
  }

  /** A client's requests of a command that pass in a window are those in that part of it. */
  lemma {:induction false} WindowPasses(w: seq<Call>, ts: Thresholds, c: Client, command: Command)
    ensures PassedIn(w, ts, OneClient(c), OneCommand(command))
         == Count(RoomFor(w, c, ts(command)), OneClient(c), OneCommand(command))
    decreases |w|
  {
    if w != [] {
      var n, t := |w| - 1, ts(command);
      WindowPasses(w[..n], ts, c, command);
      if HasRoom(w, c, t) {
        assert HasRoom(w[..n], c, t);
        assert RoomFor(w[..n], c, t) == w[..n];
      }
    }
  }

  /** The sum of these over the windows of a minute. */
  function SumInRoom(ws: seq<seq<Call>>, t: Threshold, minute: int, c: Client, command: Command): nat {
    if ws == [] then 0
    else
      var n := |ws| - 1;
      SumInRoom(ws[..n], t, minute, c, command)
      + (if ws[n] != [] && ws[n][0].minute == minute
         then Count(RoomFor(ws[n], c, t), OneClient(c), OneCommand(command)) else 0)
  }

  lemma {:induction false} SumsAgree(ws: seq<seq<Call>>, ts: Thresholds, minute: int, c: Client, command: Command)
    ensures SumPassed(ws, ts, minute, OneClient(c), OneCommand(command))
         == SumInRoom(ws, ts(command), minute, c, command)
    decreases |ws|
  {
    if ws != [] {
      var n := |ws| - 1;
      SumsAgree(ws[..n], ts, minute, c, command);
      WindowPasses(ws[n], ts, c, command);
    }
  }

  /** How many requests of a command a client gets through in a minute, for every history, every clock and
      all thresholds: in each window of the minute those that come while both limits leave room. */
  lemma PassedInMinute(h: seq<Call>, ts: Thresholds, minute: int, c: Client, command: Command)
    ensures AdmittedIn(h, ts, minute, OneClient(c), OneCommand(command))
         == SumInRoom(Windows(h), ts(command), minute, c, command)
  {
    SumOverWindows(h, ts, minute, OneClient(c), OneCommand(command));
    SumsAgree(Windows(h), ts, minute, c, command);
  }

  /** Within a window a command's threshold holds. */
  lemma {:induction false} WindowHolds(w: seq<Call>, ts: Thresholds, command: Command, who: Who)
    requires Limit(ts(command), who) > 0
    ensures PassedIn(w, ts, who, OneCommand(command)) <= Count(w, who, OneCommand(command)) <= Count(w, who, AnyCommand)
    ensures PassedIn(w, ts, who, OneCommand(command)) <= Limit(ts(command), who)
    decreases |w|
  {
    if w != [] {
      var n := |w| - 1;
      WindowHolds(w[..n], ts, command, who);
      AnyoneIsAll(w);
      assert who.OneClient? && Concerns(w[n], who, AnyCommand) ==> who == OneClient(w[n].client);
    }
  }

  lemma TimesMore(k: nat, n: int)
    ensures (k + 1) * n == k * n + n
  {
  }

  lemma {:induction false} SumHolds(ws: seq<seq<Call>>, ts: Thresholds, command: Command, minute: int, who: Who)
    requires Limit(ts(command), who) > 0
    ensures SumPassed(ws, ts, minute, who, OneCommand(command)) <= Openings(ws, minute) * Limit(ts(command), who)
    decreases |ws|
  {
    if ws != [] {
      var n := |ws| - 1;
      SumHolds(ws[..n], ts, command, minute, who);
      WindowHolds(ws[n], ts, command, who);
      TimesMore(Openings(ws[..n], minute), Limit(ts(command), who));
    }
  }

  /** So under any clock a command lets through at most its threshold for each time the minute was opened. */
  lemma ThrottleTimesOpenings(h: seq<Call>, ts: Thresholds, command: Command, minute: int, who: Who)
    requires Limit(ts(command), who) > 0
    ensures AdmittedIn(h, ts, minute, who, OneCommand(command))
         <= Openings(Windows(h), minute) * Limit(ts(command), who)
  {
    SumOverWindows(h, ts, minute, who, OneCommand(command));
    SumHolds(Windows(h), ts, command, minute, who);
  }

  // ----- whose requests a threshold counts

  /** A threshold is documented to count the requests of its own command. */
  predicate AdmittedAsDocumented(h: seq<Call>, ts: Thresholds)
    requires h != []
  {
    var w, last := Window(h), h[|h| - 1];
    !CheckEvasive(Count(w, OneClient(last.client), OneCommand(last.command)),
                  Count(w, Anyone, OneCommand(last.command)), ts(last.command))
  }

  lemma {:induction false} OwnCommandIff(w: seq<Call>, who: Who, command: Command)
    ensures Count(w, who, OneCommand(command)) <= Count(w, who, AnyCommand)
    ensures Count(w, who, OneCommand(command)) == Count(w, who, AnyCommand)
       <==> forall i :: 0 <= i < |w| && Concerns(w[i], who, AnyCommand) ==> w[i].command == command
    decreases |w|
  {
    if w != [] {
      var n := |w| - 1;
      OwnCommandIff(w[..n], who, command);
      assert forall i :: 0 <= i < n ==> w[..n][i] == w[i];
    }
  }

  /** The shared counters make the throttle stricter than documented, never laxer; the counters it reads
      are the documented ones if and only if no request of another command stands in the window. */
  lemma SharedCounters(h: seq<Call>, ts: Thresholds)
    requires h != []
    ensures Admitted(h, ts) ==> AdmittedAsDocumented(h, ts)
    ensures var w, last := Window(h), h[|h| - 1];
      && (Count(w, OneClient(last.client), AnyCommand) == Count(w, OneClient(last.client), OneCommand(last.command))
          <==> forall i :: 0 <= i < |w| && w[i].client == last.client ==> w[i].command == last.command)
      && (|w| == Count(w, Anyone, OneCommand(last.command))
          <==> forall i :: 0 <= i < |w| ==> w[i].command == last.command)
  {
    var w, last := Window(h), h[|h| - 1];
    OwnCommandIff(w, OneClient(last.client), last.command);
    OwnCommandIff(w, Anyone, last.command);
    AnyoneIsAll(w);
  }

  /** The same decision, while the clock does not go back, over the calls of the minute. */
  lemma DocumentedDecision(h: seq<Call>, ts: Thresholds)
    requires h != [] && MinutesForward(h)
    ensures var last := h[|h| - 1];
      AdmittedAsDocumented(h, ts) <==> FitsMinute(h, ts(last.command), OneCommand(last.command))
  {
    var last := h[|h| - 1];
    ForwardCountsMinute(h, OneClient(last.client), OneCommand(last.command));
    ForwardCountsMinute(h, Anyone, OneCommand(last.command));
  }

  /** The requests of a command that should pass according to the documentation. */
  function DocumentedIn(h: seq<Call>, ts: Thresholds, minute: int, who: Who, command: Command): nat {
    if h == [] then 0
    else
      var n := |h| - 1;
      DocumentedIn(h[..n], ts, minute, who, command)
      + (if && h[n].minute == minute && Concerns(h[n], who, OneCommand(command))
            && AdmittedAsDocumented(h, ts) then 1 else 0)
  }

  /** The requests of a command for which its limits leave room over its own requests of the minute, but not
      over those of all commands. */
  function SqueezedOut(h: seq<Call>, ts: Thresholds, minute: int, who: Who, command: Command): nat {
    if h == [] then 0
    else
      var n := |h| - 1;
      SqueezedOut(h[..n], ts, minute, who, command)
      + (if && h[n].minute == minute && Concerns(h[n], who, OneCommand(command))
            && FitsMinute(h, ts(command), OneCommand(command)) && !FitsMinute(h, ts(command), AnyCommand)
         then 1 else 0)
  }

  /** For all thresholds: the requests of a command that pass, and those that others squeeze out, are those
      documented to pass. So as many pass as documented if and only if none is squeezed out. */
  lemma {:induction false} DocumentedIff(h: seq<Call>, ts: Thresholds, command: Command, minute: int, who: Who)
    requires MinutesForward(h)
    ensures AdmittedIn(h, ts, minute, who, OneCommand(command)) + SqueezedOut(h, ts, minute, who, command)
         == DocumentedIn(h, ts, minute, who, command)
    ensures AdmittedIn(h, ts, minute, who, OneCommand(command)) == DocumentedIn(h, ts, minute, who, command)
       <==> SqueezedOut(h, ts, minute, who, command) == 0
    decreases |h|
  {
    if h != [] {
      var n := |h| - 1;
      DocumentedIff(h[..n], ts, command, minute, who);
      if h[n].minute == minute && Concerns(h[n], who, OneCommand(command)) {
        AdmittedIff(h, ts);
        DocumentedDecision(h, ts);
        SharedCounters(h, ts);
      }
    }
  }

  /** What the documentation promises: of a client's requests of a command the first pass, up to its
      threshold, unless the overall limit is met, which counts requests of that command only. */
  lemma {:induction false} DocumentedCount(h: seq<Call>, ts: Thresholds, command: Command, minute: int, c: Client)
    requires MinutesForward(h) && ts(command).individual > 0
    requires Within(CountIn(h, minute, Anyone, OneCommand(command)), ts(command).overall)
    ensures DocumentedIn(h, ts, minute, OneClient(c), command)
         == Least(CountIn(h, minute, OneClient(c), OneCommand(command)), ts(command).individual)
    decreases |h|
  {
    if h != [] {
      var n := |h| - 1;
      DocumentedCount(h[..n], ts, command, minute, c);
      if h[n].minute == minute && Concerns(h[n], OneClient(c), OneCommand(command)) {
        DocumentedDecision(h, ts);
      }
    }
  }

  // ----- where it goes wrong

  /** A clock that goes back reopens a minute: with a threshold of one, two requests pass. */
  lemma ClockMustNotGoBack(ts: Thresholds)
    requires ts(Get).individual == 1 && Within(2, ts(Get).overall)
    ensures var h := [Call(0, "a", Get), Call(1, "a", Get), Call(0, "a", Get)];
      && HeldTo(h, ts, 0, OneClient("a"), 1) && Reopened(h, 0, OneClient("a"))
      && AdmittedIn(h, ts, 0, OneClient("a"), AnyCommand) == 2
  {
    var a, b, who := Call(0, "a", Get), Call(1, "a", Get), OneClient("a");
    var h := [a, b, a];
    assert h[..2] == [a, b] && [a, b][..1] == [a] && [a][..0] == [];
    assert Window([a]) == [a] && Window([a, b]) == [b] && Window(h) == [a];
    assert Count([a], who, AnyCommand) == 1;
    assert CountIn([a], 0, who, AnyCommand) == 1 && CountIn([a, b], 0, who, AnyCommand) == 1;
    assert CountIn([a], 0, Anyone, AnyCommand) == 1 && CountIn([a, b], 0, Anyone, AnyCommand) == 1;
    assert AdmittedIn([a], ts, 0, who, AnyCommand) == 1;
    assert AdmittedIn([a, b], ts, 0, who, AnyCommand) == 1;
  }

  lemma TwoCalls(a: Call, b: Call, who: Who, what: What)
    requires a.minute == b.minute
    ensures [a, b][..1] == [a] && [a][..0] == []
    ensures Window([a, b]) == [a, b]
    ensures Count([a, b], who, what)
         == (if Concerns(a, who, what) then 1 else 0) + (if Concerns(b, who, what) then 1 else 0)
  {
    assert [a, b][..1] == [a] && [a][..0] == [];
    assert Window([a]) == [a];
    assert Count([a], who, what) == Count([], who, what) + (if Concerns(a, who, what) then 1 else 0);
  }

  /** Sums over a history of two calls. */
  lemma TwoSums(a: Call, b: Call, ts: Thresholds, minute: int, who: Who, command: Command)
    requires a.minute == b.minute && !Concerns(a, who, OneCommand(command))
    requires b.minute == minute && Concerns(b, who, OneCommand(command))
    ensures AdmittedIn([a, b], ts, minute, who, OneCommand(command)) == (if Admitted([a, b], ts) then 1 else 0)
    ensures DocumentedIn([a, b], ts, minute, who, command) == (if AdmittedAsDocumented([a, b], ts) then 1 else 0)
  {
    hide Admitted, AdmittedAsDocumented;
    assert [a, b][..1] == [a] && [a][..0] == [];
    var own := OneCommand(command);
    assert AdmittedIn([a], ts, minute, who, own) == AdmittedIn([], ts, minute, who, own);
    assert DocumentedIn([a], ts, minute, who, command) == DocumentedIn([], ts, minute, who, command);
  }

  /** One `next` request uses up the threshold of `get`: the only `get` of the minute does not pass. */
  lemma CommandsShareCounters(ts: Thresholds)
    requires ts(Get).individual == 1 && Within(1, ts(Get).overall)
    ensures var h := [Call(0, "a", Next), Call(0, "a", Get)];
      && !Admitted(h, ts) && AdmittedAsDocumented(h, ts)
      && AdmittedIn(h, ts, 0, OneClient("a"), OneCommand(Get)) == 0
      && DocumentedIn(h, ts, 0, OneClient("a"), Get) == 1 && SqueezedOut(h, ts, 0, OneClient("a"), Get) == 1
  {
    var a, b, who := Call(0, "a", Next), Call(0, "a", Get), OneClient("a");
    TwoCalls(a, b, who, AnyCommand);
    TwoCalls(a, b, who, OneCommand(Get));
    TwoCalls(a, b, Anyone, OneCommand(Get));
    hide Count, Window, AdmittedIn, DocumentedIn, SqueezedOut, CountIn;
    TwoSums(a, b, ts, 0, who, Get);
    DocumentedIff([a, b], ts, Get, 0, who);
  }
}
