/** The event log of an attack session (`add_event` of conpot/core/attack_session.py). */
module AttackSession {
  import opened Common

  /** `while elapse_ms in self.data: elapse_ms += 1` */
  function FirstFree(keys: set<int>, k: int): (r: int)
    ensures r >= k && r !in keys
    ensures forall x :: k <= x < r ==> x in keys
    decreases |keys|
  {
    if k !in keys then k
    else
      var r := FirstFree(keys - {k}, k + 1);
      assert forall x :: k <= x < r ==> x in keys by {
        forall x | k <= x < r ensures x in keys {
          assert x == k || x in keys - {k};
        }
      }
      r
  }

  /** An event and the milliseconds the clock shows when it is added. */
  datatype Entry<E> = Entry(elapsed: int, event: E)

  /** The keys that a history of calls picks. */
  function PickedKeys<E>(h: seq<Entry<E>>): (ks: seq<int>)
    ensures |ks| == |h|
  {
    if h == [] then []
    else
      var before := PickedKeys(h[..|h| - 1]);
      before + [FirstFree(KeySet(before), h[|h| - 1].elapsed)]
  }

  function KeySet(ks: seq<int>): set<int> {
    set k | k in ks
  }

  function Events<E>(h: seq<Entry<E>>): (es: seq<E>)
    ensures |es| == |h| && forall i :: 0 <= i < |h| ==> es[i] == h[i].event
  {
    seq(|h|, i requires 0 <= i < |h| => h[i].event)
  }

  /** The log holds every event of the history under its own key. */
  ghost predicate Records<E>(data: map<int, E>, h: seq<Entry<E>>) {
    var ks := PickedKeys(h);
    && data.Keys == KeySet(ks)
    && forall i :: 0 <= i < |h| ==> ks[i] in data && data[ks[i]] == h[i].event
  }

  class Session<E> {
    var data: map<int, E>
    var logQueue: seq<E>

    constructor ()
      ensures Records(data, []) && logQueue == []
    {
      data := map[];
      logQueue := [];
    }

    /** The probing loop of `add_event`. */
    method Probe(elapsed: int) returns (elapseMs: int)
      ensures elapseMs == FirstFree(data.Keys, elapsed)
    {
      elapseMs := elapsed;
      while elapseMs in data
        invariant elapsed <= elapseMs <= FirstFree(data.Keys, elapsed)
        invariant forall x :: elapsed <= x < elapseMs ==> x in data
        decreases FirstFree(data.Keys, elapsed) - elapseMs
      {
        elapseMs := elapseMs + 1;
      }
    }

    /** `add_event`; `h` are the calls so far. Nothing already recorded is overwritten. */
    method AddEvent(elapsed: int, event: E, ghost h: seq<Entry<E>>)
      requires Records(data, h) && logQueue == Events(h)
      modifies this
      ensures Records(data, h + [Entry(elapsed, event)]) && logQueue == Events(h + [Entry(elapsed, event)])
      ensures |data| == |old(data)| + 1 && forall k :: k in old(data) ==> k in data && data[k] == old(data)[k]
    {
      RecordsStep(data, h, Entry(elapsed, event));
      var elapseMs := Probe(elapsed);
      data := data[elapseMs := event];
      logQueue := logQueue + [event];
    }
  }

  lemma RecordsStep<E>(data: map<int, E>, h: seq<Entry<E>>, entry: Entry<E>)
    requires Records(data, h)
    ensures Records(data[FirstFree(data.Keys, entry.elapsed) := entry.event], h + [entry])
  {
    var ks, k := PickedKeys(h), FirstFree(data.Keys, entry.elapsed);
    var h', data' := h + [entry], data[k := entry.event];
    assert h'[..|h|] == h;
    var ks' := PickedKeys(h');
    assert ks' == ks + [k];
    KeySetSnoc(ks, k);
    assert data'.Keys == data.Keys + {k};
    forall i | 0 <= i < |h'| ensures ks'[i] in data' && data'[ks'[i]] == h'[i].event {
      if i < |h| {
        assert ks'[i] == ks[i] && ks[i] in data;
      }
    }
  }

  lemma KeySetSnoc(ks: seq<int>, k: int)
    ensures KeySet(ks + [k]) == KeySet(ks) + {k}
  {
  }

  predicate Increasing(ks: seq<int>) {
    forall i, j :: 0 <= i < j < |ks| ==> ks[i] < ks[j]
  }

  /** Each call finds every millisecond from its own up to the newest key taken. */
  predicate NoGaps<E>(h: seq<Entry<E>>) {
    h == [] || (NoGaps(h[..|h| - 1]) && NoGapBefore(PickedKeys(h[..|h| - 1]), h[|h| - 1].elapsed))
  }

  /** What a caller can check before adding an event at `elapsed`. */
  predicate NoGapBefore(ks: seq<int>, elapsed: int) {
    ks != [] ==> forall x :: elapsed <= x <= ks[|ks| - 1] ==> x in KeySet(ks)
  }

  lemma LastIsGreatest(ks: seq<int>, x: int)
    requires Increasing(ks) && x in KeySet(ks)
    ensures ks != [] && x <= ks[|ks| - 1]
  {
  }

  /** The keys come out in the order of the calls if and only if no call leaves a free millisecond
      behind the newest key. */
  lemma {:induction false} InOrderIffNoGaps<E>(h: seq<Entry<E>>)
    ensures Increasing(PickedKeys(h)) <==> NoGaps(h)
    decreases |h|
  {
    if h != [] {
      var n := |h| - 1;
      var before, ks := PickedKeys(h[..n]), PickedKeys(h);
      InOrderIffNoGaps(h[..n]);
      assert ks[..n] == before;
      if Increasing(before) {
        if n > 0 {
          assert before[n - 1] in KeySet(before);
          NewKeyIsGreatest(before, h[n].elapsed);
        }
        assert Increasing(ks) <==> (n > 0 ==> before[n - 1] < ks[n]);
      } else {
        var i, j :| 0 <= i < j < n && before[i] >= before[j];
        assert ks[i] == before[i] && ks[j] == before[j];
      }
    }
  }

  lemma NewKeyIsGreatest(ks: seq<int>, elapsed: int)
    requires ks != [] && Increasing(ks)
    ensures ks[|ks| - 1] < FirstFree(KeySet(ks), elapsed) <==> NoGapBefore(ks, elapsed)
  {
    var r := FirstFree(KeySet(ks), elapsed);
    if r <= ks[|ks| - 1] {
      assert elapsed <= r && r !in KeySet(ks);
    }
  }

  predicate ClockForward<E>(h: seq<Entry<E>>) {
    forall i, j :: 0 <= i < j < |h| ==> h[i].elapsed <= h[j].elapsed
  }

  /** With every millisecond from `previous` to the newest key taken, the next key is where it should be. */
  lemma NextKey(ks: seq<int>, previous: int, elapsed: int)
    requires ks != [] && Increasing(ks) && previous <= elapsed
    requires forall x :: previous <= x <= ks[|ks| - 1] ==> x in KeySet(ks)
    ensures var r := FirstFree(KeySet(ks), elapsed);
      && r == Greatest(elapsed, ks[|ks| - 1] + 1)
      && Increasing(ks + [r])
      && forall x :: elapsed <= x <= r ==> x in KeySet(ks + [r])
  {
    var next := Greatest(elapsed, ks[|ks| - 1] + 1);
    assert next !in KeySet(ks) by {
      if next in KeySet(ks) {
        LastIsGreatest(ks, next);
      }
    }
    var r := FirstFree(KeySet(ks), elapsed);
    assert r !in KeySet(ks);
    assert r <= ks[|ks| - 1] ==> r in KeySet(ks);
    assert r > next ==> next in KeySet(ks);
    KeySetSnoc(ks, r);
  }

  /** If the clock does not go back, the keys come in order and every millisecond from the last call's
      own up to its key is taken. */
  lemma {:induction false} ForwardClockFills<E>(h: seq<Entry<E>>)
    requires ClockForward(h)
    ensures Increasing(PickedKeys(h))
    ensures h != [] ==>
      forall x :: h[|h| - 1].elapsed <= x <= PickedKeys(h)[|h| - 1] ==> x in KeySet(PickedKeys(h))
    decreases |h|
  {
    if h != [] {
      var n := |h| - 1;
      var before, k := PickedKeys(h[..n]), PickedKeys(h)[n];
      ForwardClockFills(h[..n]);
      assert PickedKeys(h) == before + [k];
      if n > 0 {
        NextKey(before, h[n - 1].elapsed, h[n].elapsed);
      }
    }
  }

  /** Each key is the larger of the elapsed time and the previous key plus one. */
  lemma {:induction false} ForwardClockKeys<E>(h: seq<Entry<E>>, i: nat)
    requires ClockForward(h) && i < |h|
    ensures PickedKeys(h)[i] == if i == 0 then h[0].elapsed else Greatest(h[i].elapsed, PickedKeys(h)[i - 1] + 1)
    decreases |h|
  {
    var n := |h| - 1;
    var before := PickedKeys(h[..n]);
    if i < n {
      ForwardClockKeys(h[..n], i);
      assert PickedKeys(h)[..n] == before;
      assert PickedKeys(h)[i] == before[i] && h[..n][i] == h[i];
      assert i > 0 ==> PickedKeys(h)[i - 1] == before[i - 1];
    } else if n > 0 {
      ForwardClockFills(h[..n]);
      NextKey(before, h[n - 1].elapsed, h[n].elapsed);
    }
  }

  /** Two increasing listings of the same keys are the same. */
  lemma {:induction false} SortedOnce(ks: seq<int>, js: seq<int>)
    requires Increasing(ks) && Increasing(js) && KeySet(ks) == KeySet(js)
    ensures ks == js
    decreases |ks|
  {
    assert ks != [] ==> ks[0] in KeySet(ks);
    assert js != [] ==> js[0] in KeySet(js);
    if ks != [] && js != [] {
      var n, m := |ks| - 1, |js| - 1;
      assert ks[n] in KeySet(ks) && js[m] in KeySet(js);
      LastIsGreatest(js, ks[n]);
      LastIsGreatest(ks, js[m]);
      assert KeySet(ks[..n]) == KeySet(ks) - {ks[n]} by {
        KeySetInit(ks);
      }
      assert KeySet(js[..m]) == KeySet(js) - {js[m]} by {
        KeySetInit(js);
      }
      SortedOnce(ks[..n], js[..m]);
    }
  }

  lemma KeySetInit(ks: seq<int>)
    requires ks != [] && Increasing(ks)
    ensures KeySet(ks[..|ks| - 1]) == KeySet(ks) - {ks[|ks| - 1]}
  {
    var n := |ks| - 1;
    KeySetSnoc(ks[..n], ks[n]);
    assert ks == ks[..n] + [ks[n]];
  }

  lemma ForwardClockHasNoGaps<E>(h: seq<Entry<E>>)
    requires ClockForward(h)
    ensures NoGaps(h)
  {
    ForwardClockFills(h);
    InOrderIffNoGaps(h);
  }

  /** Reading the log in key order, however its keys are sorted, gives exactly the events in the order
      they were put on the queue, provided there are no gaps. */
  lemma ReadInKeyOrder<E>(data: map<int, E>, h: seq<Entry<E>>, sorted: seq<int>)
    requires Records(data, h) && NoGaps(h)
    requires Increasing(sorted) && KeySet(sorted) == data.Keys
    ensures |sorted| == |h| && forall i :: 0 <= i < |h| ==> sorted[i] in data && data[sorted[i]] == Events(h)[i]
  {
    InOrderIffNoGaps(h);
    SortedOnce(sorted, PickedKeys(h));
  }

  /** Events filed at 5 and then at 3 milliseconds are read back in the wrong order. */
  lemma ClockGoesBack<E>(a: E, b: E)
    ensures var h := [Entry(5, a), Entry(3, b)];
      PickedKeys(h) == [5, 3] && !NoGaps(h)
  {
  }
}
