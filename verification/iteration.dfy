/** One iteration of the polling loop (gcalert.py:117-153) and what it
    keeps true from one iteration to the next.  The fetch, the clock and the
    alarm display are inputs and outputs: the iteration receives the fetched
    records and the current instant, and reports the records it alarmed. */
module Iteration {
  import opened Events
  import opened AddPhase
  import opened ScanPhase

  /** The two module-level lists (gcalert.py:41-42). */
  datatype State = State(events: seq<Event>, alarmed: seq<Event>)

  /** The program starts with both lists empty. */
  const Init := State([], [])

  /** What holds of the two lists in every reachable state: neither repeats a
      record, and every alarmed record is still pending. */
  predicate Inv(events: seq<Event>, alarmed: seq<Event>)
  {
    NoDup(events) && NoDup(alarmed) && forall x :: x in alarmed ==> x in events
  }

  /** One iteration: the add phase over the fetched records, then the pass
      over the grown pending list. */
  function StepSpec(events: seq<Event>, alarmed: seq<Event>, fetched: seq<Event>, now: int): (r: ScanResult)
  {
    ScanSpec(AddNew(events, fetched, now), alarmed, now)
  }

  /** Which records are pending after an iteration.  A record is newly pending
      only if it was fetched and starts after `now`; a fetched record that
      starts at or before `now` and was not pending is not added; every pending
      record that has not started, and every fetched record that starts after
      `now`, is pending afterwards, whether or not the fetch still reports it;
      the list stays duplicate-free even when
      the fetch repeats a record. */
  lemma StepPending(events: seq<Event>, alarmed: seq<Event>, fetched: seq<Event>, now: int)
    requires NoDup(events)
    ensures var r := StepSpec(events, alarmed, fetched, now);
            && NoDup(r.kept)
            && (forall x :: x in r.kept && x !in events ==> x in fetched && now < x.start)
            && (forall x :: x in fetched && x.start <= now && x !in events ==> x !in r.kept)
            && (forall x :: x in events && !Past(x, now) ==> x in r.kept)
            && (forall x :: x in fetched && now < x.start ==> x in r.kept)
  {
    var added := AddNew(events, fetched, now);
    AddNewMeaning(events, fetched, now);
    ScanKeeps(added, alarmed, now);
    ScanKeepsNoDup(added, alarmed, now);
  }

  /** Eviction: a pending record that leaves the list had started before
      `now`, and it leaves the alarmed list too.  A record that had started
      stays pending only when the pass stepped over it. */
  lemma StepEvicts(events: seq<Event>, alarmed: seq<Event>, fetched: seq<Event>, now: int)
    requires NoDup(events) && NoDup(alarmed)
    ensures var r := StepSpec(events, alarmed, fetched, now);
            && (forall x :: x in events && x !in r.kept ==> Past(x, now) && x !in r.alarmed)
            && (forall x :: x in r.kept && Past(x, now) ==>
                  SteppedOver(AddNew(events, fetched, now), r.kept, x, now))
  {
    var added := AddNew(events, fetched, now);
    AddNewMeaning(events, fetched, now);
    ScanKeeps(added, alarmed, now);
    ScanStepsOver(added, alarmed, now);
    ScanFires(added, alarmed, now);
    ScanAlarmed(added, alarmed, now);
  }

  /** Alarms.  An alarm is raised only for a record that is pending, was not
      alarmed, has not started and whose reminder time has come; it is then
      alarmed.  No record is alarmed twice in one iteration, a record already
      alarmed is not alarmed again, and a record whose reminder time has not
      come stays pending, unalarmed if it was.  A due record that was neither
      alarmed nor started is alarmed unless the pass stepped over it. */
  lemma StepAlarms(events: seq<Event>, alarmed: seq<Event>, fetched: seq<Event>, now: int)
    requires NoDup(events) && NoDup(alarmed)
    ensures var r := StepSpec(events, alarmed, fetched, now);
            && (forall x :: x in r.fired ==>
                  x in r.kept && x in r.alarmed && x !in alarmed && !Past(x, now) && AlarmAt(x) <= now)
            && NoDup(r.fired)
            && (forall x :: x in alarmed ==> x !in r.fired)
            && (forall x :: x in events && TooEarly(x, now) ==>
                  x in r.kept && x !in r.fired && (x in r.alarmed <==> x in alarmed))
            && (forall x :: x in AddNew(events, fetched, now) && !Past(x, now) && Fires(x, alarmed, now) ==>
                  (x in r.fired <==> !SteppedOver(AddNew(events, fetched, now), r.kept, x, now)))
  {
    var added := AddNew(events, fetched, now);
    AddNewMeaning(events, fetched, now);
    ScanKeeps(added, alarmed, now);
    ScanFires(added, alarmed, now);
    ScanAlarmed(added, alarmed, now);
    ScanFiresDue(added, alarmed, now);
  }

  /** An iteration keeps the state invariant: no repeats in either list, and
      every alarmed record pending. */
  lemma StepKeepsInv(events: seq<Event>, alarmed: seq<Event>, fetched: seq<Event>, now: int)
    requires Inv(events, alarmed)
    ensures var r := StepSpec(events, alarmed, fetched, now);
            Inv(r.kept, r.alarmed)
  {
    var added := AddNew(events, fetched, now);
    var r := StepSpec(events, alarmed, fetched, now);
    AddNewMeaning(events, fetched, now);
    ScanKeeps(added, alarmed, now);
    ScanKeepsNoDup(added, alarmed, now);
    ScanFires(added, alarmed, now);
    ScanAlarmed(added, alarmed, now);
    forall x | x in r.alarmed ensures x in r.kept {
      if x in alarmed {
        assert x in added;
      }
    }
  }

  /** One iteration as the loop body runs it: the add loop, then the pass over
      the list it produced.  The records handed to the alarm display are
      returned in `fired`. */
  method Step(events: seq<Event>, alarmed: seq<Event>, fetched: seq<Event>, now: int)
    returns (events': seq<Event>, alarmed': seq<Event>, fired: seq<Event>)
    requires NoDup(events)
    ensures ScanResult(events', alarmed', fired) == StepSpec(events, alarmed, fetched, now)
    ensures NoDup(events')
    ensures forall x :: x in events' && x !in events ==> x in fetched && now < x.start
    ensures forall x :: x in events && !Past(x, now) ==> x in events'
    ensures Inv(events, alarmed) ==> Inv(events', alarmed')
    ensures forall x :: x in fired ==> x in events' && x !in alarmed && !Past(x, now) && AlarmAt(x) <= now
  {
    var pending := AddFetched(events, fetched, now);
    events', alarmed', fired := Scan(pending, alarmed, now);
    StepPending(events, alarmed, fetched, now);
    AddNewMeaning(events, fetched, now);
    ScanFires(pending, alarmed, now);
    if Inv(events, alarmed) {
      StepKeepsInv(events, alarmed, fetched, now);
    }
  }

  /** One polling iteration's inputs: the fetched records and the instant. */
  datatype Tick = Tick(fetched: seq<Event>, now: int)

  /** The state after a run of iterations together with every record alarmed
      along the way, in order. */
  datatype Trace = Trace(state: State, fired: seq<Event>)

  /** The state and the alarms after running the iterations `ticks` from `s`. */
  function Run(s: State, ticks: seq<Tick>): (tr: Trace)
    decreases |ticks|
  {
    if ticks == [] then Trace(s, [])
    else
      var prior := Run(s, ticks[..|ticks| - 1]);
      var t := ticks[|ticks| - 1];
      var r := StepSpec(prior.state.events, prior.state.alarmed, t.fetched, t.now);
      Trace(State(r.kept, r.alarmed), prior.fired + r.fired)
  }

  /** The clock reading never decreases from one iteration to the next. */
  predicate Monotone(ticks: seq<Tick>)
  {
    forall i, j :: 0 <= i < j < |ticks| ==> ticks[i].now <= ticks[j].now
  }

  /** Every state a run from the empty lists reaches satisfies the
      invariant. */
  lemma {:induction false} RunKeepsInv(ticks: seq<Tick>)
    ensures Inv(Run(Init, ticks).state.events, Run(Init, ticks).state.alarmed)
    decreases |ticks|
  {
    if ticks != [] {
      var prior := Run(Init, ticks[..|ticks| - 1]);
      RunKeepsInv(ticks[..|ticks| - 1]);
      var t := ticks[|ticks| - 1];
      StepKeepsInv(prior.state.events, prior.state.alarmed, t.fetched, t.now);
    }
  }

  /** What a run keeps about the records it has alarmed: each is either
      still pending and alarmed, or gone from the pending list with a start
      before the last clock reading `now`, so no later fetch adds it back. */
  ghost predicate AlarmedHistory(s: State, fired: seq<Event>, now: int)
  {
    && Inv(s.events, s.alarmed)
    && NoDup(fired)
    && forall x :: x in fired ==> x in s.alarmed || (x !in s.events && x.start < now)
  }

  /** One iteration at a clock reading no earlier than the previous one keeps
      the alarmed history. */
  lemma StepKeepsHistory(s: State, fired: seq<Event>, prev: int, t: Tick)
    requires AlarmedHistory(s, fired, prev) && prev <= t.now
    ensures var r := StepSpec(s.events, s.alarmed, t.fetched, t.now);
            AlarmedHistory(State(r.kept, r.alarmed), fired + r.fired, t.now)
  {
    var r := StepSpec(s.events, s.alarmed, t.fetched, t.now);
    var added := AddNew(s.events, t.fetched, t.now);
    AddNewMeaning(s.events, t.fetched, t.now);
    StepKeepsInv(s.events, s.alarmed, t.fetched, t.now);
    StepAlarms(s.events, s.alarmed, t.fetched, t.now);
    ScanKeeps(added, s.alarmed, t.now);
    ScanAlarmed(added, s.alarmed, t.now);
    forall x | x in fired ensures x !in r.fired {
      if x !in s.alarmed {
        assert x !in added;
      }
    }
    NoDupConcat(fired, r.fired);
    forall x | x in fired + r.fired
      ensures x in r.alarmed || (x !in r.kept && x.start < t.now)
    {
      if x in fired && x !in r.fired {
        if x in s.alarmed {
          assert x in added;
        } else {
          assert x !in added;
        }
      }
    }
  }

  /** Joining two duplicate-free lists with no common record gives a
      duplicate-free list. */
  lemma NoDupConcat(a: seq<Event>, b: seq<Event>)
    requires NoDup(a) && NoDup(b) && forall x :: x in a ==> x !in b
    ensures NoDup(a + b)
  {
    forall i, j | 0 <= i < j < |a + b| ensures (a + b)[i] != (a + b)[j] {
      if i < |a| && j >= |a| {
        assert (a + b)[i] in a && (a + b)[j] == b[j - |a|];
      } else if i >= |a| {
        assert (a + b)[i] == b[i - |a|] && (a + b)[j] == b[j - |a|];
      }
    }
  }

  /** At most once: over any run from the empty lists with a clock that never
      goes back, no record is handed to the alarm display twice.  A record
      stays alarmed while pending, and once evicted its start lies before
      every later clock reading, so the add phase never takes it back. */
  lemma {:induction false} AlarmAtMostOnce(ticks: seq<Tick>)
    requires Monotone(ticks)
    ensures NoDup(Run(Init, ticks).fired)
    decreases |ticks|
  {
    if ticks != [] {
      HistoryAlongRun(ticks);
    }
  }

  /** The alarmed history holds after every non-empty monotone run, measured
      at its last clock reading. */
  lemma {:induction false} HistoryAlongRun(ticks: seq<Tick>)
    requires Monotone(ticks) && ticks != []
    ensures AlarmedHistory(Run(Init, ticks).state, Run(Init, ticks).fired, ticks[|ticks| - 1].now)
    decreases |ticks|
  {
    var front := ticks[..|ticks| - 1];
    var t := ticks[|ticks| - 1];
    var prior := Run(Init, front);
    if front == [] {
      assert AlarmedHistory(Init, [], t.now);
      StepKeepsHistory(Init, [], t.now, t);
    } else {
      assert Monotone(front);
      HistoryAlongRun(front);
      var prev := front[|front| - 1].now;
      assert prev == ticks[|ticks| - 2].now;
      StepKeepsHistory(prior.state, prior.fired, prev, t);
    }
  }
}
