/** The pass the comments at gcalert.py:132 and 140-144 describe: every
    pending record is examined once, so every record that has started is
    evicted and every due record is alarmed in the same iteration.  The loop
    as written steps over the record behind each evicted one; the lemmas at
    the end exhibit that difference on two concrete records. */
module IntendedScan {
  import opened Events
  import opened AddPhase
  import opened ScanPhase
  import opened Iteration

  /** The pass over `es` with every record examined. */
  function IdealScan(es: seq<Event>, al: seq<Event>, now: int): (res: ScanResult)
    decreases |es|
  {
    if es == [] then ScanResult([], al, [])
    else
      var e := es[0];
      if Past(e, now) then IdealScan(es[1..], Forget(al, e), now)
      else if Fires(e, al, now) then
        var rest := IdealScan(es[1..], al + [e], now);
        ScanResult([e] + rest.kept, rest.alarmed, [e] + rest.fired)
      else
        var rest := IdealScan(es[1..], al, now);
        ScanResult([e] + rest.kept, rest.alarmed, rest.fired)
  }

  /** The examine-everything pass keeps exactly the records that have not
      started and alarms exactly the ones among them that are due and not yet
      alarmed; a record is alarmed afterwards exactly when it was alarmed and
      not evicted, or was just alarmed. */
  lemma {:induction false} IdealScanMeaning(es: seq<Event>, al: seq<Event>, now: int)
    requires NoDup(es) && NoDup(al)
    ensures forall x :: x in IdealScan(es, al, now).kept <==> x in es && !Past(x, now)
    ensures forall x :: x in IdealScan(es, al, now).fired <==> x in es && !Past(x, now) && Fires(x, al, now)
    ensures forall x :: x in IdealScan(es, al, now).alarmed <==>
              (x in al && (x in IdealScan(es, al, now).kept || x !in es)) || x in IdealScan(es, al, now).fired
    ensures NoDup(IdealScan(es, al, now).kept) && NoDup(IdealScan(es, al, now).alarmed)
    decreases |es|
  {
    if es != [] {
      SplitHead(es);
      var e := es[0];
      var rest := es[1..];
      if Past(e, now) {
        var al' := Forget(al, e);
        assert forall y :: y != e ==> (y in al' <==> y in al);
        IdealScanMeaning(rest, al', now);
      } else {
        var al' := if Fires(e, al, now) then al + [e] else al;
        if Fires(e, al, now) {
          AppendFreshNoDup(al, e);
        }
        IdealScanMeaning(rest, al', now);
        var r' := IdealScan(rest, al', now);
        AppendFrontNoDup(e, r'.kept);
        forall x | x in rest ensures Fires(x, al', now) <==> Fires(x, al, now) {
          assert x != e;
        }
      }
    }
  }

  /** One iteration with the examine-everything pass. */
  function IntendedStep(events: seq<Event>, alarmed: seq<Event>, fetched: seq<Event>, now: int): (r: ScanResult)
  {
    IdealScan(AddNew(events, fetched, now), alarmed, now)
  }

  /** With the examine-everything pass an iteration evicts every record that
      has started, keeps every other pending or newly admitted record, alarms
      every due record that was not alarmed, and keeps the state invariant. */
  lemma IntendedStepMeaning(events: seq<Event>, alarmed: seq<Event>, fetched: seq<Event>, now: int)
    requires Inv(events, alarmed)
    ensures var r := IntendedStep(events, alarmed, fetched, now);
            && (forall x :: x in r.kept <==>
                  (x in events && now <= x.start) || (x in fetched && now < x.start))
            && (forall x :: x in r.fired <==>
                  x in r.kept && x !in alarmed && AlarmAt(x) <= now)
            && Inv(r.kept, r.alarmed)
  {
    var added := AddNew(events, fetched, now);
    AddNewMeaning(events, fetched, now);
    IdealScanMeaning(added, alarmed, now);
  }

  /** Two records that both started at 0, seen at instant 10. */
  const first := Event("first", 0, 60, 0)
  const second := Event("second", 0, 60, 0)

  /** The pass as written evicts `first` and steps over `second`, which stays
      pending although it has started; the intended pass evicts both. */
  lemma StartedRecordSurvives()
    ensures StepSpec([first, second], [], [], 10).kept == [second]
    ensures Past(second, 10)
    ensures IntendedStep([first, second], [], [], 10).kept == []
  {
    var es := [first, second];
    assert AddNew(es, [], 10) == es;
    assert Past(first, 10) && es[2..] == [] && es[1..] == [second] && [second][1..] == [];
    assert Forget([], first) == [] && Forget([], second) == [];
    assert ScanSpec([], [], 10) == ScanResult([], [], []);
    assert ScanSpec(es, [], 10) == ScanResult([second], [], []);
    assert IdealScan([], [], 10) == ScanResult([], [], []);
    assert IdealScan([second], [], 10) == ScanResult([], [], []);
    assert IdealScan(es, [], 10) == ScanResult([], [], []);
  }

  /** A record due now that sits behind an evicted one. */
  const due := Event("due", 100, 160, 5)

  /** The pass as written steps over `due` and raises no alarm for it in this
      iteration; the intended pass raises it. */
  lemma DueAlarmDelayed()
    ensures AlarmAt(due) <= 10 && !Past(due, 10)
    ensures StepSpec([first, due], [], [], 10).fired == []
    ensures IntendedStep([first, due], [], [], 10).fired == [due]
  {
    var es := [first, due];
    assert AddNew(es, [], 10) == es;
    assert Past(first, 10) && es[2..] == [] && es[1..] == [due] && [due][1..] == [];
    assert Forget([], first) == [];
    assert ScanSpec([], [], 10) == ScanResult([], [], []);
    assert ScanSpec(es, [], 10) == ScanResult([due], [], []);
    assert Fires(due, [], 10);
    assert IdealScan([], [due], 10) == ScanResult([], [due], []);
    assert IdealScan([due], [], 10) == ScanResult([due], [due], [due]);
    assert IdealScan(es, [], 10) == ScanResult([due], [due], [due]);
  }
}
