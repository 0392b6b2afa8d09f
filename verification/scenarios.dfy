/** Concrete runs of the iteration on small inputs. */
module Scenarios {
  import opened Events
  import opened AddPhase
  import opened ScanPhase
  import opened Iteration

  /** A stand-up meeting starting at instant `T` with a ten-minute reminder. */
  const T := 100000
  const standup := Event("Standup", T, T + 900, 10)

  /** The reminder's life cycle over four iterations that all fetch the
      meeting while it is upcoming: fifteen minutes before the start it is
      pending and not alarmed; nine minutes before it is alarmed once; five
      minutes before, fetched again, it is not alarmed again; a minute after
      the start it has left both lists. */
  lemma StandupTimeline()
    ensures StepSpec([], [], [standup], T - 900) == ScanResult([standup], [], [])
    ensures StepSpec([standup], [], [standup], T - 540) == ScanResult([standup], [standup], [standup])
    ensures StepSpec([standup], [standup], [standup], T - 300) == ScanResult([standup], [standup], [])
    ensures StepSpec([standup], [standup], [], T + 60) == ScanResult([], [], [])
  {
    assert AlarmAt(standup) == T - 600;
    var one := [standup];
    assert one[1..] == [] && one[..0] == [];
    assert AddNew([], one, T - 900) == one;
    assert ScanSpec([], [], T - 900) == ScanResult([], [], []);
    assert ScanSpec(one, [], T - 900) == ScanResult(one, [], []);
    assert AddNew(one, one, T - 540) == one;
    assert ScanSpec([], one, T - 540) == ScanResult([], one, []);
    assert ScanSpec(one, [], T - 540) == ScanResult(one, one, one);
    assert AddNew(one, one, T - 300) == one;
    assert ScanSpec([], one, T - 300) == ScanResult([], one, []);
    assert ScanSpec(one, one, T - 300) == ScanResult(one, one, []);
    assert AddNew(one, [], T + 60) == one;
    assert Forget(one, standup) == [];
    assert ScanSpec(one, one, T + 60) == ScanResult([], [], []);
  }

  const a := Event("a", 500, 600, 0)
  const b := Event("b", 500, 600, 0)
  const c := Event("c", 500, 600, 0)

  /** The add phase only appends: with `a` and `b` pending and a fetch that
      reports `b` and `c`, all three are pending afterwards; `a` is not
      dropped for missing from the fetch. */
  lemma FetchDoesNotReplace()
    ensures AddNew([a, b], [b, c], 0) == [a, b, c]
  {
    assert [b, c][..1] == [b] && [b][..0] == [];
    assert AddNew([a, b], [], 0) == [a, b];
    assert AddNew([a, b], [b], 0) == [a, b];
  }
}
