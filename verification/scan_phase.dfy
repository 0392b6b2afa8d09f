/** The second half of one polling iteration (gcalert.py:132-151): a
    `for e in events:` pass that evicts records whose start has passed and
    raises the alarm of records that are due and not yet alarmed.

    The pass removes from the very list it iterates over.  Python's list
    iterator walks by position, so when the record at the current position
    is removed, the record behind it slides into that position and the
    iterator steps over it: the record right after an evicted one is not
    examined in that pass.  `Scan` reproduces this literally and `ScanSpec`
    describes its outcome record by record; the two are proved equal. */
module ScanPhase {
  import opened Events

  /** The lists after a pass: the pending records left, the alarmed records
      left, and the records handed to the alarm display, in order. */
  datatype ScanResult = ScanResult(kept: seq<Event>, alarmed: seq<Event>, fired: seq<Event>)

  /** The alarmed list after the record `e` is evicted
      (gcalert.py:138-139). */
  function Forget(alarmed: seq<Event>, e: Event): (r: seq<Event>)
  {
    if e in alarmed then RemoveFirst(alarmed, e) else alarmed
  }

  /** The alarm of record `e` is raised when it is examined: it is not in the
      alarmed list and its reminder time has come (gcalert.py:142-147). */
  predicate Fires(e: Event, al: seq<Event>, now: int)
  {
    e !in al && AlarmAt(e) <= now
  }

  /** The outcome of the pass over the not yet visited records `es`, starting
      from the alarmed list `al`.  A record that has started is evicted and its
      successor is stepped over; a record that has not started, is not yet
      alarmed and whose reminder is due is fired and alarmed; any other
      record stays. */
  function ScanSpec(es: seq<Event>, al: seq<Event>, now: int): (res: ScanResult)
    decreases |es|
  {
    if es == [] then ScanResult([], al, [])
    else
      var e := es[0];
      if Past(e, now) then
        if |es| == 1 then ScanResult([], Forget(al, e), [])
        else
          var rest := ScanSpec(es[2..], Forget(al, e), now);
          ScanResult([es[1]] + rest.kept, rest.alarmed, rest.fired)
      else if Fires(e, al, now) then
        var rest := ScanSpec(es[1..], al + [e], now);
        ScanResult([e] + rest.kept, rest.alarmed, [e] + rest.fired)
      else
        var rest := ScanSpec(es[1..], al, now);
        ScanResult([e] + rest.kept, rest.alarmed, rest.fired)
  }

  /** Record `x` sits right behind a record of `es` that has started and was
      evicted, so the pass steps over `x`. */
  ghost predicate SteppedOver(es: seq<Event>, kept: seq<Event>, x: Event, now: int)
  {
    exists i :: 0 < i < |es| && es[i] == x && Past(es[i - 1], now) && es[i - 1] !in kept
  }

  /** The pass keeps only records that were pending, and keeps every record
      that has not started: a record whose start equals `now` is not evicted. */
  lemma {:induction false} ScanKeeps(es: seq<Event>, al: seq<Event>, now: int)
    ensures forall x :: x in ScanSpec(es, al, now).kept ==> x in es
    ensures forall x :: x in es && !Past(x, now) ==> x in ScanSpec(es, al, now).kept
    decreases |es|
  {
    if es != [] {
      var e := es[0];
      if Past(e, now) {
        if |es| > 1 {
          ScanKeeps(es[2..], Forget(al, e), now);
          assert es == [e, es[1]] + es[2..];
        }
      } else {
        ScanKeeps(es[1..], if Fires(e, al, now) then al + [e] else al, now);
        assert es == [e] + es[1..];
      }
    }
  }

  /** A duplicate-free pending list stays duplicate-free through the pass. */
  lemma {:induction false} ScanKeepsNoDup(es: seq<Event>, al: seq<Event>, now: int)
    requires NoDup(es)
    ensures NoDup(ScanSpec(es, al, now).kept)
    decreases |es|
  {
    if es != [] {
      SplitHead(es);
      var e := es[0];
      if Past(e, now) {
        if |es| > 1 {
          SplitHead(es[1..]);
          assert es[1..][1..] == es[2..];
          ScanKeepsNoDup(es[2..], Forget(al, e), now);
          ScanKeeps(es[2..], Forget(al, e), now);
          AppendFrontNoDup(es[1], ScanSpec(es[2..], Forget(al, e), now).kept);
        }
      } else {
        var al' := if Fires(e, al, now) then al + [e] else al;
        ScanKeepsNoDup(es[1..], al', now);
        ScanKeeps(es[1..], al', now);
        AppendFrontNoDup(e, ScanSpec(es[1..], al', now).kept);
      }
    }
  }

  /** A record that has started survives the pass exactly when it sits right
      behind a started record that the pass evicted: the remove-while-iterating
      step-over (gcalert.py:133-136). */
  lemma {:induction false} ScanStepsOver(es: seq<Event>, al: seq<Event>, now: int)
    requires NoDup(es)
    ensures forall x :: x in es && Past(x, now) ==>
              (x in ScanSpec(es, al, now).kept <==> SteppedOver(es, ScanSpec(es, al, now).kept, x, now))
    decreases |es|
  {
    if es != [] {
      SplitHead(es);
      var e := es[0];
      var r := ScanSpec(es, al, now);
      if Past(e, now) {
        if |es| > 1 {
          var rest := es[2..];
          SplitHead(es[1..]);
          assert es[1..][1..] == rest;
          ScanStepsOver(rest, Forget(al, e), now);
          ScanKeeps(rest, Forget(al, e), now);
          var r' := ScanSpec(rest, Forget(al, e), now);
          assert r.kept == [es[1]] + r'.kept;
          forall x | x in es && Past(x, now)
            ensures x in r.kept <==> SteppedOver(es, r.kept, x, now)
          {
            StepOverEvicted(es, r.kept, r'.kept, al, x, now);
          }
        }
      } else {
        var al' := if Fires(e, al, now) then al + [e] else al;
        var rest := es[1..];
        ScanStepsOver(rest, al', now);
        ScanKeeps(rest, al', now);
        var r' := ScanSpec(rest, al', now);
        assert r.kept == [e] + r'.kept;
        forall x | x in es && Past(x, now)
          ensures x in r.kept <==> SteppedOver(es, r.kept, x, now)
        {
          StepOverStayed(es, r.kept, r'.kept, x, now);
        }
      }
    }
  }

  /** One case of `ScanStepsOver`: the first record was evicted. */
  lemma StepOverEvicted(es: seq<Event>, kept: seq<Event>, kept': seq<Event>, al: seq<Event>, x: Event, now: int)
    requires |es| > 1 && Past(es[0], now)
    requires es[0] !in es[1..] && es[1] !in es[2..]
    requires kept == [es[1]] + kept'
    requires forall y :: y in kept' ==> y in es[2..]
    requires forall y :: y in es[2..] && Past(y, now) ==> (y in kept' <==> SteppedOver(es[2..], kept', y, now))
    requires x in es && Past(x, now)
    ensures x in kept <==> SteppedOver(es, kept, x, now)
  {
    assert es[0] !in kept;
    if x == es[1] {
      assert SteppedOver(es, kept, x, now) by {
        assert es[1] == x && es[0] !in kept;
      }
    } else if x != es[0] {
      assert es == [es[0], es[1]] + es[2..];
      StepOverShift2(es, kept, kept', x, now);
    }
  }

  /** One case of `ScanStepsOver`: the first record has not started. */
  lemma StepOverStayed(es: seq<Event>, kept: seq<Event>, kept': seq<Event>, x: Event, now: int)
    requires |es| > 0 && !Past(es[0], now) && es[0] !in es[1..]
    requires kept == [es[0]] + kept'
    requires forall y :: y in es[1..] && Past(y, now) ==> (y in kept' <==> SteppedOver(es[1..], kept', y, now))
    requires x in es && Past(x, now)
    ensures x in kept <==> SteppedOver(es, kept, x, now)
  {
    assert es == [es[0]] + es[1..];
    assert x in es[1..];
    StepOverShift1(es, kept, kept', x, now);
  }

  /** Every alarm the pass raises is for a pending record that stays pending,
      was not alarmed before, has not started and whose reminder time has
      come; no record is alarmed twice in one pass. */
  lemma {:induction false} ScanFires(es: seq<Event>, al: seq<Event>, now: int)
    requires NoDup(es)
    ensures forall x :: x in ScanSpec(es, al, now).fired ==>
              x in ScanSpec(es, al, now).kept && x !in al && !Past(x, now) && AlarmAt(x) <= now
    ensures NoDup(ScanSpec(es, al, now).fired)
    decreases |es|
  {
    if es != [] {
      SplitHead(es);
      var e := es[0];
      if Past(e, now) {
        if |es| > 1 {
          SplitHead(es[1..]);
          assert es[1..][1..] == es[2..];
          ScanFires(es[2..], Forget(al, e), now);
          ScanKeeps(es[2..], Forget(al, e), now);
        }
      } else {
        var al' := if Fires(e, al, now) then al + [e] else al;
        ScanFires(es[1..], al', now);
        if Fires(e, al, now) {
          AppendFrontNoDup(e, ScanSpec(es[1..], al', now).fired);
        }
      }
    }
  }

  /** The alarmed list after the pass: a record is alarmed exactly when it was
      alarmed and was not evicted, or the pass fired it.  Both lists stay
      duplicate-free. */
  lemma {:induction false} ScanAlarmed(es: seq<Event>, al: seq<Event>, now: int)
    requires NoDup(es) && NoDup(al)
    ensures forall x :: x in ScanSpec(es, al, now).alarmed <==>
              (x in al && (x in ScanSpec(es, al, now).kept || x !in es)) || x in ScanSpec(es, al, now).fired
    ensures NoDup(ScanSpec(es, al, now).alarmed)
    decreases |es|
  {
    if es != [] {
      SplitHead(es);
      var e := es[0];
      var r := ScanSpec(es, al, now);
      if Past(e, now) {
        var al' := Forget(al, e);
        assert forall y :: y != e ==> (y in al' <==> y in al);
        assert e !in al';
        if |es| > 1 {
          var rest := es[2..];
          SplitHead(es[1..]);
          assert es[1..][1..] == rest;
          ScanAlarmed(rest, al', now);
          ScanFires(rest, al', now);
          ScanKeeps(rest, al', now);
          var r' := ScanSpec(rest, al', now);
          assert r.kept == [es[1]] + r'.kept && r.alarmed == r'.alarmed && r.fired == r'.fired;
          forall x
            ensures x in r.alarmed <==> (x in al && (x in r.kept || x !in es)) || x in r.fired
          {
            if x == e {
              assert x !in rest;
            } else if x == es[1] {
              assert x !in rest;
            }
          }
        }
      } else {
        var al' := if Fires(e, al, now) then al + [e] else al;
        if Fires(e, al, now) {
          AppendFreshNoDup(al, e);
        }
        var rest := es[1..];
        ScanAlarmed(rest, al', now);
        ScanFires(rest, al', now);
        ScanKeeps(rest, al', now);
        var r' := ScanSpec(rest, al', now);
        forall x
          ensures x in r.alarmed <==> (x in al && (x in r.kept || x !in es)) || x in r.fired
        {
          if x == e {
            assert x !in rest;
          }
        }
      }
    }
  }

  /** A record that has not started, is not alarmed and whose reminder time
      has come fires exactly when the pass does not step over it. */
  lemma {:induction false} ScanFiresDue(es: seq<Event>, al: seq<Event>, now: int)
    requires NoDup(es)
    ensures forall x :: x in es && !Past(x, now) && Fires(x, al, now) ==>
              (x in ScanSpec(es, al, now).fired <==> !SteppedOver(es, ScanSpec(es, al, now).kept, x, now))
    decreases |es|
  {
    if es != [] {
      SplitHead(es);
      var e := es[0];
      var r := ScanSpec(es, al, now);
      if Past(e, now) {
        if |es| > 1 {
          var rest := es[2..];
          var al' := Forget(al, e);
          SplitHead(es[1..]);
          assert es[1..][1..] == rest;
          ScanFiresDue(rest, al', now);
          ScanFires(rest, al', now);
          ScanKeeps(rest, al', now);
          var r' := ScanSpec(rest, al', now);
          assert r.kept == [es[1]] + r'.kept && r.fired == r'.fired;
          forall x | x in es && !Past(x, now) && Fires(x, al, now)
            ensures x in r.fired <==> !SteppedOver(es, r.kept, x, now)
          {
            if x == es[1] {
              assert SteppedOver(es, r.kept, x, now) by {
                assert es[0] !in r.kept;
              }
              assert x !in rest;
            } else {
              assert x in rest && x != e;
              assert x in al' <==> x in al;
              StepOverShift2(es, r.kept, r'.kept, x, now);
            }
          }
        }
      } else {
        var al' := if Fires(e, al, now) then al + [e] else al;
        var rest := es[1..];
        ScanFiresDue(rest, al', now);
        ScanFires(rest, al', now);
        ScanKeeps(rest, al', now);
        var r' := ScanSpec(rest, al', now);
        assert r.kept == [e] + r'.kept;
        forall x | x in es && !Past(x, now) && Fires(x, al, now)
          ensures x in r.fired <==> !SteppedOver(es, r.kept, x, now)
        {
          if x != e {
            assert x in rest;
            StepOverShift1(es, r.kept, r'.kept, x, now);
          }
        }
      }
    }
  }

  /** Being stepped over, seen from the list without its first two records
      when the first was evicted and the second stepped over. */
  lemma StepOverShift2(es: seq<Event>, kept: seq<Event>, kept': seq<Event>, x: Event, now: int)
    requires |es| > 1 && es[1] !in es[2..]
    requires kept == [es[1]] + kept'
    requires x in es[2..] && x != es[1]
    ensures SteppedOver(es, kept, x, now) <==> SteppedOver(es[2..], kept', x, now)
  {
    var rest := es[2..];
    if SteppedOver(rest, kept', x, now) {
      var i :| 0 < i < |rest| && rest[i] == x && Past(rest[i - 1], now) && rest[i - 1] !in kept';
      assert rest[i - 1] in rest;
      assert es[i + 2] == x && es[i + 1] == rest[i - 1];
      assert es[i + 1] !in kept;
    }
    if SteppedOver(es, kept, x, now) {
      var i :| 0 < i < |es| && es[i] == x && Past(es[i - 1], now) && es[i - 1] !in kept;
      assert i != 1;
      assert i != 2 by {
        assert es[1] in kept;
      }
      assert rest[i - 2] == x && rest[i - 3] == es[i - 1];
    }
  }

  /** Being stepped over, seen from the list without its first record when
      that record stayed. */
  lemma StepOverShift1(es: seq<Event>, kept: seq<Event>, kept': seq<Event>, x: Event, now: int)
    requires |es| > 0 && !Past(es[0], now) && es[0] !in es[1..]
    requires kept == [es[0]] + kept'
    requires x in es[1..]
    ensures SteppedOver(es, kept, x, now) <==> SteppedOver(es[1..], kept', x, now)
  {
    var rest := es[1..];
    if SteppedOver(rest, kept', x, now) {
      var i :| 0 < i < |rest| && rest[i] == x && Past(rest[i - 1], now) && rest[i - 1] !in kept';
      assert rest[i - 1] in rest;
      assert es[i + 1] == x && es[i] == rest[i - 1];
    }
    if SteppedOver(es, kept, x, now) {
      var i :| 0 < i < |es| && es[i] == x && Past(es[i - 1], now) && es[i - 1] !in kept;
      assert i > 1;
      assert rest[i - 1] == x && rest[i - 2] == es[i - 1];
    }
  }

  /** Prepending a value that is absent keeps a list duplicate-free. */
  lemma AppendFrontNoDup(x: Event, s: seq<Event>)
    requires NoDup(s) && x !in s
    ensures NoDup([x] + s)
  {
    forall i, j | 0 <= i < j < |[x] + s| ensures ([x] + s)[i] != ([x] + s)[j] {
      if i == 0 {
        assert ([x] + s)[j] == s[j - 1];
      } else {
        assert ([x] + s)[i] == s[i - 1] && ([x] + s)[j] == s[j - 1];
      }
    }
  }

  /** The outcome of a pass that has already kept `visited` and fired `fired`
      and still has to visit `es` with alarmed list `al`. */
  function Resume(visited: seq<Event>, fired: seq<Event>, es: seq<Event>, al: seq<Event>, now: int): (res: ScanResult)
  {
    var rest := ScanSpec(es, al, now);
    ScanResult(visited + rest.kept, rest.alarmed, fired + rest.fired)
  }

  /** Visiting a started record that has a successor: the record is evicted
      and the successor joins the visited part unexamined. */
  lemma ResumeEvict(visited: seq<Event>, fired: seq<Event>, events: seq<Event>, j: nat, al: seq<Event>, now: int)
    requires j + 1 < |events| && Past(events[j], now)
    ensures Resume(visited, fired, events[j..], al, now)
         == Resume(visited + [events[j + 1]], fired, events[j + 2..], Forget(al, events[j]), now)
  {
    var es := events[j..];
    assert es[1] == events[j + 1] && es[2..] == events[j + 2..];
    var r := ScanSpec(events[j + 2..], Forget(al, events[j]), now);
    assert visited + ([events[j + 1]] + r.kept) == (visited + [events[j + 1]]) + r.kept;
  }

  /** Visiting a started record that is the last one ends the pass. */
  lemma ResumeEvictLast(visited: seq<Event>, fired: seq<Event>, events: seq<Event>, j: nat, al: seq<Event>, now: int)
    requires j + 1 == |events| && Past(events[j], now)
    ensures Resume(visited, fired, events[j..], al, now)
         == ScanResult(visited, Forget(al, events[j]), fired)
  {
    assert events[j..] == [events[j]];
  }

  /** Visiting a record that has not started: it stays, and is fired and
      alarmed when it is due and was not alarmed. */
  lemma ResumeStay(visited: seq<Event>, fired: seq<Event>, events: seq<Event>, j: nat, al: seq<Event>, now: int)
    requires j < |events| && !Past(events[j], now)
    ensures Resume(visited, fired, events[j..], al, now)
         == if Fires(events[j], al, now)
            then Resume(visited + [events[j]], fired + [events[j]], events[j + 1..], al + [events[j]], now)
            else Resume(visited + [events[j]], fired, events[j + 1..], al, now)
  {
    var e := events[j];
    var fires := Fires(e, al, now);
    var es := events[j..];
    assert es[1..] == events[j + 1..];
    var r := ScanSpec(events[j + 1..], if fires then al + [e] else al, now);
    assert visited + ([e] + r.kept) == (visited + [e]) + r.kept;
    assert fired + ([e] + r.fired) == (fired + [e]) + r.fired;
  }

  /** Removing the record at the boundary between the visited part and the
      rest of a duplicate-free list. */
  lemma RemoveAtBoundary(cur: seq<Event>, visited: seq<Event>, events: seq<Event>, j: nat)
    requires j < |events| && cur == visited + events[j..] && NoDup(cur)
    ensures events[j] in cur
    ensures RemoveFirst(cur, events[j]) == visited + events[j + 1..]
  {
    assert cur[|visited|] == events[j];
    FirstOccurrence(cur, |visited|);
    RemoveFirstAt(cur, |visited|);
    assert cur[..|visited|] == visited;
    assert cur[|visited| + 1..] == events[j + 1..];
  }

  /** The visited part grows by the next record. */
  lemma Advance(cur: seq<Event>, visited: seq<Event>, events: seq<Event>, j: nat)
    requires j < |events| && cur == visited + events[j..]
    ensures cur == (visited + [events[j]]) + events[j + 1..]
  {
    assert events[j..] == [events[j]] + events[j + 1..];
  }

  /** The pass as written at gcalert.py:133-151: a position counter that
      always advances, and `list.remove` on the list being walked. */
  method Scan(events: seq<Event>, alarmed: seq<Event>, now: int)
    returns (kept: seq<Event>, alarmedOut: seq<Event>, fired: seq<Event>)
    requires NoDup(events)
    ensures ScanResult(kept, alarmedOut, fired) == ScanSpec(events, alarmed, now)
  {
    var cur := events;
    var al := alarmed;
    fired := [];
    var it := 0;
    ghost var visited: seq<Event> := [];
    ghost var j := 0;
    while it < |cur|
      invariant j <= |events|
      invariant cur == visited + events[j..]
      invariant it == |visited| || (it == |visited| + 1 && j == |events|)
      invariant NoDup(cur)
      invariant ScanSpec(events, alarmed, now) == Resume(visited, fired, events[j..], al, now)
      decreases |events| - j
    {
      var e := cur[it];
      assert e == events[j];
      it := it + 1;
      if e.start < now {
        RemoveAtBoundary(cur, visited, events, j);
        cur := RemoveFirst(cur, e);
        ghost var al0 := al;
        if e in al {
          al := RemoveFirst(al, e);
        }
        assert al == Forget(al0, e);
        if j + 1 < |events| {
          ResumeEvict(visited, fired, events, j, al0, now);
          Advance(cur, visited, events, j + 1);
          visited := visited + [events[j + 1]];
          j := j + 2;
        } else {
          ResumeEvictLast(visited, fired, events, j, al0, now);
          j := j + 1;
        }
      } else {
        ResumeStay(visited, fired, events, j, al, now);
        Advance(cur, visited, events, j);
        if e !in al {
          if now >= AlarmAt(e) {
            fired := fired + [e];
            al := al + [e];
          }
        }
        visited := visited + [e];
        j := j + 1;
      }
    }
    assert events[j..] == [];
    kept := cur;
    alarmedOut := al;
  }
}
