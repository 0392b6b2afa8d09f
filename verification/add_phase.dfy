/** The first half of one polling iteration (gcalert.py:122-131): every
    fetched record that is not yet pending and starts after `now` is appended
    to the pending list.  Nothing is removed here, in particular not a pending
    record that the latest fetch no longer reports. */
module AddPhase {
  import opened Events

  /** Whether the loop appends fetched record `n` to the pending list `events`. */
  predicate Admits(events: seq<Event>, n: Event, now: int)
  {
    n !in events && now < n.start
  }

  /** The pending list after the first `|fetched|` fetched records have been
      considered, in fetch order. */
  function AddNew(events: seq<Event>, fetched: seq<Event>, now: int): (r: seq<Event>)
    decreases |fetched|
  {
    if fetched == [] then events
    else
      var prior := AddNew(events, fetched[..|fetched| - 1], now);
      var n := fetched[|fetched| - 1];
      if Admits(prior, n, now) then prior + [n] else prior
  }

  /** What the add phase promises: the old list is kept as a prefix, a record
      ends up pending exactly when it was pending or is a fetched record that
      starts after `now`, only records absent before are appended, and a
      duplicate-free list stays duplicate-free even if the fetch repeats a
      record. */
  lemma {:induction false} AddNewMeaning(events: seq<Event>, fetched: seq<Event>, now: int)
    ensures |events| <= |AddNew(events, fetched, now)|
    ensures AddNew(events, fetched, now)[..|events|] == events
    ensures forall x :: x in AddNew(events, fetched, now) <==> x in events || (x in fetched && now < x.start)
    ensures forall i :: |events| <= i < |AddNew(events, fetched, now)| ==>
              AddNew(events, fetched, now)[i] !in events
    ensures NoDup(events) ==> NoDup(AddNew(events, fetched, now))
    decreases |fetched|
  {
    if fetched != [] {
      var front := fetched[..|fetched| - 1];
      var n := fetched[|fetched| - 1];
      AddNewMeaning(events, front, now);
      var prior := AddNew(events, front, now);
      assert fetched == front + [n];
      if Admits(prior, n, now) {
        assert (prior + [n])[..|events|] == prior[..|events|];
        if NoDup(events) {
          AppendFreshNoDup(prior, n);
        }
      }
    }
  }

  /** The add phase as the loop at gcalert.py:123-131 runs it, appending to a
      working copy of the pending list. */
  method AddFetched(events: seq<Event>, fetched: seq<Event>, now: int) returns (pending: seq<Event>)
    ensures pending == AddNew(events, fetched, now)
    ensures |events| <= |pending| && pending[..|events|] == events
    ensures forall x :: x in pending <==> x in events || (x in fetched && now < x.start)
    ensures NoDup(events) ==> NoDup(pending)
  {
    pending := events;
    var k := 0;
    while k < |fetched|
      invariant 0 <= k <= |fetched|
      invariant pending == AddNew(events, fetched[..k], now)
    {
      var n := fetched[k];
      assert fetched[..k + 1][..k] == fetched[..k];
      if n !in pending {
        if now < n.start {
          pending := pending + [n];
        }
      }
      k := k + 1;
    }
    assert fetched[..k] == fetched;
    AddNewMeaning(events, fetched, now);
  }
}
