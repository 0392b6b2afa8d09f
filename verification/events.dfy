/** The record the calendar fetch produces and the list helpers the polling
    loop relies on: membership, duplicate-freedom and Python's `list.remove`. */
module Events {

  /** One reminder occurrence of one calendar event.  Each reminder of each
      occurrence becomes its own record, so two records differ as soon as any
      of the four fields differs (Python dict equality on the four keys).
      Timestamps are instants on one integer clock (seconds); `minutes` is the
      reminder's lead time. */
  datatype Event = Event(title: string, start: int, end: int, minutes: nat)

  /** The instant at which the reminder is due: `minutes` before the start. */
  function AlarmAt(e: Event): (r: int)
  {
    e.start - 60 * e.minutes
  }

  /** Too early: the reminder is not yet due at `now`. */
  predicate TooEarly(e: Event, now: int)
  {
    now < AlarmAt(e)
  }

  /** The record has started strictly before `now`: the loop evicts it. */
  predicate Past(e: Event, now: int)
  {
    e.start < now
  }

  /** No value occurs twice in the list. */
  predicate NoDup<T(==)>(s: seq<T>)
  {
    forall i, j :: 0 <= i < j < |s| ==> s[i] != s[j]
  }

  /** Python's `list.remove(x)`: deletes the first occurrence of `x` and keeps
      the order of everything else.  Python raises when `x` is absent; the loop
      only calls it on members, which the precondition records. */
  function RemoveFirst(s: seq<Event>, x: Event): (r: seq<Event>)
    requires x in s
    ensures |r| == |s| - 1
    ensures forall y :: y != x ==> (y in r <==> y in s)
    ensures NoDup(s) ==> NoDup(r) && x !in r
    decreases |s|
  {
    SplitHead(s);
    if s[0] == x then s[1..]
    else [s[0]] + RemoveFirst(s[1..], x)
  }

  /** A non-empty list is its head followed by its tail; on a duplicate-free
      list the tail is duplicate-free and misses the head. */
  lemma SplitHead<T>(s: seq<T>)
    requires |s| > 0
    ensures s == [s[0]] + s[1..]
    ensures NoDup(s) ==> NoDup(s[1..]) && s[0] !in s[1..]
  {
    assert s == [s[0]] + s[1..];
    if NoDup(s) {
      forall i, j | 0 <= i < j < |s[1..]| ensures s[1..][i] != s[1..][j] {
        assert s[1..][i] == s[i + 1] && s[1..][j] == s[j + 1];
      }
    }
  }

  /** When index `i` holds the first occurrence of its value, removing that
      value deletes exactly position `i`. */
  lemma {:induction false} RemoveFirstAt(s: seq<Event>, i: nat)
    requires i < |s| && s[i] !in s[..i]
    ensures RemoveFirst(s, s[i]) == s[..i] + s[i + 1..]
    decreases i
  {
    if i == 0 {
      assert s[..0] + s[1..] == s[1..];
    } else {
      assert s[0] in s[..i];
      var t := s[1..];
      assert t[i - 1] == s[i];
      assert t[..i - 1] == s[1..i];
      RemoveFirstAt(t, i - 1);
      assert RemoveFirst(s, s[i]) == [s[0]] + (t[..i - 1] + t[i..]);
      assert t[i..] == s[i + 1..];
      assert s[..i] == [s[0]] + t[..i - 1];
    }
  }

  /** On a duplicate-free list every index holds the first occurrence of its
      value. */
  lemma FirstOccurrence<T>(s: seq<T>, i: nat)
    requires NoDup(s) && i < |s|
    ensures s[i] !in s[..i]
  {
  }

  /** Appending a value that is absent keeps a list duplicate-free. */
  lemma AppendFreshNoDup<T>(s: seq<T>, x: T)
    requires NoDup(s) && x !in s
    ensures NoDup(s + [x])
  {
    forall i, j | 0 <= i < j < |s + [x]| ensures (s + [x])[i] != (s + [x])[j] {
      if j == |s| {
        assert (s + [x])[i] == s[i];
      }
    }
  }
}
