/** The events of the busiest-period sweep and their order.

    Every interval contributes a start event and an end event; the events are
    ordered by time and, at equal time, starts before ends.
 */
module Events {
  import opened TimeEntry
  import opened Counting

  datatype Kind = Start | End

  datatype Event = Event(time: Minute, kind: Kind)

  /** The program's `StartOrEnd` field: 0 for a start, 1 for an end. */
  function StartOrEnd(k: Kind): nat {
    if k == Start then 0 else 1
  }

  predicate IsStart(e: Event) {
    e.kind == Start
  }

  predicate IsEnd(e: Event) {
    e.kind == End
  }

  /** The sort key of `OrderBy(e => e.Time).ThenBy(e => e.StartOrEnd)`, as one number:
      time first, then starts (0) before ends (1). */
  function SortKey(e: Event): nat {
    2 * e.time + StartOrEnd(e.kind)
  }

  /** `a` sorts no later than `b`. */
  predicate NoLater(a: Event, b: Event) {
    SortKey(a) <= SortKey(b)
  }

  predicate Sorted(s: seq<Event>) {
    forall i, j :: 0 <= i < j < |s| ==> NoLater(s[i], s[j])
  }

  /** The event list after the first loop of FindBusiestPeriod: for each entry, in order,
      its start event and then its end event. */
  function EventsOf(entries: seq<Interval>): (es: seq<Event>)
    ensures |es| == 2 * |entries|
  {
    if entries == [] then [] else EventsOf(entries[..|entries| - 1]) + Pair(entries[|entries| - 1])
  }

  /** The two events of one entry. */
  function Pair(iv: Interval): seq<Event> {
    [Event(iv.start, Start), Event(iv.end, End)]
  }

  /** One step of insertion: `e` placed before the first element it sorts no later than. */
  function Insert(e: Event, s: seq<Event>): seq<Event> {
    if s == [] then [e]
    else if NoLater(e, s[0]) then [e] + s
    else [s[0]] + Insert(e, s[1..])
  }

  /** The LINQ sort of the events, as an insertion sort. */
  function SortEvents(s: seq<Event>): seq<Event> {
    if s == [] then [] else Insert(s[0], SortEvents(s[1..]))
  }

  // ---------------------------------------------------------------------
  // Properties

  /** The key orders by time and then by kind, and tells events apart. */
  lemma SortKeyOrder(a: Event, b: Event)
    ensures NoLater(a, b) <==> a.time < b.time || (a.time == b.time && StartOrEnd(a.kind) <= StartOrEnd(b.kind))
    ensures SortKey(a) == SortKey(b) ==> a == b
  {
  }

  lemma MultisetTail(s: seq<Event>)
    requires s != []
    ensures multiset(s[1..]) == multiset(s) - multiset{s[0]}
  {
    assert s == [s[0]] + s[1..];
  }

  /** The head of a sorted list sorts no later than any of its elements. */
  lemma SortedHeadFirst(s: seq<Event>, x: Event)
    requires Sorted(s) && x in s
    ensures NoLater(s[0], x)
  {
    var i :| 0 <= i < |s| && s[i] == x;
    assert i == 0 || NoLater(s[0], s[i]);
  }

  lemma SortedTail(s: seq<Event>)
    requires Sorted(s) && s != []
    ensures Sorted(s[1..])
  {
    forall i, j | 0 <= i < j < |s| - 1
      ensures NoLater(s[1..][i], s[1..][j])
    {
      assert s[1..][i] == s[i + 1] && s[1..][j] == s[j + 1];
    }
  }

  /** Two sorted arrangements of the same events start with the same event. */
  lemma SortedSameHead(a: seq<Event>, b: seq<Event>)
    requires Sorted(a) && Sorted(b) && a != [] && b != []
    requires multiset(a) == multiset(b)
    ensures a[0] == b[0]
  {
    assert a[0] in multiset(b) && b[0] in multiset(a);
    SortedHeadFirst(a, b[0]);
    SortedHeadFirst(b, a[0]);
    SortKeyOrder(a[0], b[0]);
  }

  /** A sorted arrangement of a multiset of events is unique: the sorted event list
      depends only on which events there are, not on the order they were added in. */
  lemma {:induction false} SortedUnique(a: seq<Event>, b: seq<Event>)
    requires Sorted(a) && Sorted(b)
    requires multiset(a) == multiset(b)
    ensures a == b
  {
    assert |a| == |multiset(a)| == |multiset(b)| == |b|;
    if a != [] {
      SortedSameHead(a, b);
      SortedTail(a);
      SortedTail(b);
      MultisetTail(a);
      MultisetTail(b);
      SortedUnique(a[1..], b[1..]);
      SameHeadAndTail(a, b);
    }
  }

  lemma SameHeadAndTail(a: seq<Event>, b: seq<Event>)
    requires a != [] && b != [] && a[0] == b[0] && a[1..] == b[1..]
    ensures a == b
  {
    assert a == [a[0]] + a[1..] && b == [b[0]] + b[1..];
  }

  /** Insertion adds exactly the one element. */
  lemma {:induction false} InsertPermutation(e: Event, s: seq<Event>)
    ensures multiset(Insert(e, s)) == multiset(s) + multiset{e}
  {
    if s != [] && !NoLater(e, s[0]) {
      InsertPermutation(e, s[1..]);
      assert s == [s[0]] + s[1..];
    }
  }

  /** Inserting into a sorted list keeps it sorted. */
  lemma {:induction false} InsertSorted(e: Event, s: seq<Event>)
    requires Sorted(s)
    ensures Sorted(Insert(e, s))
    ensures multiset(Insert(e, s)) == multiset(s) + multiset{e}
  {
    InsertPermutation(e, s);
    if s == [] {
    } else if NoLater(e, s[0]) {
      forall k | 0 <= k < |s|
        ensures NoLater(e, s[k])
      {
        assert k == 0 || NoLater(s[0], s[k]);
      }
      ConsSorted(e, s);
    } else {
      SortedTail(s);
      InsertSorted(e, s[1..]);
      var rest := Insert(e, s[1..]);
      forall k | 0 <= k < |rest|
        ensures NoLater(s[0], rest[k])
      {
        assert rest[k] in multiset(rest);
        if rest[k] != e {
          assert rest[k] in s[1..];
          SortedHeadFirst(s, rest[k]);
        }
      }
      ConsSorted(s[0], rest);
    }
  }

  /** An event that sorts no later than every element of a sorted list can go before it. */
  lemma ConsSorted(x: Event, s: seq<Event>)
    requires Sorted(s)
    requires forall k :: 0 <= k < |s| ==> NoLater(x, s[k])
    ensures Sorted([x] + s)
  {
    forall i, j | 0 <= i < j < |s| + 1
      ensures NoLater(([x] + s)[i], ([x] + s)[j])
    {
      assert ([x] + s)[j] == s[j - 1];
      if i > 0 {
        assert ([x] + s)[i] == s[i - 1];
      }
    }
  }

  /** The sort yields a sorted permutation of the events. */
  lemma {:induction false} SortEventsSorted(s: seq<Event>)
    ensures Sorted(SortEvents(s))
    ensures multiset(SortEvents(s)) == multiset(s)
  {
    if s != [] {
      SortEventsSorted(s[1..]);
      InsertSorted(s[0], SortEvents(s[1..]));
      assert s == [s[0]] + s[1..];
    }
  }

  /** Sorting a sorted list changes nothing. */
  lemma SortSortedIsIdentity(s: seq<Event>)
    requires Sorted(s)
    ensures SortEvents(s) == s
  {
    SortEventsSorted(s);
    SortedUnique(SortEvents(s), s);
  }

  lemma {:induction false} EventsOfAppend(a: seq<Interval>, b: seq<Interval>)
    ensures EventsOf(a + b) == EventsOf(a) + EventsOf(b)
  {
    if b != [] {
      var b' := b[..|b| - 1];
      assert (a + b)[..|a + b| - 1] == a + b';
      EventsOfAppend(a, b');
    } else {
      assert a + b == a;
    }
  }

  /** Entry `i` contributes events `2i` (its start) and `2i + 1` (its end). */
  lemma {:induction false} EventsOfAt(entries: seq<Interval>, i: nat)
    requires i < |entries|
    ensures EventsOf(entries)[2 * i] == Event(entries[i].start, Start)
    ensures EventsOf(entries)[2 * i + 1] == Event(entries[i].end, End)
  {
    if i < |entries| - 1 {
      EventsOfAt(entries[..|entries| - 1], i);
    }
  }

  /** Taking entry `k` out of the entries takes its two events out of the event list. */
  lemma {:induction false} EventsOfRemove(ys: seq<Interval>, k: nat)
    requires k < |ys|
    ensures multiset(EventsOf(ys)) == multiset(EventsOf(ys[..k] + ys[k + 1..])) + multiset(Pair(ys[k]))
  {
    var front := ys[..k] + [ys[k]];
    assert front[..|front| - 1] == ys[..k];
    assert EventsOf(front) == EventsOf(ys[..k]) + Pair(ys[k]);
    assert front + ys[k + 1..] == ys;
    EventsOfAppend(front, ys[k + 1..]);
    EventsOfAppend(ys[..k], ys[k + 1..]);
  }

  /** Entries with equal multisets give event lists with equal multisets. */
  lemma {:induction false} EventsPermutation(xs: seq<Interval>, ys: seq<Interval>)
    requires multiset(xs) == multiset(ys)
    ensures multiset(EventsOf(xs)) == multiset(EventsOf(ys))
  {
    if xs != [] {
      var x := xs[|xs| - 1];
      var xs' := xs[..|xs| - 1];
      assert x in multiset(ys) by { assert x in multiset(xs); }
      var k :| 0 <= k < |ys| && ys[k] == x;
      var ys' := ys[..k] + ys[k + 1..];
      MultisetRemove(xs, |xs| - 1);
      MultisetRemove(ys, k);
      assert xs[..|xs| - 1] + xs[|xs| - 1 + 1..] == xs';
      EventsPermutation(xs', ys');
      EventsOfRemove(ys, k);
    } else {
      assert |multiset(ys)| == |ys|;
    }
  }

  /** The event list holds exactly one start and one end per entry. */
  lemma {:induction false} EventsOfCounts(entries: seq<Interval>)
    ensures Count(EventsOf(entries), IsStart) == |entries|
    ensures Count(EventsOf(entries), IsEnd) == |entries|
  {
    if entries != [] {
      var rest := entries[..|entries| - 1];
      EventsOfCounts(rest);
      var pair := Pair(entries[|entries| - 1]);
      CountAppend(EventsOf(rest), pair, IsStart);
      CountAppend(EventsOf(rest), pair, IsEnd);
      assert pair[..1] == [pair[0]];
      CountSingle(pair[0], IsStart);
      CountSingle(pair[0], IsEnd);
    }
  }
}
