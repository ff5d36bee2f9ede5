/** What the driver count of the sweep means in terms of the entries themselves.

    For entries that end after they start, the count FindBusiestPeriod reports
    is the largest number of entries that cover one minute of the day, where an
    entry covers every minute from its start to its end, both included: at equal
    times the sort puts starts before ends, so an entry that ends at the minute
    another one starts still counts as overlapping it.
 */
module Overlap {
  import opened TimeEntry
  import opened Counting
  import opened Events
  import opened BusiestPeriod

  /** An entry covers minute `t`: from its start to its end, both ends included. */
  function Covers(t: int): Interval -> bool {
    (iv: Interval) => iv.start <= t <= iv.end
  }

  /** The number of entries covering minute `t`. */
  function Covering(entries: seq<Interval>, t: int): nat {
    Count(entries, Covers(t))
  }

  /** The highest coverage over the minutes `0..t`. */
  function MaxCovering(entries: seq<Interval>, t: nat): nat {
    if t == 0 then Covering(entries, 0) else Max(MaxCovering(entries, t - 1), Covering(entries, t)) as nat
  }

  /** Every entry ends after it starts (no entry crosses midnight). */
  predicate Forward(entries: seq<Interval>) {
    forall i :: 0 <= i < |entries| ==> entries[i].start < entries[i].end
  }

  function OpensBy(t: int): Interval -> bool {
    (iv: Interval) => iv.start <= t
  }

  function ClosesBefore(t: int): Interval -> bool {
    (iv: Interval) => iv.end < t
  }

  function StartsBy(t: int): Event -> bool {
    (e: Event) => e.kind == Start && e.time <= t
  }

  function EndsBefore(t: int): Event -> bool {
    (e: Event) => e.kind == End && e.time < t
  }

  // ---------------------------------------------------------------------
  // Counting on the entries and on their events

  lemma {:induction false} MaxCoveringIsMaximum(entries: seq<Interval>, t: nat)
    ensures forall u :: 0 <= u <= t ==> Covering(entries, u) <= MaxCovering(entries, t)
    ensures exists u :: 0 <= u <= t && Covering(entries, u) == MaxCovering(entries, t)
  {
    if t > 0 {
      MaxCoveringIsMaximum(entries, t - 1);
      if Covering(entries, t) < MaxCovering(entries, t - 1) {
        var u :| 0 <= u <= t - 1 && Covering(entries, u) == MaxCovering(entries, t - 1);
        assert Covering(entries, u) == MaxCovering(entries, t);
      } else {
        assert Covering(entries, t) == MaxCovering(entries, t);
      }
    } else {
      assert Covering(entries, 0) == MaxCovering(entries, 0);
    }
  }

  /** For forward entries, the coverage is the entries opened by `t` minus those closed before it. */
  lemma {:induction false} CoveringByCounts(entries: seq<Interval>, t: int)
    requires Forward(entries)
    ensures Covering(entries, t) == Count(entries, OpensBy(t)) - Count(entries, ClosesBefore(t))
  {
    if entries != [] {
      var rest := entries[..|entries| - 1];
      assert Forward(rest) by {
        forall i | 0 <= i < |rest| ensures rest[i].start < rest[i].end {
          assert rest[i] == entries[i];
        }
      }
      CoveringByCounts(rest, t);
      assert entries[|entries| - 1].start < entries[|entries| - 1].end;
    }
  }

  /** The events of the entries count the same opened and closed entries. */
  lemma {:induction false} EventCounts(entries: seq<Interval>, t: int)
    ensures Count(EventsOf(entries), StartsBy(t)) == Count(entries, OpensBy(t))
    ensures Count(EventsOf(entries), EndsBefore(t)) == Count(entries, ClosesBefore(t))
  {
    if entries != [] {
      var rest := entries[..|entries| - 1];
      var pair := Pair(entries[|entries| - 1]);
      EventCounts(rest, t);
      CountAppend(EventsOf(rest), pair, StartsBy(t));
      CountAppend(EventsOf(rest), pair, EndsBefore(t));
      assert pair[..1] == [pair[0]];
      CountSingle(pair[0], StartsBy(t));
      CountSingle(pair[0], EndsBefore(t));
    }
  }

  // ---------------------------------------------------------------------
  // Prefixes of the sorted events

  /** A sorted list splits at any key into a prefix at or below it and a suffix above it. */
  lemma {:induction false} SplitAt(s: seq<Event>, key: int) returns (j: nat)
    requires Sorted(s)
    ensures j <= |s|
    ensures forall i :: 0 <= i < j ==> SortKey(s[i]) <= key
    ensures forall i :: j <= i < |s| ==> SortKey(s[i]) > key
  {
    if s == [] {
      j := 0;
    } else if SortKey(s[|s| - 1]) <= key {
      j := |s|;
      forall i | 0 <= i < |s| ensures SortKey(s[i]) <= key {
        assert i == |s| - 1 || NoLater(s[i], s[|s| - 1]);
      }
    } else {
      var p := s[..|s| - 1];
      assert Sorted(p);
      j := SplitAt(p, key);
    }
  }

  /** Events with keys up to `2t + 1` (at minute `t` or before): every start is a start by
      `t`, and no more ends are before `t` than there are ends. */
  lemma {:induction false} KeysAtMost(pre: seq<Event>, t: int)
    requires forall i :: 0 <= i < |pre| ==> SortKey(pre[i]) <= 2 * t + 1
    ensures Count(pre, StartsBy(t)) == Count(pre, IsStart)
    ensures Count(pre, EndsBefore(t)) <= Count(pre, IsEnd)
  {
    CountAgree(pre, IsStart, StartsBy(t));
    CountMonotone(pre, EndsBefore(t), IsEnd);
  }

  /** Events with keys up to `2t` (before the ends at minute `t`): every end is also an
      end before `t`. */
  lemma {:induction false} KeysBelowEnds(pre: seq<Event>, t: int)
    requires forall i :: 0 <= i < |pre| ==> SortKey(pre[i]) <= 2 * t
    ensures Count(pre, StartsBy(t)) == Count(pre, IsStart)
    ensures Count(pre, EndsBefore(t)) == Count(pre, IsEnd)
  {
    CountAgree(pre, IsStart, StartsBy(t));
    CountAgree(pre, IsEnd, EndsBefore(t));
  }

  /** Events with keys from `2t` on: none ends before `t`. */
  lemma {:induction false} KeysFrom(post: seq<Event>, t: int)
    requires forall i :: 0 <= i < |post| ==> SortKey(post[i]) >= 2 * t
    ensures Count(post, EndsBefore(t)) == 0
  {
    CountNone(post, EndsBefore(t));
  }

  /** Events with keys above `2t`: none starts by `t` and none ends before it. */
  lemma {:induction false} KeysAbove(post: seq<Event>, t: int)
    requires forall i :: 0 <= i < |post| ==> SortKey(post[i]) > 2 * t
    ensures Count(post, StartsBy(t)) == 0
    ensures Count(post, EndsBefore(t)) == 0
  {
    CountNone(post, StartsBy(t));
    CountNone(post, EndsBefore(t));
  }

  /** The prefix of the sorted events up to the starts at minute `t` has exactly the
      running count "starts by `t` minus ends before `t`". */
  lemma PrefixAtMinute(s: seq<Event>, t: int) returns (j: nat)
    requires Sorted(s)
    ensures j <= |s|
    ensures forall i :: 0 <= i < j ==> SortKey(s[i]) <= 2 * t
    ensures Running(s[..j]) == Count(s, StartsBy(t)) - Count(s, EndsBefore(t))
  {
    j := SplitAt(s, 2 * t);
    var pre, post := s[..j], s[j..];
    forall i | 0 <= i < |pre|
      ensures SortKey(pre[i]) <= 2 * t
    {
      assert pre[i] == s[i];
    }
    forall i | 0 <= i < |post|
      ensures SortKey(post[i]) > 2 * t
    {
      assert post[i] == s[j + i];
    }
    KeysBelowEnds(pre, t);
    KeysAbove(post, t);
    CountSplit(s, j, StartsBy(t));
    CountSplit(s, j, EndsBefore(t));
  }

  /** In a sorted list, the keys before position `j` are at most the key at `j - 1`,
      and the keys from `j` on are at least that key, and at least the key at `j`. */
  lemma KeysAround(s: seq<Event>, j: nat)
    requires Sorted(s) && 1 <= j <= |s|
    ensures forall i :: 0 <= i < j ==> SortKey(s[..j][i]) <= SortKey(s[j - 1])
    ensures forall i :: 0 <= i < |s| - j ==> SortKey(s[j..][i]) >= SortKey(s[j - 1])
    ensures j < |s| ==> forall i :: 0 <= i < |s| - j ==> SortKey(s[j..][i]) >= SortKey(s[j])
  {
    forall i | 0 <= i < j ensures SortKey(s[..j][i]) <= SortKey(s[j - 1]) {
      assert s[..j][i] == s[i];
      assert i == j - 1 || NoLater(s[i], s[j - 1]);
    }
    forall i | 0 <= i < |s| - j ensures SortKey(s[j..][i]) >= SortKey(s[j - 1]) {
      assert s[j..][i] == s[j + i];
      assert NoLater(s[j - 1], s[j + i]);
    }
    if j < |s| {
      forall i | 0 <= i < |s| - j ensures SortKey(s[j..][i]) >= SortKey(s[j]) {
        assert s[j..][i] == s[j + i];
        assert i == 0 || NoLater(s[j], s[j + i]);
      }
    }
  }

  /** Any non-empty prefix of the sorted events has a running count no larger than
      "starts by `t` minus ends before `t`" at the time `t` of its last event. */
  lemma PrefixBelowMinute(s: seq<Event>, j: nat)
    requires Sorted(s) && 1 <= j <= |s|
    ensures var t := s[j - 1].time;
      Running(s[..j]) <= Count(s, StartsBy(t)) - Count(s, EndsBefore(t))
  {
    var t: int := s[j - 1].time;
    KeysAround(s, j);
    KeysAtMost(s[..j], t);
    KeysFrom(s[j..], t);
    CountSplit(s, j, StartsBy(t));
    CountSplit(s, j, EndsBefore(t));
  }

  // ---------------------------------------------------------------------
  // The driver count is the highest coverage

  /** Coverage of minute `t` as a running count of the sorted events. */
  lemma CoverageAsRunning(entries: seq<Interval>, t: int)
    requires Forward(entries)
    ensures var s := SortEvents(EventsOf(entries));
      Count(s, StartsBy(t)) - Count(s, EndsBefore(t)) == Covering(entries, t)
  {
    var s := SortEvents(EventsOf(entries));
    SortEventsSorted(EventsOf(entries));
    CountPermutation(s, EventsOf(entries), StartsBy(t));
    CountPermutation(s, EventsOf(entries), EndsBefore(t));
    EventCounts(entries, t);
    CoveringByCounts(entries, t);
  }

  /** No minute is covered by more entries than the driver count. */
  lemma CoveringAtMostDriverCount(entries: seq<Interval>, t: int)
    requires Forward(entries)
    ensures Covering(entries, t) <= Busiest(entries).driverCount
  {
    var s := SortEvents(EventsOf(entries));
    SortEventsSorted(EventsOf(entries));
    var j := PrefixAtMinute(s, t);
    CoverageAsRunning(entries, t);
    PeakIsMaximum(s);
    SweepCounts(s, |s|);
  }

  /** For entries that end after they start, the driver count is the largest number of
      entries covering one minute of the day, both ends of an entry included. */
  lemma DriverCountIsMaxCovering(entries: seq<Interval>)
    requires Forward(entries)
    ensures Busiest(entries).driverCount == MaxCovering(entries, 1439)
  {
    var s := SortEvents(EventsOf(entries));
    SortEventsSorted(EventsOf(entries));
    SweepCounts(s, |s|);
    MaxCoveringIsMaximum(entries, 1439);
    var u :| 0 <= u <= 1439 && Covering(entries, u) == MaxCovering(entries, 1439);
    CoveringAtMostDriverCount(entries, u);
    PeakIsMaximum(s);
    var j :| 0 <= j <= |s| && Running(s[..j]) == Peak(s);
    if j > 0 {
      PrefixBelowMinute(s, j);
      CoverageAsRunning(entries, s[j - 1].time);
    } else {
      assert s[..j] == [];
    }
  }

  /** At least one driver whenever there is an entry that ends after it starts. */
  lemma NonEmptyHasDriver(entries: seq<Interval>)
    requires Forward(entries) && entries != []
    ensures Busiest(entries).driverCount >= 1
  {
    var t := entries[0].start;
    CoveringAtMostDriverCount(entries, t);
    CountMonotone(entries[..1], Covers(t), Covers(t));
    CountPrefix(entries, 1, Covers(t));
    assert entries[..1][..0] == [];
  }
}
