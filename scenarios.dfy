/** Worked sweeps over small lists of breaks. */
module Scenarios {
  import opened TimeEntry
  import opened Events
  import opened BusiestPeriod

  /** Two overlapping breaks, 08:00-08:30 and 08:15-08:45: two drivers from 08:15 to 08:30. */
  lemma OverlappingBreaks()
    ensures Busiest([Interval(480, 510), Interval(495, 525)]) == Period(At(495), At(510), 2)
  {
    var a, b, c, d := Event(480, Start), Event(510, End), Event(495, Start), Event(525, End);
    OverlappingEvents();
    var s := [a, c, b, d];
    var st1 := Step(Initial, s[0], 4);
    var st2 := Step(st1, s[1], 4);
    var st3 := Step(st2, s[2], 4);
    assert SweepOf(s[..1], 4) == st1 by { assert s[..1][..0] == []; }
    assert SweepOf(s[..2], 4) == st2 by { assert s[..2][..1] == s[..1]; }
    assert SweepOf(s[..3], 4) == st3 by { assert s[..3][..2] == s[..2]; }
    assert SweepOf(s, 4) == Step(st3, s[3], 4) by { assert s[..3] == s[..|s| - 1]; }
  }

  lemma OverlappingEvents()
    ensures SortEvents(EventsOf([Interval(480, 510), Interval(495, 525)]))
      == [Event(480, Start), Event(495, Start), Event(510, End), Event(525, End)]
  {
    var entries := [Interval(480, 510), Interval(495, 525)];
    var a, b, c, d := Event(480, Start), Event(510, End), Event(495, Start), Event(525, End);
    assert entries[..1] == [Interval(480, 510)] && entries[..1][..0] == [];
    assert EventsOf(entries) == [a, b, c, d];
    assert [a, b, c, d][1..] == [b, c, d] && [b, c, d][1..] == [c, d] && [c, d][1..] == [d] && [d][1..] == [];
    assert SortEvents([d]) == [d];
    assert SortEvents([c, d]) == Insert(c, [d]) == [c, d];
    assert [c, d][1..] == [d] && Insert(b, [d]) == [b, d];
    assert SortEvents([b, c, d]) == Insert(b, [c, d]) == [c] + Insert(b, [d]) == [c, b, d];
    assert SortEvents([a, b, c, d]) == Insert(a, [c, b, d]) == [a, c, b, d];
  }

  /** Breaks that touch, 08:00-08:15 and 08:15-08:30: at 08:15 the second start sorts
      before the first end, so the two count as overlapping for that minute. */
  lemma TouchingBreaks()
    ensures Busiest([Interval(480, 495), Interval(495, 510)]) == Period(At(495), At(495), 2)
  {
    var a, b, c, d := Event(480, Start), Event(495, End), Event(495, Start), Event(510, End);
    TouchingEvents();
    var s := [a, c, b, d];
    var st1 := Step(Initial, s[0], 4);
    var st2 := Step(st1, s[1], 4);
    var st3 := Step(st2, s[2], 4);
    assert SweepOf(s[..1], 4) == st1 by { assert s[..1][..0] == []; }
    assert SweepOf(s[..2], 4) == st2 by { assert s[..2][..1] == s[..1]; }
    assert SweepOf(s[..3], 4) == st3 by { assert s[..3][..2] == s[..2]; }
    assert SweepOf(s, 4) == Step(st3, s[3], 4) by { assert s[..3] == s[..|s| - 1]; }
  }

  lemma TouchingEvents()
    ensures SortEvents(EventsOf([Interval(480, 495), Interval(495, 510)]))
      == [Event(480, Start), Event(495, Start), Event(495, End), Event(510, End)]
  {
    var entries := [Interval(480, 495), Interval(495, 510)];
    var a, b, c, d := Event(480, Start), Event(495, End), Event(495, Start), Event(510, End);
    assert entries[..1] == [Interval(480, 495)] && entries[..1][..0] == [];
    assert EventsOf(entries) == [a, b, c, d];
    assert [a, b, c, d][1..] == [b, c, d] && [b, c, d][1..] == [c, d] && [c, d][1..] == [d] && [d][1..] == [];
    assert SortEvents([d]) == [d];
    assert SortEvents([c, d]) == Insert(c, [d]) == [c, d];
    assert [c, d][1..] == [d] && Insert(b, [d]) == [b, d];
    assert SortEvents([b, c, d]) == Insert(b, [c, d]) == [c] + Insert(b, [d]) == [c, b, d];
    assert SortEvents([a, b, c, d]) == Insert(a, [c, b, d]) == [a, c, b, d];
  }
}
