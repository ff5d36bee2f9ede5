/** The in-memory list of break times and the two operations that change it.

    SearchFileContents replaces the list with the store lines that parse;
    BreakTimeInput adds one parsed user input to it, gives back the line the
    program appends to the store and reports the new busiest period.  Reading
    and writing the store file is not part of this model: the lines read are a
    parameter (`None` when the file cannot be read) and the line written is a
    result.
 */
module Store {
  import opened TimeEntry
  import opened BusiestPeriod

  /** The program's `timeEntries` list, shared by the operations. */
  class EntryList {
    var items: seq<Interval>

    constructor ()
      ensures items == []
    {
      items := [];
    }
  }

  /** The results of `f` on the elements of `s` it succeeds on, in order. */
  function Successes<A, B>(s: seq<A>, f: A -> Option<B>): (r: seq<B>)
    ensures |r| <= |s|
  {
    if s == [] then [] else Successes(s[..|s| - 1], f) + Present(f(s[|s| - 1]))
  }

  function Present<B>(r: Option<B>): seq<B> {
    match r
    case Some(v) => [v]
    case None => []
  }

  /** The parse of a store line. */
  function StoreLine(): string -> Option<Interval> {
    (line: string) => ParseTimeEntry(line, FileLine)
  }

  /** The entries the store lines give, in line order: the parse of every line that
      matches the store pattern, the other lines skipped. */
  function Accepted(lines: seq<string>): (entries: seq<Interval>)
    ensures |entries| <= |lines|
  {
    Successes(lines, StoreLine())
  }

  /** No entry is a zero-length break. */
  predicate NonZero(entries: seq<Interval>) {
    forall i :: 0 <= i < |entries| ==> entries[i].start != entries[i].end
  }

  /** The store lines of the entries, one `HH:MM-HH:MM` line each. */
  function Lines(entries: seq<Interval>): (lines: seq<string>)
    ensures |lines| == |entries|
  {
    if entries == [] then []
    else Lines(entries[..|entries| - 1]) + [Format(entries[|entries| - 1], FileLine)]
  }

  /** SearchFileContents: on a read failure the list is left as it was and the result is
      empty; otherwise the list is cleared, every line that parses is appended in order,
      and the result is the path. */
  method SearchFileContents(filePath: string, contents: Option<seq<string>>, timeEntries: EntryList)
    returns (path: string)
    modifies timeEntries
    ensures contents.None? ==> path == "" && timeEntries.items == old(timeEntries.items)
    ensures contents.Some? ==> path == filePath && timeEntries.items == Accepted(contents.value)
    ensures contents.Some? ==> NonZero(timeEntries.items)
  {
    if contents.None? {
      return "";
    }
    var lines := contents.value;
    timeEntries.items := [];
    for i := 0 to |lines|
      invariant timeEntries.items == Accepted(lines[..i])
    {
      assert lines[..i + 1][..i] == lines[..i];
      var times := ParseTimeEntry(lines[i], FileLine);
      if times.Some? {
        timeEntries.items := timeEntries.items + [times.value];
      }
    }
    assert lines[..|lines|] == lines;
    AcceptedNonZero(lines);
    path := filePath;
  }

  /** BreakTimeInput: an input that parses under the user pattern is added to the list,
      its store line (with the hyphen inserted) is given back, and the busiest period of
      the new list is reported; any other input changes nothing. */
  method BreakTimeInput(input: string, timeEntries: EntryList)
    returns (written: Option<string>, report: Option<Report>)
    modifies timeEntries
    ensures ParseTimeEntry(input, UserInput).None? ==>
      written == None && report == None && timeEntries.items == old(timeEntries.items)
    ensures ParseTimeEntry(input, UserInput).Some? ==>
      |input| == 10 &&
      timeEntries.items == old(timeEntries.items) + [ParseTimeEntry(input, UserInput).value] &&
      written == Some(Reformat(input)) &&
      report == Some(RenderPeriod(Busiest(timeEntries.items)))
    ensures NonZero(old(timeEntries.items)) ==> NonZero(timeEntries.items)
  {
    var times := ParseTimeEntry(input, UserInput);
    if times.Some? {
      ParseSound(input, UserInput);
      var reformattedInput := input[..5] + "-" + input[5..];
      written := Some(reformattedInput);
      timeEntries.items := timeEntries.items + [times.value];
      var busiestPeriod := FindBusiestPeriod(timeEntries.items);
      report := Some(busiestPeriod);
    } else {
      written, report := None, None;
    }
  }

  // ---------------------------------------------------------------------
  // Properties of the successes of a partial function

  lemma {:induction false} SuccessesAppend<A, B>(a: seq<A>, b: seq<A>, f: A -> Option<B>)
    ensures Successes(a + b, f) == Successes(a, f) + Successes(b, f)
  {
    if b != [] {
      var b' := b[..|b| - 1];
      assert (a + b)[..|a + b| - 1] == a + b';
      SuccessesAppend(a, b', f);
    } else {
      assert a + b == a;
    }
  }

  lemma SuccessesSnoc<A, B>(a: seq<A>, x: A, f: A -> Option<B>)
    ensures Successes(a + [x], f) == Successes(a, f) + Present(f(x))
  {
    assert (a + [x])[..|a|] == a;
  }

  /** Every success comes from an element `f` succeeds on. */
  lemma {:induction false} SuccessesOrigin<A, B>(s: seq<A>, f: A -> Option<B>, v: B)
    requires v in Successes(s, f)
    ensures exists i :: 0 <= i < |s| && f(s[i]) == Some(v)
  {
    var init, last := s[..|s| - 1], s[|s| - 1];
    if v in Successes(init, f) {
      SuccessesOrigin(init, f, v);
      var i :| 0 <= i < |init| && f(init[i]) == Some(v);
      assert s[i] == init[i];
    }
  }

  /** Every element `f` succeeds on gives a success. */
  lemma {:induction false} SuccessesFrom<A, B>(s: seq<A>, f: A -> Option<B>, i: nat)
    requires i < |s| && f(s[i]).Some?
    ensures f(s[i]).value in Successes(s, f)
  {
    var init := s[..|s| - 1];
    if i < |init| {
      assert init[i] == s[i];
      SuccessesFrom(init, f, i);
    }
  }

  /** When `f` succeeds on every element, there is one success per element, in order. */
  lemma {:induction false} SuccessesAll<A, B>(s: seq<A>, f: A -> Option<B>)
    requires forall i :: 0 <= i < |s| ==> f(s[i]).Some?
    ensures |Successes(s, f)| == |s|
    ensures forall i :: 0 <= i < |s| ==> Successes(s, f)[i] == f(s[i]).value
  {
    if s != [] {
      var init, last := s[..|s| - 1], s[|s| - 1];
      forall i | 0 <= i < |init|
        ensures f(init[i]).Some?
      {
        assert init[i] == s[i];
      }
      SuccessesAll(init, f);
      forall i | 0 <= i < |s|
        ensures Successes(s, f)[i] == f(s[i]).value
      {
        if i < |init| {
          assert s[i] == init[i];
        }
      }
    }
  }

  // ---------------------------------------------------------------------
  // Properties of the loaded list

  /** The store lines of two files loaded one after the other give the entries of both. */
  lemma AcceptedAppend(a: seq<string>, b: seq<string>)
    ensures Accepted(a + b) == Accepted(a) + Accepted(b)
  {
    SuccessesAppend(a, b, StoreLine());
  }

  /** An entry is in the loaded list exactly when some line parses to it. */
  lemma AcceptedMembership(lines: seq<string>, v: Interval)
    ensures v in Accepted(lines) <==> exists i :: 0 <= i < |lines| && ParseTimeEntry(lines[i], FileLine) == Some(v)
  {
    if v in Accepted(lines) {
      SuccessesOrigin(lines, StoreLine(), v);
    }
    if exists i :: 0 <= i < |lines| && ParseTimeEntry(lines[i], FileLine) == Some(v) {
      var i :| 0 <= i < |lines| && ParseTimeEntry(lines[i], FileLine) == Some(v);
      SuccessesFrom(lines, StoreLine(), i);
    }
  }

  /** Every loaded entry is a break of two distinct times. */
  lemma AcceptedNonZero(lines: seq<string>)
    ensures NonZero(Accepted(lines))
  {
    var entries := Accepted(lines);
    forall k | 0 <= k < |entries|
      ensures entries[k].start != entries[k].end
    {
      SuccessesOrigin(lines, StoreLine(), entries[k]);
      var i :| 0 <= i < |lines| && StoreLine()(lines[i]) == Some(entries[k]);
      ParseSound(lines[i], FileLine);
    }
  }

  /** When every line parses, the loaded list has one entry per line, in line order. */
  lemma AcceptedAllValid(lines: seq<string>)
    requires forall i :: 0 <= i < |lines| ==> ParseTimeEntry(lines[i], FileLine).Some?
    ensures |Accepted(lines)| == |lines|
    ensures forall i :: 0 <= i < |lines| ==> Accepted(lines)[i] == ParseTimeEntry(lines[i], FileLine).value
  {
    SuccessesAll(lines, StoreLine());
  }

  /** Writing entries of two distinct times as store lines and loading them back gives
      the same entries. */
  lemma StoreRoundTrip(entries: seq<Interval>)
    requires NonZero(entries)
    ensures Accepted(Lines(entries)) == entries
  {
    var lines := Lines(entries);
    forall i | 0 <= i < |lines|
      ensures ParseTimeEntry(lines[i], FileLine) == Some(entries[i])
    {
      LinesAt(entries, i);
      ParseComplete(entries[i], FileLine);
    }
    AcceptedAllValid(lines);
  }

  /** Line `i` of the store lines is the text of entry `i`. */
  lemma {:induction false} LinesAt(entries: seq<Interval>, i: nat)
    requires i < |entries|
    ensures Lines(entries)[i] == Format(entries[i], FileLine)
  {
    if i < |entries| - 1 {
      LinesAt(entries[..|entries| - 1], i);
    }
  }

  /** The line BreakTimeInput writes for an accepted input loads back as the entry it
      added: loading the store after the input gives the list after the input.  `lines`
      are the store's lines before the append, so this takes the store text to be empty
      or to end with a line break; otherwise the written line would run on from the last
      one. */
  lemma ReloadAgrees(lines: seq<string>, input: string)
    requires ParseTimeEntry(input, UserInput).Some?
    ensures Accepted(lines + [Reformat(input)]) == Accepted(lines) + [ParseTimeEntry(input, UserInput).value]
  {
    ReformatRoundTrip(input);
    SuccessesSnoc(lines, Reformat(input), StoreLine());
  }

  /** A line with an hour out of range is skipped; the lines around it still load. */
  lemma SkipsInvalidLine(a: seq<string>, b: seq<string>)
    ensures Accepted(a + ["25:00-08:00"] + b) == Accepted(a) + Accepted(b)
  {
    var x := "25:00-08:00";
    assert StoreLine()(x) == None by {
      RejectsHourOutOfRange();
    }
    SuccessesSnoc(a, x, StoreLine());
    SuccessesAppend(a + [x], b, StoreLine());
  }
}
