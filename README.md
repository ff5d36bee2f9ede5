# BreakTimes: the busiest break period, in Dafny

BreakTimes is a small console program that keeps a list of driver break
times. Each break is a start and an end time of day, `HH:MM`. The program
loads the list from a store file with one `HH:MM-HH:MM` line per break. It
accepts new breaks typed as `HH:MMHH:MM` and appends each one to the store.
After every change it reports the busiest period: the earliest window with
the most drivers on break at once, and how many drivers that is.

This project models the program's core (`BreakTimes/Program.cs`) and proves
properties of that model. The core has four parts, one Dafny module for each:

- **TimeEntry** (`time_entry.dfy`) covers `ParseTimeEntry`. It checks the
  store-line and user-input patterns character by character, picks out the
  two `HH:MM` fields, and rejects a break whose start and end are equal. It
  also covers the reformatting of user input into a store line. The module
  proves that the parser accepts exactly the formatted intervals of two
  distinct times, and that a reformatted input reads back as the same
  interval.
- **Events** (`events.dfy`) and **BusiestPeriod** (`busiest.dfy`) cover
  `FindBusiestPeriod`. Each entry gives a start event and an end event. The
  events are sorted by time, with starts before ends at the same time. A
  sweep over them keeps the running count and two high-water marks: the
  highest count after a start (`maxDrivers`) and the highest count left
  after an end (`driversLeftAfterBreakEnd`). The method is an imperative
  loop. It is proved equal to a function `Busiest`, and that function is
  characterised by reference quantities over prefixes of the sorted events.
  **Overlap** (`overlap.dfy`) relates the driver count to how many breaks
  cover each minute.
- **Store** (`store.dfy`) covers `SearchFileContents` and `BreakTimeInput`.
  They work on a shared `EntryList` object whose `items` field is the
  program's `timeEntries` list. Loading clears the list and appends every
  line that parses. An accepted input is added to the list, and its store
  line is given back.
- **PeriodEnd** (`period_end.dfy`) records a defect in how the end time is
  chosen (see Findings), together with a corrected sweep and its proofs.
  **Scenarios** (`scenarios.dfy`) works through small example inputs.

A time is a minute of the day, `0..1439`. A result time that the sweep never
sets keeps the program's initial `DateTime.MinValue`, written `Unset`. It is
shown as `00:00`, as the program prints it.

## Model

| member | source | states |
|---|---|---|
| TimeEntry.Matches | BreakTimes/Program.cs:115 | The anchored store pattern and user pattern, checked character by character: eleven or ten characters, two `HH:MM` fields with hours 00-23 and minutes 00-59, and a hyphen between them in the store pattern (line 141 is the user pattern). Characterised by `TimeEntry.MatchesExactlyFormats`. |
| TimeEntry.ParseTimeEntry | BreakTimes/Program.cs:12-51 | A result is given only for an entry that matches the pattern, and its start and end differ. `TimeEntry.ParseAcceptsExactly`, `TimeEntry.ParseSound` and `TimeEntry.ParseComplete` characterise it fully. |
| TimeEntry.MatchesExactlyFormats | BreakTimes/Program.cs:16 | A string matches the store or user pattern exactly when it is the `HH:MM-HH:MM` (or `HH:MMHH:MM`) text of some pair of times of day. |
| TimeEntry.NoHyphenInUserInput | BreakTimes/Program.cs:19-26 | A string that matches the user pattern has no hyphen, so the end field is taken from position 5 and not 6. |
| TimeEntry.ClockTextParses | BreakTimes/Program.cs:31-32 | The `HH:MM` text of a minute is a valid field, and `ParseExact` of it gives that minute back. |
| TimeEntry.ClockFieldIsText | BreakTimes/Program.cs:31-32 | Every valid `HH:MM` field is the text of the minute it parses to, so the parse is one-to-one. |
| TimeEntry.FormatFields | BreakTimes/Program.cs:18-26 | The text of an interval matches its pattern; its first five characters are the start field, and the rest after the separator is the end field. |
| TimeEntry.ParseSound | BreakTimes/Program.cs:12-51 | Whenever `ParseTimeEntry` returns a pair, the start and end differ and the entry is exactly the text of that pair in the given pattern. |
| TimeEntry.ParseComplete | BreakTimes/Program.cs:12-51 | The text of any pair of distinct times parses back to that pair, in both patterns. |
| TimeEntry.ParseRejectsZeroLength | BreakTimes/Program.cs:28-40 | An entry whose start equals its end matches the pattern but is still refused (the break does not last a minute). |
| TimeEntry.ParseAcceptsExactly | BreakTimes/Program.cs:12-51 | `ParseTimeEntry` succeeds if and only if the entry is the text of a pair of distinct times. |
| TimeEntry.Reformat | BreakTimes/Program.cs:149 | The store line is one character longer than the input, has a hyphen at position 5, and keeps both fields unchanged. |
| TimeEntry.ReformatRoundTrip | BreakTimes/Program.cs:141-152 | A valid user input, once reformatted, matches the store pattern and parses to the same interval as the input. |
| TimeEntry.AcceptsEndBeforeStart | BreakTimes/Program.cs:115 | `23:50-00:10` is accepted as the interval 1430..10: an end before the start is not refused. |
| TimeEntry.RejectsHourOutOfRange | BreakTimes/Program.cs:115 | `25:00-08:00` is refused: the hour pattern allows 00 to 23 only. |
| TimeEntry.RejectsEqualUserInput | BreakTimes/Program.cs:141 | `13:1513:15` is refused because its start equals its end. |
| Events.EventsOf | BreakTimes/Program.cs:55-61 | The event list has two events per entry. `Events.EventsOfAt` says which events they are and in which order. |
| Events.SortEvents | BreakTimes/Program.cs:64 | No contract of its own: `Events.SortEventsSorted` proves the result sorted by time, with starts first, and a permutation of the input, and `Events.SortedUnique` makes it the only such list. |
| Events.EventsOfAt | BreakTimes/Program.cs:55-61 | Entry `i` gives event `2i`, a start at its start time, and event `2i+1`, an end at its end time. |
| Events.EventsOfCounts | BreakTimes/Program.cs:55-61 | The event list has one start and one end per entry. |
| Events.EventsPermutation | BreakTimes/Program.cs:55-61 | Entry lists that are permutations of each other give event lists that are permutations of each other. |
| Events.SortKeyOrder | BreakTimes/Program.cs:64 | The sort key orders by time and then puts starts (0) before ends (1); two events with the same key are equal. |
| Events.SortEventsSorted | BreakTimes/Program.cs:64 | The sorted events are in key order and are a permutation of the input events. |
| Events.SortedUnique | BreakTimes/Program.cs:64 | Two sorted arrangements of the same events are identical, so the result of the sort does not depend on the input order. |
| Events.SortSortedIsIdentity | BreakTimes/Program.cs:64 | Sorting a list that is already in key order leaves it unchanged. |
| Events.InsertSorted | BreakTimes/Program.cs:64 | Inserting an event into a sorted list keeps it sorted and adds exactly that event. |
| BusiestPeriod.Step | BreakTimes/Program.cs:74-96 | No contract of its own: one iteration of the sweep loop. `BusiestPeriod.SweepCounts`, `BusiestPeriod.SweepEarliestPeak` and `BusiestPeriod.SweepEndMark` state what repeated steps compute. |
| BusiestPeriod.SweepOf | BreakTimes/Program.cs:72-97 | No contract of its own: the loop's variables after a prefix of the events. The same three lemmas characterise it by `Running`, `Peak` and `EndPeak`. |
| BusiestPeriod.Busiest | BreakTimes/Program.cs:53-103 | No contract of its own: the period the program computes. `BusiestPeriod.DriverCountBounds`, `BusiestPeriod.OrderIndependent`, `Overlap.DriverCountIsMaxCovering` and `BusiestPeriod.SingleEntry` characterise it. |
| BusiestPeriod.FindBusiestPeriod | BreakTimes/Program.cs:53-103 | The method returns the rendered `Busiest` period of its entries; the driver count is between 0 and the number of entries, and both times are five-character `HH:MM` text. |
| BusiestPeriod.PeakIsMaximum | BreakTimes/Program.cs:83-87 | `Peak` is the largest running count over all prefixes of the events, and some prefix reaches it. |
| BusiestPeriod.EndPeakIsMaximum | BreakTimes/Program.cs:88-92 | `EndPeak` is the largest running count over the prefixes that end with an end event, and some such prefix reaches it unless it is 0. |
| BusiestPeriod.SweepCounts | BreakTimes/Program.cs:72-97 | After any prefix of the events, the sweep's current count is starts minus ends, `maxDrivers` is `Peak`, and `driversLeftAfterBreakEnd` is `EndPeak`. |
| BusiestPeriod.SweepEarliestPeak | BreakTimes/Program.cs:83-87 | The start time is the time of the first start event whose prefix reaches the peak count (so a later tie does not move it), or `Unset` when the peak is 0. |
| BusiestPeriod.SweepEndMark | BreakTimes/Program.cs:88-92 | Outside the two-event case, the end time is the time of the first end event whose prefix reaches `EndPeak`, or `Unset` when `EndPeak` is 0. |
| BusiestPeriod.MarksNeverDecrease | BreakTimes/Program.cs:83-92 | Neither high-water mark decreases as the sweep goes on. |
| BusiestPeriod.RunningAtMostStarts | BreakTimes/Program.cs:74-81 | The running count after any prefix is at most the number of start events. |
| BusiestPeriod.DriverCountBounds | BreakTimes/Program.cs:66-67 | The driver count is between 0 and the number of entries; an empty list gives `00:00`-`00:00` with 0 drivers, because both times keep their initial value. |
| BusiestPeriod.OrderIndependent | BreakTimes/Program.cs:55-64 | The busiest period depends only on the multiset of entries, not on their order. |
| BusiestPeriod.SingleEntry | BreakTimes/Program.cs:93-96 | A single break whose end is not before its start gives itself with 1 driver; the two-event rule forces its end time. A single break whose end is before its start gives no start time, its end time and 0 drivers. |
| Overlap.MaxCoveringIsMaximum | BreakTimes/Program.cs:53-103 | `MaxCovering(entries, t)` is the largest number of breaks covering any one minute up to `t`, and some minute reaches it. |
| Overlap.CoveringByCounts | BreakTimes/Program.cs:55-61 | For forward breaks, the breaks covering minute `t` are those opened by `t` minus those closed before `t`. |
| Overlap.EventCounts | BreakTimes/Program.cs:55-61 | Start events at or before `t` match the breaks opened by `t`, and end events before `t` match the breaks closed before `t`. |
| Overlap.CoverageAsRunning | BreakTimes/Program.cs:64-81 | In the sorted events, starts up to `t` minus ends before `t` is the number of breaks covering `t`. |
| Overlap.PrefixAtMinute | BreakTimes/Program.cs:64-81 | Some prefix of the sorted events ends just before the end events at `t`, and its running count is the coverage count at `t`. |
| Overlap.PrefixBelowMinute | BreakTimes/Program.cs:64-81 | The running count after any prefix is at most the coverage at the time of that prefix's last event. |
| Overlap.CoveringAtMostDriverCount | BreakTimes/Program.cs:83-87 | For forward breaks, no minute is covered by more breaks than the reported driver count. |
| Overlap.DriverCountIsMaxCovering | BreakTimes/Program.cs:53-103 | For forward breaks, the reported driver count is exactly the largest number of breaks covering one minute of the day. |
| Overlap.NonEmptyHasDriver | BreakTimes/Program.cs:83-87 | A non-empty list of forward breaks reports at least one driver. |
| Store.EntryList.constructor | BreakTimes/Program.cs:166 | The list starts empty. |
| Store.SearchFileContents | BreakTimes/Program.cs:105-136 | When the file cannot be read, the result is `""` and the list is unchanged. Otherwise the result is the path, and the list is exactly the entries parsed from the lines that match, in line order, none of zero length. |
| Store.BreakTimeInput | BreakTimes/Program.cs:138-162 | A refused input changes nothing and writes nothing. An accepted input is ten characters long; its entry is added at the end of the list; its reformatted store line is written; and the report is the busiest period of the new list. The method keeps the list free of zero-length entries. |
| Store.Accepted | BreakTimes/Program.cs:112-126 | The loaded list has at most one entry per line. `Store.AcceptedMembership` and `Store.AcceptedAllValid` say which entries, in line order. |
| Store.AcceptedAppend | BreakTimes/Program.cs:112-126 | Loading two runs of lines one after the other gives the entries of the first followed by those of the second. |
| Store.AcceptedMembership | BreakTimes/Program.cs:112-126 | An entry is in the loaded list if and only if some line parses to it. |
| Store.AcceptedNonZero | BreakTimes/Program.cs:112-126 | No loaded entry has equal start and end. |
| Store.AcceptedAllValid | BreakTimes/Program.cs:112-126 | When every line parses, the list has one entry per line, each the parse of its line. |
| Store.StoreRoundTrip | BreakTimes/Program.cs:109-126 | Writing entries of distinct times as store lines and loading them back gives the same entries in the same order. |
| Store.LinesAt | BreakTimes/Program.cs:150 | Store line `i` is the `HH:MM-HH:MM` text of entry `i`. |
| Store.ReloadAgrees | BreakTimes/Program.cs:147-152 | When the store text is empty or ends with a line break, so that the written line becomes a line of its own: loading the store after the line for an accepted input was appended gives the old entries plus the input's entry. For entries parsed on one day, that is the list BreakTimeInput holds in memory. |
| Store.SkipsInvalidLine | BreakTimes/Program.cs:118-125 | A line with an hour out of range is skipped, and the lines around it still load. |
| PeriodEnd.EndLostWithOneDriver | BreakTimes/Program.cs:88-96 | With two or more breaks and a busiest count of 1, the end time is never set and shows as `00:00`. |
| PeriodEnd.DisjointBreaksLoseEnd | BreakTimes/Program.cs:88-100 | The breaks 08:00-08:15 and 09:00-09:15 give the period 08:00-`00:00` with 1 driver. |
| PeriodEnd.CorrectedBusiest | BreakTimes/Program.cs:53-103 | No contract of its own: the period with the end time corrected. `PeriodEnd.CorrectedPeriodCovered`, `PeriodEnd.CorrectedKeepsStartAndCount` and `PeriodEnd.CorrectedAgreesFromTwoDrivers` characterise it. |
| PeriodEnd.CorrectedCounts | BreakTimes/Program.cs:74-87 | The corrected sweep keeps the same current count and maximum as the program's sweep. |
| PeriodEnd.CorrectedMarks | BreakTimes/Program.cs:83-92 | In the corrected sweep, the start is the first peak. The end is the time of the end event right after that peak, once that event has been seen. |
| PeriodEnd.FirstPeakUnique | BreakTimes/Program.cs:83-87 | The first prefix to reach the peak is unique. |
| PeriodEnd.FirstEndPeakUnique | BreakTimes/Program.cs:88-92 | The first end prefix to reach the end-side peak is unique. |
| PeriodEnd.CorrectedKeepsStartAndCount | BreakTimes/Program.cs:83-87 | The corrected sweep reports the same start time and driver count as the program. |
| PeriodEnd.PeakBeforeLastEvent | BreakTimes/Program.cs:72-97 | The first peak is never the last event, since every break ends: the count is back to 0 after all the events. |
| PeriodEnd.EndMarkAfterPeak | BreakTimes/Program.cs:88-92 | When the event after the first peak is an end and the peak is at least 2, the end-side mark is one below the peak and is first reached right after the peak. |
| PeriodEnd.ProgramEndAfterPeak | BreakTimes/Program.cs:88-92 | In that case the program's end time is the time of the end event right after the peak. |
| PeriodEnd.CorrectedAgreesFromTwoDrivers | BreakTimes/Program.cs:53-103 | For any list with a busiest count of at least 2, the corrected period is exactly the program's period. |
| PeriodEnd.CorrectedPeriodCovered | BreakTimes/Program.cs:53-103 | For a non-empty list of forward breaks, the corrected period has both times set, with start <= end and at least one driver. Every minute from start to end is covered by exactly that many breaks, and every earlier minute by fewer, so it is the earliest busiest window. |
| Scenarios.OverlappingBreaks | BreakTimes/Program.cs:53-103 | 08:00-08:30 and 08:15-08:45 give 08:15-08:30 with 2 drivers. |
| Scenarios.TouchingBreaks | BreakTimes/Program.cs:64 | 08:00-08:15 and 08:15-08:30 give 08:15-08:15 with 2 drivers: at a shared minute the start sorts before the end, so the breaks overlap there. |

## Left out

- Console input and output, the command loop in `Main` and its messages are not modelled. The messages printed for a refused line or input are left out.
- Reading the store file is not modelled. The lines read are a parameter of `SearchFileContents`, and `None` stands for a read that throws.
- Appending to the store file is not modelled. `BreakTimeInput` returns the line it would write. An exception from the `StreamWriter` is not caught in the program, and it is not modelled.
- Store.ReloadAgrees: the append is modelled as one more line after the store's lines. That holds only when the store text is empty or ends with a line break. Otherwise `WriteLine` continues the last line (`08:00-08:15` followed by input `09:0009:15` gives the line `08:00-08:1509:00-09:15`); on reload that line is rejected, so both entries are lost, while the list in memory holds both.
- `BreakTimeInput` takes the string `input[0]` directly. The rest of the command-line split belongs to `Main`.
- `DateTime` is reduced to the minute of the day. `ParseExact` on a field the pattern accepts gives the date of the day it runs, at that time. The model drops that date, so it takes every entry in the list to have been parsed on the same day.
- Entries parsed on different days are not modelled. The list keeps its entries across loads and inputs, and the sort compares whole `DateTime` values. So an entry typed after midnight sorts after the entries loaded the day before, whatever its time of day. For example, `23:00-23:30` loaded before midnight and `08:0008:30` typed after it give `23:00-00:00` with 1 driver in the program; the model gives start 08:00. Reloading the store parses every line on one day again, so across midnight the reloaded list can also differ from the one in memory.
- The regular-expression engine is replaced by a character-by-character check of the two patterns. In .NET, `\d` also accepts non-ASCII digits, and `$` also matches before a final newline. On such input `ParseExact` either throws or the two fields are equal, so the program also returns no entry. Accepting only ASCII digits therefore gives the same results.
- The catch in `ParseTimeEntry` is not modelled as a separate path. It is reached only on the non-ASCII-digit or final-newline inputs of the line above, where `ParseExact` throws and the catch returns null; that is what the character check gives.
- The result times use culture-dependent `ToString` and string splitting. They are modelled as zero-padded `HH:MM`, with `DateTime.MinValue` shown as `00:00`.
- A break that crosses midnight (end time before start time) is accepted by the parser, as in the program. Lemmas about coverage require every entry to end after it starts (`Forward`), because the program gives such a break no meaning.
- Overlap convention: the sort puts a start before an end at the same minute. So the program counts a break as covering both its start minute and its end minute. The coverage lemmas use this closed interval, `start <= t <= end`, following the code. A half-open `[start, end)` reading would not match what the program computes (see `Scenarios.TouchingBreaks`).
- The `List` of entries is modelled as a `seq` field of the `EntryList` object. The LINQ sort is an insertion sort. Both sorts give the same result, because events with equal keys are equal.
- The `else` branch that counts neither a start nor an end (`StartOrEnd` other than 0 or 1) cannot be reached: only 0 and 1 are ever produced. `Step` keeps it anyway.

## Findings

| source | as written | input that shows it | evidently intended | confidence | as-written member | corrected member |
|---|---|---|---|---|---|---|
| BreakTimes/Program.cs:88-96 | The end time is set only when the count after an end event rises above every earlier post-end count, or when there are exactly two events. With two or more breaks and at most 1 driver at once, every end leaves 0 drivers. The end time then keeps `DateTime.MinValue`. | 08:00-08:15 and 09:00-09:15 report `08:00-00:00 with 1 drivers` | `08:00-08:15 with 1 drivers`: the end of the earliest busiest window | not executed | PeriodEnd.DisjointBreaksLoseEnd, PeriodEnd.EndLostWithOneDriver | PeriodEnd.CorrectedBusiest, with PeriodEnd.CorrectedPeriodCovered and PeriodEnd.CorrectedAgreesFromTwoDrivers |

The corrected sweep records the end at the first end event after a new
maximum. For breaks that end after they start, it returns the earliest
window in which every minute is covered by the maximum number of breaks. For
any list of breaks, including ones that cross midnight, it agrees with the
program whenever that maximum is at least 2. `Store.BreakTimeInput` still reports
the program's own period, since it models the program as written.
