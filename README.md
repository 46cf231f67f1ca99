# Class-scheduling board: schedule engine in Dafny

This project models the schedule engine of a tutor's class-scheduling board.
The board keeps a library of class definitions (name, fee, mode, type,
capacity, colour and a remembered recurrence rule). It also keeps a schedule
of dated instances, each a by-value copy of a definition with its own
identifier, day and `HH:mm` start and end times. The model covers:

- the leaf utilities of `utils.ts`:
  - `timeToMinutes`;
  - the visible time window of the grid (`getTimelineRange`);
  - the Monday-to-Sunday padded month view (`generateMonthDays`);
  - the recurrence expander (`applyRecurrence`);
- the schedule and library transitions of the board component in `App.tsx`:
  - saving a class, with or without a recurrence request;
  - clearing a class over an inclusive day window;
  - retiming one instance;
  - dropping a class onto a day;
  - removing one instance;
  - deleting a library entry.

Layout, one module per file:

- `types.dfy` (`Types`): the records of `types.ts`. A scheduled instance is
  `ScheduledClass(def, instanceId, date, startTime, endTime)`. The `...classDef`
  spread of the source becomes the nested `def`.
- `calendar.dfy` (`Calendar`): day numbers, weekday, month lengths and
  civil-date-to-day conversion. This is the part of the date library the
  engine relies on.
- `utils.dfy` (`Utils`): the `utils.ts` functions. `getTimelineRange`,
  `generateMonthDays` and `applyRecurrence` are loops in the source, so they
  are methods with loop invariants. `applyRecurrence` is proved equal to the
  recursive specification `Expand`, and the expander's properties are lemmas
  about `Expand`.
- `seqs.dfy` (`Seqs`): `filter` and `map` over sequences, with the algebra the
  proofs use.
- `transitions.dfy` (`Transitions`): each handler's new `classes` or
  `schedule` as a function of the old one. The filter/map/concatenation
  expressions of the source become these functions, and the policies they
  keep are lemmas.
- `board.dfy` (`App`): the component state as a class `Board` with fields
  `classes`, `schedule` and `nextId`. Its methods are the handlers. Each one
  sets the state to the corresponding `Transitions` function of the old state
  and keeps the invariant `Valid()`: library identifiers are unique, instance
  identifiers are unique, and every instance identifier is below the counter.

Modelling choices:

- Days are whole-day integers counted from 1970-01-01. The source's
  `yyyy-MM-dd` strings and `Date` objects are one-to-one renderings of these
  numbers, so date comparisons compare integers.
- `today` is a parameter.
- `crypto.randomUUID` is replaced by a counter (`Board.nextId`). Instance
  identifiers are natural numbers drawn from it in order.
- Times stay strings. `TimeToMinutes` reads a zero-padded `HH:mm` string, which
  is what the form's time inputs produce.
- Fees are integers.

Behaviours of the code the model keeps as written:

- The default grid window is 08:00-21:00 (utils.ts:28-29), although the
  comment at utils.ts:26 says 22:00.
- A drop uses 09:00/10:30 whenever the remembered time is missing or is an
  empty string (App.tsx:139-140, `||`).
- A plain save writes every field of the saved definition, the remembered rule
  included, into the class's non-past instances (App.tsx:110,
  `{...s, ...updatedClassDef}`).
- A plain save keeps the rule the submitted definition carries (App.tsx:86).
  The class form builds its definition without one (ClassModal.tsx:87-95).
  So a plain edit of an existing class erases its remembered rule, and later
  drops of that class use 09:00/10:30 (`Transitions.SaveThenDrop`).
- `every_other` parity on a recurring save is counted from the clamped start
  `max(startDate, today)`, because that is the start handed to the expander
  (App.tsx:105-106). The `range`-mode keep filter uses the window as entered,
  not the clamped one (App.tsx:102).
- A `weekly` rule without a weekday list emits nothing (utils.ts:57, `?.`).

## Model

The functions that are the handlers' own expressions (`Transitions.UpsertClass`,
`DeleteClass`, `UpdatedDefinition`, `Reconcile`, `PropagateEdit`, `ClearRange`,
`UpdateInstanceTime`, `RemoveInstance`, and `Utils.Expand` with its rule
`Accepts`) are specified by lemmas. Each lemma's row names the function it is
about.

| member | source | states |
|---|---|---|
| Calendar.Weekday | utils.ts:52 | the weekday of a day is in 0..6 (0 = Sunday) |
| Calendar.DaysInMonth | utils.ts:6-7 | a month has 28 to 31 days |
| Calendar.MarchYearLength | utils.ts:6-7 | a year counted from March has 366 days exactly when the next calendar year is a Gregorian leap year, else 365 |
| Calendar.NextMonthFirst | utils.ts:6-7 | the first of the next month (across year ends too) is exactly DaysInMonth days after the first of this month, so day numbers and month lengths agree |
| Calendar.KnownDates | utils.ts:52 | 1970-01-01 is day 0, a Thursday; 2024-06-03 is a Monday |
| Utils.TimeToMinutes | utils.ts:21-24 | a well-formed `HH:mm` gives a non-negative minute count of at most 99*60+99 |
| Utils.TimeToMinutesOfClockTime | utils.ts:21-24 | parsing the `HH:mm` rendering of HH and mm yields HH*60+mm |
| Utils.ClockTimeOfFields | utils.ts:21-24 | every well-formed time string is the rendering of its own HH and mm, so the parse reads exactly the written fields |
| Utils.GetTimelineRange | utils.ts:27-39 | the window contains 480..1260 and every instance's start and end; both ends are multiples of 60; min is 480 or some start floored to the hour, max is 1260 or some end ceiled to the hour (so each end is the extreme of the two); an empty schedule gives exactly 480..1260 |
| Utils.StartOfWeek | utils.ts:8 | the Monday on or before a day, less than a week earlier |
| Utils.EndOfWeek | utils.ts:9 | the Sunday on or after a day, less than a week later |
| Utils.WholeWeeks | utils.ts:8-9 | a span from a Monday to a later Sunday has a length divisible by 7 |
| Utils.GenerateMonthDays | utils.ts:5-18 | consecutive days from a Monday to a Sunday, a positive multiple of 7 of them, padding the month by less than a week on each side and containing every day of the base date's month |
| Utils.ApplyRecurrence | utils.ts:41-77 | the loop emits exactly the specification expansion `Expand` and advances the identifier counter by the number emitted |
| Utils.ExpandFromShape | utils.ts:50-74 | (about `ExpandFrom`) from any day on, emitted days are strictly increasing, inside the window, accepted by the rule, and numbered consecutively |
| Utils.ExpandFromComplete | utils.ts:50-74 | (about `ExpandFrom`) every accepted day of the remaining window is emitted |
| Utils.ExpandSpec | utils.ts:46-76 | (about `Expand` and `Accepts`) a day is emitted iff it lies in [startDate, endDate] and the frequency rule accepts it; at most one instance per day, in increasing order; each instance copies the definition and the rule's times and gets identifier firstId+i; startDate > endDate gives nothing |
| Utils.ExpandDailyCount | utils.ts:55 | (about `Expand`) `daily` yields exactly endDate - startDate + 1 instances (0 for a reversed window) |
| Utils.ExpandWeeklyWithoutDays | utils.ts:56-58 | (about `Expand`) `weekly` with no weekday list yields no instance |
| Utils.ExpandEveryOtherStart | utils.ts:59-62 | (about `Expand`) `every_other` emits the start day first and only days at an even distance from it |
| Seqs.Filter | App.tsx:96-100 | the result keeps exactly the elements that pass, and is no longer than the input |
| Seqs.FilterMultiplicity | App.tsx:96-100 | a passing element occurs in the result exactly as often as in the input, a failing one not at all (duplicates are neither merged nor dropped) |
| Seqs.Map | App.tsx:110 | the result has the input's length and is the function applied position by position |
| Seqs.FilterFilter | App.tsx:119-126 | filtering by a stronger predicate after a weaker one equals filtering by the stronger one (idempotence when equal) |
| Seqs.FilterMap | App.tsx:110 | a map that fixes the passing elements and never lets another pass leaves the passing subsequence unchanged |
| Transitions.FindIndex | App.tsx:89 | -1 iff no class has the identifier; otherwise the first position holding it |
| Transitions.FindClass | App.tsx:135 | None iff no class has the identifier; otherwise the library entry at the first position holding it (`FindIndex`) |
| Transitions.UpsertClassSpec | App.tsx:89-91 | (about `UpsertClass`) the saved definition ends up in the library; other identifiers' entries are kept and nothing else is added; a new identifier is appended at the end after the unchanged library; a known one is replaced in place (same length, same identifiers by position); unique identifiers stay unique |
| Transitions.DeleteClassSpec | App.tsx:260 | (about `DeleteClass`) the entries with that identifier, and only those, are gone; a missing identifier changes nothing; unique identifiers stay unique |
| Transitions.UpdatedDefinitionSpec | App.tsx:77-87 | (about `UpdatedDefinition` and `Remembered`) every field but the remembered rule is the submitted one; a recurring save remembers the request's times, frequency, weekday list and the window as entered (start not clamped); a plain save keeps exactly the submitted definition's rule |
| Transitions.FindAfterUpsert | App.tsx:89-91 | (about `UpsertClass` and `FindClass`) after the library save, looking the identifier up finds the saved definition, for a new and for a known identifier |
| Transitions.SaveThenDrop | App.tsx:79-140 | (about `UpsertClass` then `Drop`) a drop after a save appends one instance of the saved definition; after a recurring save with non-empty times it takes the request's times; after a plain save of a definition without a rule it takes 09:00/10:30 |
| Transitions.EffectiveStart | App.tsx:105 | the expansion start is the later of the entered start and today |
| Transitions.ExpansionFacts | App.tsx:106 | (about `Expand` on the clamped rule`) instances from the save's expansion belong to the saved definition, carry the request's times, lie in the clamped window, are accepted by the clamped rule and take identifiers firstId..firstId+n-1 |
| Transitions.ReconcileKeepsOtherClasses | App.tsx:96-107 | (about `Reconcile`) whatever the update mode, the other classes' instances form the same sequence (contents and order) after a recurring save |
| Transitions.ReconcileKeepsPast | App.tsx:97-107 | (about `Reconcile`) whatever the update mode, this class's instances dated before today form the same sequence after a recurring save |
| Transitions.ReconcileFutureOfClass | App.tsx:98-104 | (about `Reconcile` and `KeptFuture`) a pre-existing non-past instance of the class survives iff the mode is `range` and it is dated before the entered startDate or after the entered endDate; in `future` mode none survives |
| Transitions.ReconcileNewInstances | App.tsx:105-106 | (about `Reconcile`) every instance the save adds belongs to the saved definition, has the request's times, a counter identifier and a day from today to endDate (never in the past); `every_other` parity is counted from max(startDate, today); every accepted day from the clamped start to endDate gets one |
| Transitions.ReconcileUniqueIds | App.tsx:105-107 | (about `Reconcile`) a recurring save keeps instance identifiers unique and below the advanced counter |
| Transitions.DistinctInstances | App.tsx:105-107 | with unique identifiers, different instances have different identifiers |
| Transitions.PropagateEditPointwise | App.tsx:109-111 | (about `PropagateEdit`) a plain save keeps the schedule's length, identifiers, days and times position by position; a non-past instance of the class takes the new definition, every other instance keeps its own |
| Transitions.PropagateEditKeeps | App.tsx:110 | (about `PropagateEdit`) after a plain save the other classes and this class's past are the same sequences as before; unique identifiers stay unique |
| Transitions.PropagateEditIdempotent | App.tsx:110 | (about `PropagateEdit`) applying the same plain save twice equals applying it once |
| Transitions.ClearRangeSpec | App.tsx:115-126 | (about `ClearRange`) removes exactly the class's instances with start <= day <= end (both ends inclusive, past days included, no today guard); the other classes keep their sequence; clearing again changes nothing; unique identifiers stay unique |
| Transitions.UpdateInstanceTimeSpec | App.tsx:130-132 | (about `UpdateInstanceTime`) only startTime and endTime of the entries with the identifier change; every other entry is untouched; an unknown identifier leaves the schedule equal; unique identifiers stay unique |
| Transitions.RemoveInstanceCount | App.tsx:320 | (about `RemoveInstance`) with unique identifiers, removal shortens the schedule by one when the identifier is present and not at all otherwise |
| Transitions.RemoveInstanceSpec | App.tsx:320 | (about `RemoveInstance`) exactly the entries with that identifier are dropped; an unknown identifier leaves the schedule equal; unique identifiers stay unique |
| Transitions.DropStartTime | App.tsx:139 | the remembered start time when there is a non-empty one, otherwise 09:00; never empty |
| Transitions.DropEndTime | App.tsx:140 | the remembered end time when there is a non-empty one, otherwise 10:30; never empty |
| Transitions.Drop | App.tsx:134-149 | an unknown class leaves the schedule equal; otherwise exactly one instance is appended after the unchanged schedule, a copy of the first library entry with that identifier (the one `find` returns) with the given day, the given identifier and the drop times |
| App.Board.constructor | App.tsx:15-22 | an empty board (nothing persisted) satisfies the invariant |
| App.Board.SaveClass | App.tsx:75-113 | library upsert of the definition with the request remembered; a recurring save sets the schedule to the reconciliation with a fresh expansion numbered from the counter and advances the counter by the number of instances added; a plain save of a known class propagates the definition; a plain save of a new class leaves the schedule and counter alone; the invariant is kept |
| App.Board.DeleteClass | App.tsx:260 | the library loses the entry; schedule and counter are unchanged |
| App.Board.ClearRange | App.tsx:115-128 | the schedule becomes the inclusive-window clear of the old one; the library and counter are unchanged; the invariant is kept |
| App.Board.UpdateInstanceTime | App.tsx:130-132 | the schedule becomes the retimed old one; the invariant is kept |
| App.Board.RemoveInstance | App.tsx:320 | the schedule loses the entries with that identifier; the invariant is kept |
| App.Board.Drop | App.tsx:134-152 | the schedule becomes the drop of the old one; the counter advances exactly when the class is in the library; the invariant is kept |

## Left out

- Rendering, drag-and-drop event wiring, selection and modal state, theme,
  sidebar, rotation and search (App.tsx:199-365 and the
  components): presentation only.
- Persistence: the `localStorage` load/save effects (App.tsx:15-22, 45-48),
  the PNG export (App.tsx:154-164), the JSON project save and load
  (App.tsx:166-198) and the `alert` calls are I/O. The board starts empty, as
  with nothing saved. Loading a project replaces `classes` and `schedule`
  wholesale with whatever the file holds, so the invariant `Valid()` (unique
  identifiers) is not promised after a load.
- The hour-label loop (App.tsx:67-73), the week chunking of the month days
  (App.tsx:58-64) and the daily income sums (App.tsx:334-336): display
  arithmetic; the sums are floating point in the source.
- Undo/redo history, cloud sync and the natural-language agent. None of them
  has an implementation in `App.tsx` or `utils.ts`; the header only declares
  undo props.
- Time zones: `new Date('yyyy-MM-dd')` is midnight UTC while `today` is local
  midnight. Days are modelled as whole-day numbers, which assumes the two
  agree.
- The frequencies `odd` and `even` of the `RecurringConfig` type. The form
  never produces them; the expander's switch has no case for them.
- `ClassModal.tsx` form handling. The submitted definition carries no
  remembered rule, `capacity` only for `Group` and `daysOfWeek` only for
  `weekly`. The model accepts any definition and request, so it covers these
  as special cases.
- Utils.TimeToMinutes: only well-formed zero-padded `HH:mm` strings are
  modelled. `Number` parsing of other strings, and the resulting `NaN`, is not
  modelled.
- Utils.GetTimelineRange: requires well-formed times. An instance with a
  malformed time would compare as `NaN` in the source and be skipped.
- Cleared date fields. The form's date inputs are not `required`
  (ClassModal.tsx:236, 240), so an emptied field gives an invalid `Date`
  (ClassModal.tsx:105-106). A recurring save with such a date throws in
  `format` (App.tsx:84-85) before any state is set, so the save changes
  nothing. A clear with empty date strings removes nothing, because every
  comparison with an invalid date is false (App.tsx:116-124). Days are whole
  integers here, so neither path can be expressed.
- `crypto.randomUUID`: replaced by the counter, so identifiers are fresh by
  construction rather than with high probability.
