# scheduleTest calendar, modelled in Dafny

`script.js` drives a one-day calendar page. The grid starts at 07:00 and one
pixel is one minute, so an event box's `top` is its start in minutes after
07:00 and its `height` is its length in minutes. You create events by
double-clicking, which snaps to a quarter hour and makes the event one hour long. You move
them by dragging and reshape them with a top and a bottom handle. A details
panel shows an event's name, its start and end as "HH:MM" and its duration as
"Xh Ym". You can edit all four fields, or pick a preset duration. After every
change that is not part of a live gesture, overlapping events are packed into
side-by-side columns by greedy first fit.

The model has these modules:

- `Wrappers`: `Option`.
- `Text`: the JavaScript string operations the page relies on, on integers:
  - `toString()` and `padStart(2, '0')`;
  - `Number(text)`;
  - `split(':')`.
- `Clock`: "HH:MM" text, clock times and pixel offsets. It includes JavaScript's
  truncating `%`, the double-click snap and the end time computed from a start
  and a duration.
- `Duration`: `formatDuration` and `parseDuration`, including a faithful model
  of the leftmost match of `(\d+)h\s*(\d*)m?`.
- `Geometry`: the drag, resize-top and resize-bottom rules for an event's box.
- `Packer`: the column building of `rearrangeOverlappingEvents`. The stable
  sort by top is a function, `Order`. The first-fit columns are written twice:
  - as a function, `Columns`, with its properties proved;
  - as the source's loop, `PackColumns`, proved equal to `Columns`.
- `Schedule`: the page state as a class, `Calendar`. It holds:
  - the events in document order;
  - the selected event;
  - the `isDraggingOrResizing` flag;
  - the gesture in progress;
  - the panel fields.

  Each handler of the page is a method that updates this state. The
  layout pass is a loop that gives every event its column index and the
  column count.

The column layout writes percentages: `columnIndex * (100 / n)` and
`100 / n`. The model keeps the two integers behind them, the column
index and the column count `n`.

Three behaviours of the code that the model keeps:
- Dragging is not clamped at the top of the grid, so the top can become negative.
- `parseDuration` throws on text that the duration pattern does not match, and
  the handler stops there.
- A resize-top pull of n pixels moves the start n minutes earlier while the top
  stays on the grid.

## Model

| member | source | states |
|---|---|---|
| Text.DigitsRoundTrip | script.js:193-194 | Reading back the decimal digits that `toString()` writes for a non-negative integer gives that integer. |
| Text.PaddedRoundTrip | script.js:211-212 | `Number(n.toString().padStart(2, '0'))` is `n` for every integer, negative ones included. |
| Text.SingleDigitRoundTrip | script.js:193-194 | A single digit is padded with a leading zero, and `Number` ignores that zero. |
| Text.NegativeRoundTrip | script.js:193-194 | A negative number is written as a minus sign and its digits, and is not padded. It reads back as itself. |
| Text.IntString | script.js:193-194 | `toString()` of an integer is one or more digits, with a leading minus sign exactly when the integer is negative. |
| Text.PadStart2 | script.js:193-194 | `padStart(2, '0')` gives two characters for shorter text, the zeros in front and a single character kept after them, and leaves text of two or more characters as it is. |
| Text.NumberValue | script.js:52 | `Number` reads a string of digits as its decimal value. The empty string, a minus sign and other text are covered by `Text.PaddedRoundTrip` and by the "## Left out" line for `Text.NumberValue`. |
| Text.Split | script.js:52 | `split(':')` yields at least one piece. No piece contains the separator. Joining the pieces with the separator gives back the text. |
| Text.SplitPair | script.js:52 | Splitting two separator-free parts joined by ':' gives exactly those two parts. |
| Clock.JsRem | script.js:189 | JavaScript's `% 60`: the result lies strictly between -60 and 60, differs from the operand by a multiple of 60, equals the floored remainder for non-negative operands, and is never positive for negative ones. These clauses fix the value. |
| Clock.ParseFormat | script.js:193-196 | Every time written by `Clock.Format` (`toString().padStart(2, '0')` on both parts) is read back unchanged by `Clock.Parse` (`split(':').map(Number)`). |
| Clock.TimeOfTop | script.js:185-191 | The corrected, floored conversion of the "## Findings" row: the clock time of any pixel offset has a minute in 0..59 and maps back to that same offset. For `top >= 0` it equals the code's own conversion (`Clock.AsWrittenOnGrid`); above the grid the code's minute `top % 60` is negative (`Clock.TimeOfTopAsWritten`). |
| Clock.AsWrittenOnGrid | script.js:188-189 | For `top >= 0`, `Clock.TimeOfTopAsWritten` (the code's `Math.floor(top / 60) + 7` and `top % 60`) equals the floored conversion. |
| Clock.AsWrittenShift | script.js:188-189 | Above the grid, off a whole hour, the time `Clock.TimeOfTopAsWritten` gives lies 60 minutes before the offset it came from. |
| Clock.TopRoundTrip | script.js:185-197 | Formatting the time of any offset and parsing it back with `(hour - 7) * 60 + minute` gives the offset. |
| Clock.AsWrittenAboveGrid | script.js:189 | As written, five pixels above the grid give "06:-5". That text reads back as an offset of -65 instead of -5. |
| Clock.SnapQuarterHour | script.js:39-43 | `Clock.SnapStart` and `Clock.SnapEnd`: for y >= 0 the snapped start minute is 0, 15, 30 or 45. It is at most `y % 60`. The start offset is `y - y % 15`. The end is exactly 60 minutes after the start. |
| Clock.EndAfterSpan | script.js:246-248 | `Clock.EndAfter`: when the start minute plus `d` is at least 0, the end computed from a start and `d` minutes has a minute in 0..59 and lies exactly `d` minutes after the start. |
| Clock.EndAfterOnGrid | script.js:263-265 | From the time of offset `top`, `d >= 0` minutes later is the time of offset `top + d`. |
| Clock.ParseNumbers | script.js:52 | `Clock.Parse` reads the time (h, m) exactly when `Clock.Numbers`, the model of `split(':').map(Number)` that the duration handlers use, gives both h and m. |
| Clock.EndTextOfTime | script.js:246-250 | When the start text reads as a time, `Clock.EndText` writes that time `d` minutes on as "HH:MM". |
| Clock.NaNHourUnreadable | script.js:250 | Text whose hour part is "NaN" never reads as a time. |
| Clock.EndTextUnreadable | script.js:246-250 | When the start text does not read, the end text written from it does not read either. |
| Clock.EndTextKeepsMinute | script.js:246-250 | When only the start's hour is NaN, the end text is "NaN:" followed by the padded minute: "xx:30" with 60 minutes more gives "NaN:30". |
| Clock.EndTextOnGrid | script.js:246-250 | The end text written `d >= 0` minutes after a start written from the grid is the text written for `top + d`. |
| Clock.EndTextSpan | script.js:263-267 | When the start text reads and its minute plus `d` is at least 0, the end text the duration handlers write reads back as `d` minutes after it. |
| Duration.FormatOnGrid | script.js:273-277 | `Duration.Format` (`formatDuration`) writes a non-negative duration as digits, "h ", digits, "m". |
| Duration.DigitRunEnd | script.js:280 | A greedy `\d*` from position i stops at the first non-digit or at the end. |
| Duration.SpaceRunEnd | script.js:280 | A greedy `\s*` from position i stops at the first non-space or at the end. |
| Duration.MatchAtSpec | script.js:280 | A match of the pattern starts at p exactly when a non-empty run of digits followed by 'h' starts at p. |
| Duration.FirstMatch | script.js:280 | The search returns a position where a match starts, or one past the end when there is none. |
| Duration.FirstMatchIsLeftmost | script.js:280 | No match starts before the position the search returns. |
| Duration.ParseFailsWithoutHours | script.js:280-281 | `Duration.Parse` (`parseDuration`) fails (the code throws) if and only if no run of digits directly followed by 'h' occurs in the text. |
| Duration.MatchAtRuns | script.js:280 | Text made of digits, 'h', spaces, digits and then a non-digit has its leftmost match at 0. The match's groups are the two digit runs. |
| Duration.ParseOfShape | script.js:279-284 | Text shaped hours 'h' blanks minutes, followed by anything that is neither a digit nor a space, reads as hours * 60 plus minutes. An empty minutes group counts as 0. |
| Duration.ParseFormat | script.js:273-284 | For every m >= 0, `Duration.Parse(Duration.Format(m)) == Some(m)`, that is `parseDuration(formatDuration(m)) == m`. |
| Duration.HoursOnly | script.js:281-283 | "Xh", with no minutes group, reads as X * 60: `parseInt('') \|\| 0` is 0. |
| Geometry.Dragged | script.js:112-114 | A drag sets the top to the original top plus the pointer's travel, unclamped, and keeps the height. |
| Geometry.ResizedTop | script.js:164-168 | A resize-top step gives top >= 0 and height >= 20. Each limit applies on its own, and an unclamped value is exactly original plus or minus the travel. |
| Geometry.ResizedTopKeepsBottom | script.js:165-166 | While neither clamp is active, resize-top keeps the bottom edge fixed. |
| Geometry.ResizedTopAtGridEdge | script.js:165-166 | When the top is clamped at 0 and the height is not, the top is 0 and the bottom edge moves down by what the top would have gone past the grid. For example, 10..70 pulled up by 30 becomes 0..90. |
| Geometry.ResizedBottom | script.js:169-171 | A resize-bottom step keeps the top. The height follows the pointer but is at least 20. |
| Packer.Insert | script.js:290 | Inserting a later event into a stably sorted order keeps it sorted by top, with ties in original order. It adds exactly that event. |
| Packer.SortedPrefix | script.js:290 | The first n events are stably sorted by top, each index appearing once. |
| Packer.Order | script.js:290 | `events.sort` by top: a stable ascending permutation of all the event indices. |
| Packer.AscendingUnique | script.js:290 | Two stable ascending orders of the same events are equal, so the stable sort is uniquely determined. |
| Packer.FirstFitFrom | script.js:298-304 | The search from column k returns the first column, from k on, with no overlapping member, or the column count when none fits. |
| Packer.FirstFit | script.js:298-304 | `findIndex` returns the lowest-indexed column that conflicts with none of its members. It returns the column count when every column conflicts. |
| Packer.Place | script.js:306-311 | Placing an event keeps every column a list of valid event indices. |
| Packer.Greedy | script.js:294-312 | Placing events in a given order yields columns of valid event indices. |
| Packer.Columns | script.js:289-312 | Packing the events in sorted order yields columns of valid event indices. |
| Packer.Lane | script.js:311 | The lane of an event is the first column containing it, or the column count when no column does. |
| Packer.LaneMatesApart | script.js:302 | In columns whose members are pairwise apart, two different events with the same lane do not overlap. |
| Packer.MembersAfterPlace | script.js:306-311 | After a placement, a column holds an event exactly when it held it before, or the event is the placed one and the column is the first fit. |
| Packer.LaneAfterPlace | script.js:306-311 | Placing e gives e the first-fit column and leaves every other event's lane unchanged. |
| Packer.PlaceKeepsPacked | script.js:298-311 | Placing one more event keeps the columns packed. Every column is non-empty and there are no more columns than placed events. Every member is an event placed so far, whose lane is that column. Every placed event has a lane. Members of one column are distinct and pairwise do not overlap, with touching allowed. |
| Packer.PlaceKeepsFirstFitted | script.js:298-311 | Placing one more event keeps first fit: every column left of an event's own holds an event placed before it that it overlaps. |
| Packer.GreedyPacked | script.js:294-312 | Greedy placement in any duplicate-free order is packed and first-fitted. |
| Packer.ColumnsPacked | script.js:289-312 | The packer's columns are packed and first-fitted for the sorted order. Every event lands in a column below the count. There is at least one column when there are events, and never more columns than events. |
| Packer.FindColumn | script.js:298-304 | The `findIndex` loop returns the first-fit column, `-1` becoming the column count. |
| Packer.PlaceByPush | script.js:306-311 | Appending an empty column when none fits, then pushing the event onto its column, is the placement. |
| Packer.PackColumns | script.js:289-312 | The sort and the `forEach` loop of pushes build exactly the packed, first-fitted columns. |
| Schedule.Spans | script.js:295-296 | Each event's interval runs from its top to its top plus its height. |
| Schedule.SameLaneApart | script.js:298-304 | Two different events in the same column of the packer's output do not overlap. |
| Schedule.Laid | script.js:314-320 | Every event keeps its name, box and times, and takes its lane and the column count as its slot. |
| Schedule.Arranged | script.js:286-321 | After the layout pass only the slots change. Every event has a column below the common column count, which is at most the number of events. Two events sharing a column do not overlap. |
| Schedule.ArrangedIdempotent | script.js:119-123 | Laying out again without moving anything changes nothing. The packer running once per registered release listener therefore leaves the same slots as running once. |
| Schedule.SameBoxes | script.js:295-296 | Events that differ only in their slots have the same intervals and are laid out alike. |
| Schedule.SyncedOnGrid | script.js:184-197 | For a box on the grid (top and height at least 0), `Schedule.SyncedAsWritten` (the code's `%`) and `Schedule.Synced` (the corrected minute) write the same event. |
| Schedule.SyncedAsWrittenAboveGrid | script.js:184-238 | With the code's `%`, for a box above the grid and off a whole hour, applying the panel that `updateEventDetails` fills moves the event up by 60 pixels. |
| Schedule.SyncedReads | script.js:193-197 | After `Schedule.Synced` (`updateEventTimes`), the start and end text read as the times of the new top and bottom. |
| Schedule.DetailsDuration | script.js:211-214 | `Schedule.Details`, `Schedule.DurationText` and `Schedule.Elapsed`: for a box of height >= 0 whose times were just written, the panel's duration text reads back as the height. |
| Schedule.ElapsedOfTimes | script.js:211-213 | When both texts read as times, `Schedule.Elapsed` is the distance between their offsets. |
| Schedule.DurationTextReads | script.js:213-214 | The duration text written for d >= 0 elapsed minutes reads back as d. |
| Schedule.Edited | script.js:217-238 | Editing from the panel stores the name and the texts. The top follows a readable start. A readable, non-negative start-to-end distance becomes the height, so the bottom lands on the end. A NaN top or a negative height leaves the old value. |
| Schedule.DurationSetsLength | script.js:240-254 | Picking a duration of d >= 0 minutes, from a start that reads as a time whose minute is at least 0, makes the event start there and last exactly d minutes. |
| Schedule.EditedSynced | script.js:204-238 | Applying the panel of an event whose times were just written changes nothing. |
| Schedule.Created | script.js:52-56 | `addEvent`'s box starts at the start time's offset and ends at the end time's offset, with the given name and texts, not yet laid out. |
| Schedule.DoubleClickEvent | script.js:35-45 | A double-click y >= 0 pixels down creates a readable one-hour event starting at offset `y - y % 15`. |
| Schedule.Stepped | script.js:160-175 | One pointer move during a gesture keeps a non-negative height non-negative. |
| Schedule.PlaceColumn | script.js:314-320 | The inner `forEach` gives exactly the events of one column the slot (k, n) and leaves every other event unchanged. |
| Schedule.ColumnMembers | script.js:311 | Every member of a column of the packer's output is an event whose lane is that column. |
| Schedule.LaidStep | script.js:314-320 | Giving the members of column k their slot extends the laid-out prefix by one column. |
| Schedule.ArrangeEvents | script.js:286-321 | The two loops of `rearrangeOverlappingEvents` produce exactly `Arranged`. |
| Schedule.Calendar.constructor | script.js:1-2 | The page starts with no events, nothing selected and no gesture in progress. |
| Schedule.Calendar.Relayout | script.js:286-321 | As `Schedule.Relaid` states, while a gesture is in progress the pass does nothing. Otherwise the events become `Arranged`, and nothing else changes. |
| Schedule.Calendar.AddEvent | script.js:47-90 | The created event is appended and a relayout follows. |
| Schedule.Calendar.DoubleClick | script.js:35-45 | A one-hour "New Event" at the snapped quarter hour is added. |
| Schedule.Calendar.PressBody | script.js:102-108 | A press on an event's body sets the flag and records the pointer and the original top. |
| Schedule.Calendar.PressHandle | script.js:138-158 | A press on a handle sets the flag and records the pointer, the original top and height, and which edge. |
| Schedule.Calendar.ShowDetails | script.js:204-215 | The event becomes the selected one and the panel shows its name, times and duration. |
| Schedule.Calendar.Reshape | script.js:184-202 | The event takes the new box and its times follow, written by `Schedule.Synced`. The panel is refreshed only when the event is the selected one. |
| Schedule.Calendar.Move | script.js:110-117 | A pointer move applies the gesture's rule to its target and rewrites the target's times with `Schedule.Synced`. There is no relayout. Without a gesture nothing changes. |
| Schedule.Calendar.Release | script.js:119-123 | The release clears the gesture and the flag, and then lays the events out. |
| Schedule.Calendar.Click | script.js:84-87 | A click on an event selects it and shows its details. |
| Schedule.Calendar.ClickOutside | script.js:324-329 | A click outside every event and the panel clears the selection. |
| Schedule.Calendar.UpdateFromDetails | script.js:217-238 | Without a selection nothing changes. Otherwise the selected event takes the panel's values and a relayout follows. |
| Schedule.Calendar.ChangeDetails | script.js:7-9 | A changed name, start or end field updates the selected event from the panel. |
| Schedule.Calendar.PickPreset | script.js:240-254 | With a selection, the end field becomes start plus the preset and the event is updated from the panel. |
| Schedule.Calendar.EnterDuration | script.js:256-271 | A typed duration that reads sets the end to start plus it and updates the event. Text without a match changes nothing beyond the field, as the thrown error does. |

## Left out

- Page construction is not modelled. This covers `generateSchedule`, the hour labels, the sample events, the element and handle creation, `querySelector`, listener registration and the panel's `display` style. It is rendering and browser event dispatch.
- Pointer coordinates (`clientY`, `getBoundingClientRect`) are integer parameters.
- Each event's drag and resize closures are replaced by one gesture state in `Calendar`. Only one pointer press can be live at a time.
- The column layout's percentage widths are floating point. The model keeps the column index and the column count.
- The release listeners of every event each run the packer. The model runs it once, and `Schedule.ArrangedIdempotent` shows that running it again changes nothing.
- Text.NumberValue: covers the empty string, an optional minus sign and decimal digits. Whitespace, decimals, exponents and other forms `Number` accepts are out, because the page only reads back text it wrote or time fields.
- The `parseInt` reads of `style.top` and `style.height` are the integers themselves. The browser ignoring an invalid CSS value (NaN, a negative height) is written out in `Schedule.Edited`.
- Schedule.Created: requires both times to read. `addEvent` is only called with the sample times and the double-click times, which always read.
- Schedule.Calendar.AddEvent: requires readable times with the end not before the start. All of the code's callers meet this, and the non-negative height it keeps is part of the class invariant.
- Schedule.Stepped: its contract states only that the height stays non-negative. The new box is stated by `Geometry.Dragged`, `Geometry.ResizedTop` and `Geometry.ResizedBottom`, which it calls.
- Duration.ParseOfShape: covers separators made of plain blanks. Other `\s` characters are handled by `Duration.MatchAtRuns` and `Duration.ParseFailsWithoutHours`, but no concatenation lemma is stated for them.
- The preset list holds integers. `parseInt` of a preset value is the integer itself.
- Duration.Parse and Clock.EndText: integers here are exact and unbounded. The page's numbers are doubles: they lose precision above 2^53 and are written in exponent form from 10^21 on. A typed duration with about 15 or more digits of hours reaches both, through `parseInt`, `* 60` and the end-hour sum.
- Schedule.Synced: writes the start and end with the corrected minute from the "## Findings" row, and the rest of the page model (`Schedule.Calendar.Reshape`, `Schedule.Calendar.Move`, `Schedule.SyncedReads`, `Schedule.DetailsDuration`, `Schedule.EditedSynced`) uses it. The code's own text is `Schedule.SyncedAsWritten`. `Schedule.SyncedOnGrid` shows the two agree whenever the box is on the grid. Above the grid they differ: `Schedule.SyncedAsWrittenAboveGrid` shows the code's panel round trip moves the event up an hour, and the code's duration field can differ from the height.
- Schedule.SyncedReads: writes or reads times with the corrected minute; see the `Schedule.Synced` line above.
- Schedule.DetailsDuration: writes or reads times with the corrected minute; see the `Schedule.Synced` line above.
- Schedule.EditedSynced: writes or reads times with the corrected minute; see the `Schedule.Synced` line above.
- Schedule.Calendar.Reshape: writes or reads times with the corrected minute; see the `Schedule.Synced` line above.
- Schedule.Calendar.Move: writes or reads times with the corrected minute; see the `Schedule.Synced` line above.

## Findings

| source | as written | input that shows it | evidently intended | confidence | as-written member | corrected member |
|---|---|---|---|---|---|---|
| script.js:189 | the minute is `top % 60`, and JavaScript's `%` keeps the sign of `top`, while the hour uses `Math.floor` | an event dragged to `top = -5` gets start text "06:-5", which reads back as 65 minutes above the grid | "06:55", the time 5 minutes before 07:00 | not executed | Clock.AsWrittenAboveGrid | Clock.TopRoundTrip |
