# Study scheduler: a Dafny model of the class parser and the day allocator

The study-scheduler generator reads a list of classes from free text, scales
their durations by a multiplier, and packs them into daily study blocks. A
study block is placed only on a listed weekday and holds at most a fixed
number of minutes. A class that does not fit into what is left of a day is
split across days. This project models those three steps of `app.py` and
proves what they guarantee.

- `ClassParser` (with the string primitives in `Text`) is `parse_class_input`.
  The text is split on newlines and read as three-line records: status,
  subject, and a duration line such as `45min`. When a triple is not a record,
  the parser moves on by one line. `ParseClassInput` is the loop, proved equal
  to the reference function `ParseText`. The lemmas say what that function
  returns:
  - every item comes from the stripped lines of one record, in input order,
    and the records do not overlap;
  - a bad triple costs exactly one line (`SkipsOneLine`, and `NoiseLineSkipped`
    for a stray line between two records);
  - fewer than three lines at the end are dropped (`TrailingLinesIgnored`);
  - there are at most a third as many items as lines;
  - printing items as records and parsing the text gives the items back.
- `Text.ParseIntAccepts` says which texts `int()` accepts: an optionally
  signed decimal numeral once its whitespace is trimmed.
- `Scaling` is `apply_multiplier`. The multiplier is an integer here (see
  "Left out").
- `Allocation` is `schedule_classes` as a function: `PlaceItem` is one pass of
  the inner `while`, and `PackFrom` is the outer `for`. A run is the sequence
  of `Placement`s it makes, where each placement is one fragment of one class
  on one date. `Group` turns that sequence into the returned dictionary, with
  its keys kept in insertion order. `Consistent` is the loop invariant, and
  `RunConsistent` proves it holds at the end of any run.
- `Pieces` proves what a run does to each class:
  - every class receives exactly its duration in minutes;
  - a class of zero or negative duration receives no fragment at all;
  - fragments keep their class's labels and come in class order.
- `Grouping` proves that the grouped schedule is `Sound`:
  - every key is a listed weekday on or after the start date;
  - each day holds positive fragments adding up to at most the limit;
  - each day before the last one used is full;
  - no study day between the start date and a used day is skipped;
  - the keys are inserted in increasing date order.
- `Scheduler.ScheduleClasses` is the imperative procedure. It fills the
  dictionary in place (`Append`) while walking the calendar. It is proved
  equal to `Group(Placements(...))` and therefore sound.

Dates are whole day numbers with day 0 a Monday, so `Weekday(d) == d % 7`
matches Python's `date.weekday()`. Study days are compared as the code
compares them: the raw integers from the form against the 0-based weekday.
The form's label (app.py:38) asks for `1`=Monday … `7`=Sunday, but the
code does no conversion, so this model follows the code.

## Model

| member | source | states |
|---|---|---|
| ClassParser.ParseClassInput | app.py:96-119 | The loop returns exactly `ParseText(input)`, the records read from the newline-split text; there are at most a third as many classes as lines. |
| ClassParser.ParseLines | app.py:101-118 | The number of records read is at most a third of the number of lines. |
| ClassParser.RecordStartsSpec | app.py:101-112 | Each returned item is read from the triple at its start line; the starts are increasing, three lines apart at least, inside the text. |
| ClassParser.ItemsComeFromRecords | app.py:103-112 | Item `j` has status and subject equal to the stripped lines of its triple; its stripped duration line contains `min`, and `int()` of that line with `min` removed is its duration; items follow input order. |
| ClassParser.ParseRecordRendered | app.py:103-111 | A class whose status and subject have no surrounding whitespace prints as a triple (`<n>min` for the duration) that reads back as the same class. |
| ClassParser.ParseRenderLines | app.py:101-118 | Parsing the lines printed for a list of such classes returns the list. |
| ClassParser.ParseTextRoundTrip | app.py:96-119 | Joining the printed lines with newlines and parsing gives the classes back, when no label holds a newline. |
| ClassParser.NoiseLineSkipped | app.py:113-116 | One stray line between two printed records loses neither record, when the second subject does not contain `min`. |
| ClassParser.RenderedFirst | app.py:103-112 | A printed record at the front is read as that class, followed by whatever the rest reads as. |
| ClassParser.NoiseBeforeRecord | app.py:113-116 | A stray line in front of a printed record is skipped and the record is still read. |
| Text.TrimSpec | app.py:103-110 | Trimming, as `strip()` does with `str.isspace()` whitespace and `int()` does with its own, returns a contiguous part of the text with only such characters removed at both ends, and the result neither starts nor ends with one. |
| Text.ContainsIff | app.py:107 | The `'min' in line` scan is true exactly when `min` occurs at some position. |
| Text.RemoveAllSpec | app.py:108 | `replace('min', '')` never lengthens the line, leaves a line without `min` unchanged, and at the leftmost occurrence keeps the text before it, drops the occurrence and goes on after it: occurrences go left to right, without overlap. |
| Text.RemoveAllLeftmost | app.py:108 | The text before the leftmost occurrence of `min` is kept and the occurrence is dropped, removal going on after it. |
| Text.ParseIntShowInt | app.py:110 | The model's `int()` reads `str(n)` back as `n`, for every integer (no digit-count limit; see "Left out"). |
| Text.ParseIntPaddedShowInt | app.py:109-114 | `int()` reads back `str(n)` with any whitespace it skips around it; a U+001C in front of the numeral makes it fail (`ValueError`). |
| Text.Split | app.py:99 | `split('\n')` gives at least one piece, no piece holds a newline, and joining the pieces gives the text back. |
| Text.SplitJoin | app.py:99 | Splitting a join of newline-free lines returns those lines. |
| Scaling.ApplyMultiplier | app.py:122-124 | Same length and order; status and subject kept; every duration multiplied by the factor. |
| Scaling.ScaleByOne | app.py:122-124 | A multiplier of 1 returns the classes unchanged. |
| Scaling.ScaleTwice | app.py:122-124 | Scaling by `a` then by `b` is scaling by `a * b`. |
| Scaling.ScaleByZero | app.py:122-124 | A multiplier of 0 leaves no minutes to schedule. |
| Allocation.PlaceItem | app.py:134-152 | After one class, the minutes left today stay in `0 < time_left <= limit`. |
| Allocation.PackFrom | app.py:133-152 | After the classes from `k` on, the minutes left today stay in `0 < time_left <= limit`. |
| Allocation.SkipDayShrinks | app.py:150-152 | Moving past a day that is not listed brings the next listed weekday one day closer, so the loop ends when a weekday in 0..6 is listed. |
| Allocation.RunConsistent | app.py:129-152 | At the end of a run the invariant holds: fragments positive, on listed weekdays, from the start date on, in date order; each day before the cursor that was used is full; no study day since the start was skipped; today's used plus left is the limit. |
| Allocation.Advance | app.py:150-152 | Moving to the next day with a fresh limit keeps the invariant when today is full or not a study day. |
| Allocation.Place | app.py:136-149 | Appending a fragment of at most `time_left` minutes on a study day keeps the invariant with `time_left` reduced by its minutes. |
| Allocation.PlaceItemConsistent | app.py:134-152 | One class's pass, from a state in the invariant, ends in the invariant. |
| Allocation.PackConsistent | app.py:133-152 | The outer loop from class `k` on, from a state in the invariant, ends in the invariant. |
| Pieces.PlaceItemFields | app.py:134-149 | Every fragment of a class's pass carries its index, status and subject, is positive, and is dated no earlier than the cursor, which only moves forward. |
| Pieces.PlaceItemPlaced | app.py:134-149 | The fragments of one pass add up to exactly the minutes asked for, and to nothing when that is not positive. |
| Pieces.PackFields | app.py:133-149 | From class `k` on, fragments belong to classes `k` and later, keep their labels, are positive, and follow the class order. |
| Pieces.PackPlaced | app.py:133-149 | From class `k` on, each class `j >= k` receives exactly its positive duration; earlier classes receive nothing. |
| Pieces.PlacedZero | app.py:134 | With positive fragments, a class received nothing exactly when it has no fragment. |
| Pieces.RunPieces | app.py:133-149 | In a whole run every class receives exactly its positive duration, a class of non-positive duration gets no fragment, and fragments keep labels and class order. |
| Grouping.GroupBlocks | app.py:137-147 | The dictionary's keys are the dates that received a fragment, each key maps to its fragments in placement order, and the insertion order lists every key once. |
| Grouping.GroupOrderSorted | app.py:137-151 | Placements in date order give keys inserted in strictly increasing order, the last being the last date used. |
| Grouping.ConsistentSound | app.py:128-154 | Placements in the invariant group into a sound schedule. |
| Grouping.RunSound | app.py:126-154 | The schedule of any run is sound: listed weekdays from the start date, at most the limit per day, earlier days full, no study day skipped, keys increasing. |
| Scheduler.ScheduleClasses | app.py:126-154 | The procedure returns the grouping of the reference run's placements, and that schedule is sound. |
| Scheduler.Append | app.py:137-147 | Updating the dictionary in place gives the grouping of the placements made so far plus the new one. |
| Aliasing.AsWrittenLosesMinutes | app.py:136-141 | As written, the last fragment of a positive class reads 0 minutes and the class's fragments add up to less than its duration; the calendar walk is unchanged. |
| Aliasing.ThirtyMinutesReadAsZero | app.py:136-141 | A 30-minute class on a study day with an hour free is recorded as 0 minutes as written, and as 30 minutes in the corrected model. |

## Left out

- The Flask request handling, the HTML form and the download of the `.ics` file: I/O, outside the model.
- `create_calendar_events`: it writes one event per scheduled date, from the start time to start plus `daily_study_limit_hours * 60` minutes. It uses only the class names, so it is not modelled.
- Parsing the start date with `strptime` and the study days with `int()`: dates are day numbers, and study days are integers as given.
- Scaling.ApplyMultiplier: the multiplier is an integer, not a Python `float`, so fractional durations and float rounding are not modelled.
- Text.ParseInt: accepts an optional sign and ASCII digits, with the whitespace `int()` skips around them (that of `str.isspace()` except U+001C to U+001F). The underscores and non-ASCII digits that Python's `int()` also accepts are not modelled. Nor is the limit on digits: since Python 3.11 (and the matching 3.7-3.10 security releases) `int()` raises `ValueError` on a numeral of more than 4300 digits, so a duration line of 4301 digits followed by `min` is skipped by one line in the source but read as a record here.
- Scheduler.ScheduleClasses: requires a positive limit and a listed weekday in 0..6. Without them the source's inner loop does not end once it reaches a class of positive duration, and the source raises no error, so there is no error path to model. The requires also exclude calls in which no class has a positive duration, such as an empty class text; the source completes those and returns an empty schedule.
- Scheduler.ScheduleClasses: dates are unbounded integers. Python's `current_date += timedelta(days=1)` raises `OverflowError` past `date.max` (9999-12-31); that error is not modelled.
- Scheduler.ScheduleClasses: `schedule_classes` also sets the duration of each class of positive duration in the caller's list to 0 as it goes. The model keeps the minutes still to place in a local variable instead, and does not model that update of the input list.
- Allocation.PlaceItem: each fragment records the minutes actually placed for it. The literal source returns 0 for the last fragment of each class (see "Findings"). The model keeps the intended amounts and shows the literal reading separately in `Aliasing`.

## Findings

| source | as written | input that shows it | evidently intended | confidence | as-written member | corrected member |
|---|---|---|---|---|---|---|
| app.py:139-141 | When the rest of a class fits, the class's own list is appended to the day and then its duration is set to 0, so that entry of the returned schedule reads 0 minutes. | One class `['a', 'Math', 30]`, a 1-hour limit, the start date a study day: the schedule maps the start date to `[['a', 'Math', 0]]`. | The entry records the 30 minutes placed, as the split branch does with its copy. | not executed; medium (the calendar output reads only the names, so the loss is not visible there) | Aliasing.AsWrittenLosesMinutes | Pieces.PlaceItemPlaced |
