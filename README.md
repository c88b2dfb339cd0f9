# plan-to-calendar: schedule reconstruction, in Dafny

plan-to-calendar turns a weekly class schedule, exported as a PDF, into
a CSV text that a calendar can import. The PDF text arrives as a flat
stream of positioned fragments (`{text, x, y}`). The stream has no table
structure. The only signal is each fragment's horizontal offset `x`.

This project models the core of that conversion in `app/main.dev.js`:

- **Run accumulation** (`getColumnData`). Consecutive fragments with the
  same `x` are joined by single spaces and trimmed, as one column value.
- **Column classification** (`getPdfElement`). The `x` of a run's first
  fragment picks one of hours, date, type, name, choice, room or owner.
  Hours become a start/end pair through `formatDate`, using the current
  date.
- **The event state machine** (`getNextEvent` and the outer loop). Each
  record starts from defaults. A record closes when all six presence
  flags are set. It also closes when a flag repeats; the pointer then
  rolls back. A record that meets the end of the data is dropped.
- **The exclusion filter**, and the exclusion-list parsing of
  `app/containers/Root.js:24`.
- **CSV generation** (`generateCSVFromEvents`).

Modules:

- `Wrappers` (`wrappers.dfy`): `Option` and `Result`.
- `JsStrings` (`js_strings.dfy`): the JavaScript built-ins the code
  relies on. These are `trim`, `split` on one character, a global
  one-character `replace`, removal of the leftmost match of an
  alternation of literal tokens, and `Array.prototype.slice`. `Join`,
  the inverse of `split`, is not called by the code; the model uses it
  to state properties.
- `Columns` (`columns.dfy`): fragments, the data region, runs, the
  `getColumnData` specification `ColumnAt`, the bucket classifier and
  `formatDate`.
- `Events` (`events.dfy`): the event record and fields, the specification
  of one record (`RecordFrom`, `NextEventAt`) and of the whole run
  (`EventsFrom`, `Extract`), the filter, and the exclusion-list parser.
  It also holds the `Parser` class.
- `Csv` (`csv.dfy`): the header, the per-event line, the `reduce` and its
  properties.
- `Scenario` (`scenario.dfy`): one schedule row taken end to end. The row
  is seven single-fragment columns: date, hours, type, name, choice, room
  and owner, each text without outer white space.

The source's own state is kept imperative. `Parser` holds the data
region, the shared `pointer` and `currentDate`. Its methods `ColumnData`,
`PdfElement`, `NextEvent` and `CollectEvents` run the source's
`while (true)` loops. Each is proved to return exactly what the
specification function gives for the state it started from, and to
leave the cursor where that function says. `EventsFromPdfTexts` builds
the parser, runs the outer loop and then the filter, and is proved equal
to `Extract`. Exceptions become `Step` results:
`Fail(EndOfData)`, `Fail(InvalidElement(..))` or `Done(value, cursor)`.

The model keeps these source quirks:

- The owner test `itemX > 23.5 < 25.5` compares a boolean with 25.5, so
  it always holds. Every `x` outside the six bounded buckets is an owner,
  and the "Invalid element" error can never be raised (`Classify`,
  `Extract`).
- `getColumnData` throws `endOfData` whenever the current fragment has no
  successor. So the last fragment of the data region is never read, and
  a run that reaches it is never closed (`ColumnAtEndOfData`).
- Merging happens before the repeat check. The record a repeat closes
  carries the repeated field's new value (`RepeatClose`).
- The weekday alternation of `formatDate` is copied as written. Its
  fourth token is the two characters U+00C5 U+0161 followed by `r.`.
  Only the leftmost match is removed.
- A missing second `-`-piece of the hours prints as `undefined`
  (`FormatDateNoDash`).
- `replace('\n', '')` in `Root.js` removes only the first newline.

Some consequences of the code that are easy to miss:

- An `x` outside the six bounded buckets, such as 26, is classified as
  owner, so no fragment makes the run fail (`Classify`, `Extract`).
- A data region that is exactly one seven-fragment row (date, hours,
  type, name, choice, room, owner) yields no event. Its owner fragment is
  the last one of the region and is never read
  (`Scenario.RowAloneYieldsNothing`). One more fragment with a different
  `x` after the owner closes the record, and the row then yields exactly
  its event (`Scenario.RowThenFragmentYieldsEvent`).
- A record still in progress when the data runs out is dropped
  (`EventsFromEnd`).
- A run of blank texts trims to the empty string, and a missing end hour
  prints as `undefined` (`FormatDateNoDash`).
- A record closed by a repeat before it is complete keeps `n/z` (and
  `inne` for the type) under every column it never read
  (`RepeatKeepsDefaults`).

## Model

| member | source | states |
|---|---|---|
| JsStrings.Slice | app/main.dev.js:79 | `Array.prototype.slice`: a slice within bounds is the plain subsequence, a negative end counts from the end, and crossed bounds give nothing; a result never longer than the input |
| Columns.PdfData | app/main.dev.js:79 | the data region drops the 18 leading fragments and the last one; fewer than 19 fragments give an empty region |
| Columns.RunEnd | app/main.dev.js:83-100 | a run's closing fragment is at or after its start and always has a successor |
| Columns.RunEndMaximal | app/main.dev.js:83-100 | the run is maximal: all of it shares the first fragment's `x` and the next fragment does not; with no end, every fragment to the end shares that `x` |
| Columns.ColumnAt | app/main.dev.js:80-104 | `getColumnData` succeeds by moving the cursor strictly forward to a fragment that still exists, keeping the date; its only failure is `EndOfData` |
| Columns.ColumnAtMaximalRun | app/main.dev.js:84-100 | on success every fragment read shares the first one's `x`, and the fragment the pointer stops at has another `x` |
| Columns.JoinedSpaced | app/main.dev.js:81-91 | what the loop gathers over a non-empty run is one space followed by the run's texts joined by single spaces |
| Columns.ColumnAtText | app/main.dev.js:80-104 | on success the column's text is the texts of the fragments read, joined by single spaces, then trimmed |
| Columns.ColumnAtEndOfData | app/main.dev.js:84-89 | `endOfData` is thrown exactly when no fragment from the pointer on has a different `x`, so the last fragment is never consumed |
| Events.Parser.ColumnData | app/main.dev.js:80-104 | the loop returns `ColumnAt` of the state it started in and leaves the pointer after the run; on `endOfData` the pointer stands on the last fragment |
| Columns.Classify | app/main.dev.js:111-162 | each bounded bucket holds exactly its open interval of `x` (hours 0.2–1.5, date 2–2.5, type 4.5–5.5, name 6–7.5, choice 18–20, room 21–23); owner holds every other `x`; no `x` is rejected |
| JsStrings.TrimIsTrimmed | app/main.dev.js:103 | `trim` leaves no white space at either end |
| JsStrings.TrimPadding | app/main.dev.js:103 | `trim` removes exactly the white-space padding around a trimmed core |
| JsStrings.JoinSplit | app/main.dev.js:59-60 | `split` loses nothing: joining the pieces with the separator gives back the string |
| JsStrings.SplitPiecesLackSeparator | app/main.dev.js:59-60 | no piece of a split holds the separator |
| JsStrings.Split | app/main.dev.js:59-60 | `split` always gives at least one piece, so `split('-')[0]` always exists |
| JsStrings.ReplaceAll | app/main.dev.js:61 | a global one-character replace keeps the length and changes every `from`, and only those |
| JsStrings.ReplaceAllRemoves | app/main.dev.js:61 | after `replace(/\-/g, '/')` no `-` is left |
| JsStrings.FirstMatch | app/main.dev.js:61 | the regular-expression search finds the leftmost position where a token occurs, and the first alternative there; nothing matches before it |
| JsStrings.FirstMatchAt | app/main.dev.js:61 | any match with no match before it is the one the search finds |
| JsStrings.RemoveFirst | app/main.dev.js:61 | `replace` with a non-global pattern cuts out exactly the leftmost match and leaves the text as is when nothing matches |
| Columns.RemoveLeadingWeekday | app/main.dev.js:61 | a date that opens with a weekday abbreviation loses exactly that abbreviation |
| Columns.DateClear | app/main.dev.js:61 | the cleaned date holds no `-` and has no white space at either end |
| Columns.DateClearWeekday | app/main.dev.js:61 | a date that opens with a weekday abbreviation becomes the rest of the date, every `-` made `/`, trimmed |
| Columns.DateClearNoWeekday | app/main.dev.js:61 | a date holding no weekday abbreviation is kept whole, every `-` made `/`, trimmed |
| Columns.FormatDate | app/main.dev.js:58-67 | start and end both begin with the cleaned date and `, `, and neither holds a `-` |
| Columns.FormatDateRange | app/main.dev.js:58-67 | for hours `from-to[-…]` the start is `date, from` and the end is `date, to`, with the cleaned date |
| Columns.FormatDateNoDash | app/main.dev.js:58-67 | hours without `-` give start `date, hours` and end `date, undefined` |
| Events.Merge | app/main.dev.js:187-190 | the spread replaces the element's own values and leaves every other field as it was |
| Events.ElementAt | app/main.dev.js:106-163 | `getPdfElement` fails exactly when `getColumnData` does, and only with `EndOfData`; on success it moves the cursor forward and keeps the date |
| Events.ElementAtColumn | app/main.dev.js:106-163 | an element's kind is the bucket of its first fragment's `x`, in both directions; its payload is the run's text, and for hours the span `formatDate` builds from it with the current date |
| Events.Parser.PdfElement | app/main.dev.js:106-163 | the method returns `ElementAt` of the state it started in and leaves the cursor after the element; on `endOfData` the pointer stands on the last fragment |
| Events.RecordFrom | app/main.dev.js:179-207 | the loop of `getNextEvent` closes with a cursor at or after where it started and before the end, equal to it only when some flag was already set; it fails only with `EndOfData` |
| Events.NextEventAt | app/main.dev.js:166-210 | every record `getNextEvent` returns advances the pointer by at least one fragment, since the first field can never be a repeat |
| Events.ReadyAllSix | app/main.dev.js:177 | `isEventReady` holds exactly when all six flags (owner, hours, room, name, choice, type) are set |
| Events.DatePassesThrough | app/main.dev.js:184-185 | a date sets no flag and leaves the record unchanged; reading goes on with the current date replaced |
| Events.FieldsAccumulate | app/main.dev.js:187-201 | fields with new flags that do not complete the record are merged in, their flags set, and reading goes on after them |
| Events.FieldsComplete | app/main.dev.js:198-206 | fields that set all the missing flags are merged in, and the record closes right after the last of them |
| Events.CompletionClose | app/main.dev.js:167-206 | from the defaults, six fields with the six different flags give the record holding their values, closed right after the sixth |
| Events.RepeatClose | app/main.dev.js:187-196 | a field whose flag is already set is still merged in, and the record closes with the pointer rolled back to that field, so it starts the next record |
| Events.RepeatKeepsDefaults | app/main.dev.js:167-196 | a record closed by a repeat before it is complete keeps the initial `n/z` (`inne` for the type) under every flag it never set |
| Events.Parser.constructor | app/main.dev.js:70-79 | the parse starts on the data region with pointer 0 and an empty current date |
| Events.Parser.NextEvent | app/main.dev.js:166-210 | the method returns `NextEventAt` of the state it started in and leaves the pointer and current date where that record closes; on `endOfData` the pointer stands on the last fragment |
| Events.EventsFrom | app/main.dev.js:212-222 | the outer loop always ends without error, and yields fewer events than fragments left to read |
| Events.EventsFromEnd | app/main.dev.js:215-217 | once a record meets `endOfData` the loop stops and adds nothing, so that record is dropped |
| Events.EventsFromStep | app/main.dev.js:214 | each turn pushes the closed record ahead of all the later ones |
| Events.Exclude | app/main.dev.js:226 | the filter keeps exactly the events whose name is not in the list, and nothing else |
| Events.ExcludeAppend | app/main.dev.js:226 | the filter keeps the events' order |
| Events.Extract | app/main.dev.js:69-229 | `getEventsFromPdfTexts` never fails, returns at most as many events as data fragments, and none whose name is excluded |
| Events.Parser.CollectEvents | app/main.dev.js:212-222 | the outer loop returns `EventsFrom` of the state it started in: every record `getNextEvent` closes, in order, until one meets `endOfData` |
| Events.EventsFromPdfTexts | app/main.dev.js:69-229 | the loop over `getNextEvent` followed by the filter returns exactly `Extract` |
| Events.ParseExclusions | app/containers/Root.js:24 | the exclusion list has at least one name, and no name holds `;` |
| Events.ParseExclusionsFirstNewline | app/containers/Root.js:24 | only the first newline is removed: the names join back to the text without it, and later newlines stay |
| Events.ParseExclusionsNoNewline | app/containers/Root.js:24 | without a newline the names join back to the text itself |
| Csv.ChoiceSuffix | app/main.dev.js:235 | the ` - choice` part is present exactly when the choice is not `-` |
| Csv.ReduceAppendsLines | app/main.dev.js:234-237 | the `reduce` appends the events' lines, in order, to what it starts from |
| Csv.GenerateCsv | app/main.dev.js:231-238 | the CSV is the header followed by one line per event in order; no events give only the header |
| Csv.LinesAppend | app/main.dev.js:234-237 | the lines of concatenated event lists are the concatenated lines |
| Csv.GenerateCsvAppend | app/main.dev.js:231-238 | appending events appends their lines to the CSV |
| Csv.RowSingleLine | app/main.dev.js:235 | a line built from fields without line breaks holds none before its final one |
| Csv.LinesSplit | app/main.dev.js:234-237 | the lines, split on line breaks, are exactly the rows in event order, then an empty tail |
| Csv.HeaderSingleLine | app/main.dev.js:232 | the header row holds no line break |
| Csv.CsvLines | app/main.dev.js:231-238 | with single-line fields, the CSV read line by line is the header row, one row per event in order, and an empty tail |
| Csv.HeaderColumns | app/main.dev.js:232 | the header row splits into the seven column names, in order |
| Csv.RowCells | app/main.dev.js:235 | a row read on commas is the subject, the cells of start and end, the description and the location |
| Csv.DateTimeCells | app/main.dev.js:64-65 | a `date, time` value written after a space splits on its comma into the date and the time |
| Csv.RowMatchesHeader | app/main.dev.js:232-235 | when start and end come from `formatDate` and no other field holds a comma, a row has one cell per header column, in the header's order |
| Scenario.SingleFragmentColumn | app/main.dev.js:80-104 | a fragment without outer white space, followed by one with another `x`, is a column of exactly its own text, and the pointer moves to the next fragment |
| Scenario.ReadHours | app/main.dev.js:111-118 | a row's hours fragment is read as the span `formatDate` builds on the row's date |
| Scenario.ReadOwner | app/main.dev.js:154-160 | a row's owner fragment is read only when a fragment with another `x` follows it |
| Scenario.RowAloneYieldsNothing | app/main.dev.js:212-222 | a data region that is exactly one seven-fragment row yields no event, since the record meets `endOfData` at the owner and is dropped |
| Scenario.RowThenFragmentYieldsEvent | app/main.dev.js:166-222 | a row followed by one fragment with another `x` yields exactly one event, holding the row's owner, hours span, room, name, choice and type |
| Scenario.PageWithRow | app/main.dev.js:79-226 | a page of 18 header fragments, such a row, one more fragment and a footer gives the row's event, or nothing when its name is excluded |
| Scenario.PageWithRowOnly | app/main.dev.js:79-226 | a page whose data region is only the row gives no event |

## Left out

- Electron start-up, window, menu and devtools set-up are platform glue
  and are not modelled.
- Reading the PDF, the save dialog and writing the CSV are file I/O and
  are not modelled.
- The `PLAN_GENERATE` IPC handler is not modelled. This includes the
  pdf2json call and the flattening of pages with `decodeURIComponent`.
  The flattened fragment sequence is the model's input.
- The `console.log` calls are output only and are not modelled.
- The module-level `toDelete` variable, which the IPC handler sets, is a
  parameter of `Extract` and `EventsFromPdfTexts`.
- The unused `isDate` helper is not modelled.
- `getColumnData`'s `incrementOnBreak` parameter is always `true` at its
  only call site. It is not modelled.
- Fragment coordinates are JavaScript numbers but are only compared, so
  they are `real`. The `y` coordinate is never read, and is carried only
  to keep the fragment's shape.
- Dafny strings are sequences of characters. `trim` is modelled with
  ECMAScript's white-space and line-terminator set, on characters rather
  than UTF-16 code units.
- The React form of `app/containers/Root.js` is a UI component and is not
  modelled. Only its exclusion-list expression at line 24 is.
- The `InvalidElement` failure and the `NoColumn` classification are
  kept to follow the source's branches. `Classify` proves they never
  happen.
- Csv.GenerateCsv: the header is stated as the seven column names joined
  by commas, with a line break. This is the literal header text, but the
  model does not compare the two as literals. `HeaderColumns` proves the
  header reads back as those seven names.
- Events.ParseExclusions: the parser's `;` pieces are not trimmed,
  because the source does not trim them. An entry with a space around it
  matches no event name.
