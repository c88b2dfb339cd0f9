/**
  `generateCSVFromEvents`: the calendar-import CSV text, a fixed header and
  one line per event, built by a left fold over the events.
*/
module Csv {
  import opened JsStrings
  import opened Events

  /** The seven column names of the header. */
  const ColumnNames: seq<string> :=
    ["Subject", "Start Date", "Start Time", "End Date", "End Time", "Description", "Location"]

  /**
    The header line: "Subject,Start Date,Start Time,End Date,End Time,Description,Location"
    and its line break.
  */
  const Header: string := Join(ColumnNames, ',') + "\n"

  /** The ` - choice` part of the description, present unless the choice is "-". */
  function ChoiceSuffix(choice: string): (r: string)
    ensures choice == "-" ==> r == ""
    ensures choice != "-" ==> r == " - " + choice
  {
    if choice != "-" then " - " + choice else ""
  }

  /**
    The comma-separated cells of one event's line: "type - name", then
    start, end, "owner[ - choice]" and room, each after one space.
  */
  function Cells(e: EventRecord): (cells: seq<string>) {
    [e.eventType + " - " + e.name, " " + e.start, " " + e.end, " " + e.owner + ChoiceSuffix(e.choice), " " + e.room]
  }

  /** One event's line without its line break: `type - name, start, end, owner[ - choice], room`. */
  function Row(e: EventRecord): (r: string) {
    Join(Cells(e), ',')
  }

  /** The line the fold appends for `e`. */
  function Line(e: EventRecord): (r: string) {
    Row(e) + "\n"
  }

  /** The callback of `reduce`, applied from the left, starting from `acc`. */
  function Reduce(acc: string, events: seq<EventRecord>): (r: string)
    decreases |events|
  {
    if events == [] then acc else Reduce(acc + Line(events[0]), events[1..])
  }

  /** The lines of `events`, one after the other: the reference for the fold. */
  function Lines(events: seq<EventRecord>): (r: string)
    decreases |events|
  {
    if events == [] then "" else Line(events[0]) + Lines(events[1..])
  }

  /** The rows, in event order. */
  function Rows(events: seq<EventRecord>): (rows: seq<string>) {
    seq(|events|, i requires 0 <= i < |events| => Row(events[i]))
  }

  /** The fold appends exactly the lines of the events to what it starts from. */
  lemma {:induction false} ReduceAppendsLines(acc: string, events: seq<EventRecord>)
    decreases |events|
    ensures Reduce(acc, events) == acc + Lines(events)
  {
    if events != [] {
      ReduceAppendsLines(acc + Line(events[0]), events[1..]);
      assert acc + Line(events[0]) + Lines(events[1..]) == acc + (Line(events[0]) + Lines(events[1..]));
    }
  }

  /** `generateCSVFromEvents`: the header followed by one line per event, in order. */
  function GenerateCsv(events: seq<EventRecord>): (r: string)
    ensures r == Header + Lines(events)
    ensures events == [] ==> r == Header
  {
    ReduceAppendsLines("", events);
    assert "" + Lines(events) == Lines(events);
    Header + Reduce("", events)
  }

  /** The lines of consecutive event lists are consecutive. */
  lemma {:induction false} LinesAppend(a: seq<EventRecord>, b: seq<EventRecord>)
    decreases |a|
    ensures Lines(a + b) == Lines(a) + Lines(b)
  {
    if a == [] {
      assert a + b == b;
    } else {
      assert (a + b)[0] == a[0];
      assert (a + b)[1..] == a[1..] + b;
      LinesAppend(a[1..], b);
      assert Line(a[0]) + (Lines(a[1..]) + Lines(b)) == Line(a[0]) + Lines(a[1..]) + Lines(b);
    }
  }

  /** Appending events appends their lines to the CSV text. */
  lemma GenerateCsvAppend(a: seq<EventRecord>, b: seq<EventRecord>)
    ensures GenerateCsv(a + b) == GenerateCsv(a) + Lines(b)
  {
    LinesAppend(a, b);
    assert Header + (Lines(a) + Lines(b)) == Header + Lines(a) + Lines(b);
  }

  /** No field holds a line break. */
  predicate SingleLine(e: EventRecord) {
    '\n' !in e.owner && '\n' !in e.start && '\n' !in e.end && '\n' !in e.room
      && '\n' !in e.name && '\n' !in e.choice && '\n' !in e.eventType
  }

  /** A row of single-line fields is a single line. */
  lemma RowSingleLine(e: EventRecord)
    requires SingleLine(e)
    ensures '\n' !in Row(e)
  {
    var cells := Cells(e);
    forall i | 0 <= i < |cells| ensures '\n' !in cells[i] {}
    JoinAbsent(cells, ',', '\n');
  }

  /** The lines, read back by splitting on line breaks, are the rows, then an empty tail. */
  lemma {:induction false} LinesSplit(events: seq<EventRecord>)
    requires forall i :: 0 <= i < |events| ==> SingleLine(events[i])
    decreases |events|
    ensures Split(Lines(events), '\n') == Rows(events) + [""]
  {
    if events != [] {
      var e := events[0];
      RowSingleLine(e);
      assert Lines(events) == Row(e) + ['\n'] + Lines(events[1..]);
      SplitAtSeparator(Row(e), '\n', Lines(events[1..]));
      LinesSplit(events[1..]);
      assert Rows(events) == [Row(e)] + Rows(events[1..]);
    }
  }

  /** The header row holds no line break. */
  lemma HeaderSingleLine()
    ensures '\n' !in Join(ColumnNames, ',')
  {
    forall i | 0 <= i < |ColumnNames| ensures '\n' !in ColumnNames[i] {
      var name := ColumnNames[i];
      forall k | 0 <= k < |name| ensures name[k] != '\n' {}
    }
    JoinAbsent(ColumnNames, ',', '\n');
  }

  /**
    When no field holds a line break, the CSV text is exactly the header
    row, one row per event in order, and the empty text after the last
    line break.
  */
  lemma CsvLines(events: seq<EventRecord>)
    requires forall i :: 0 <= i < |events| ==> SingleLine(events[i])
    ensures Split(GenerateCsv(events), '\n') == [Join(ColumnNames, ',')] + Rows(events) + [""]
  {
    var head := Join(ColumnNames, ',');
    HeaderSingleLine();
    assert GenerateCsv(events) == head + ['\n'] + Lines(events);
    SplitAtSeparator(head, '\n', Lines(events));
    LinesSplit(events);
  }

  /** The header row splits back into the seven column names. */
  lemma HeaderColumns()
    ensures Split(Join(ColumnNames, ','), ',') == ColumnNames
  {
    forall i | 0 <= i < |ColumnNames| ensures ',' !in ColumnNames[i] {}
    SplitJoin(ColumnNames, ',');
  }

  /**
    A row read back as comma-separated cells: the subject, the cells of
    the start and of the end, the description and the location, when no
    other field holds a comma.
  */
  lemma RowCells(e: EventRecord)
    requires ',' !in e.eventType && ',' !in e.name && ',' !in e.owner && ',' !in e.choice && ',' !in e.room
    ensures Split(Row(e), ',') == [e.eventType + " - " + e.name] + (Split(" " + e.start, ',')
      + (Split(" " + e.end, ',') + [" " + e.owner + ChoiceSuffix(e.choice), " " + e.room]))
  {
    var cells := Cells(e);
    SplitJoinFirst(cells, ',');
    SplitJoinFirst(cells[1..], ',');
    SplitJoinFirst(cells[2..], ',');
    assert cells[1..][1..] == cells[2..] && cells[2..][1..] == cells[3..];
    assert Join(cells[3..], ',') == cells[3] + [','] + cells[4];
    SplitAtSeparator(cells[3], ',', cells[4]);
    SplitNoSeparator(cells[4], ',');
    SplitNoSeparator(cells[0], ',');
  }

  /** A " date, time" cell pair splits into its date and its time, each after one space. */
  lemma DateTimeCells(date: string, time: string)
    requires ',' !in date && ',' !in time
    ensures Split(" " + (date + ", " + time), ',') == [" " + date, " " + time]
  {
    assert " " + (date + ", " + time) == " " + date + [','] + (" " + time);
    SplitAtSeparator(" " + date, ',', " " + time);
    SplitNoSeparator(" " + time, ',');
  }

  /**
    An event whose start and end are "date, time" texts, with no other
    comma in any field, has one cell per header column, in the header's
    order: subject, start date, start time, end date, end time,
    description, location.
  */
  lemma RowMatchesHeader(e: EventRecord, startDate: string, startTime: string, endDate: string, endTime: string)
    requires ',' !in e.eventType && ',' !in e.name && ',' !in e.owner && ',' !in e.choice && ',' !in e.room
    requires ',' !in startDate && ',' !in startTime && ',' !in endDate && ',' !in endTime
    requires e.start == startDate + ", " + startTime && e.end == endDate + ", " + endTime
    ensures Split(Row(e), ',') == [e.eventType + " - " + e.name, " " + startDate, " " + startTime,
      " " + endDate, " " + endTime, " " + e.owner + ChoiceSuffix(e.choice), " " + e.room]
    ensures |Split(Row(e), ',')| == |ColumnNames|
  {
    RowCells(e);
    DateTimeCells(startDate, startTime);
    DateTimeCells(endDate, endTime);
  }
}
