/**
  One schedule row, end to end: seven fragments, one per column in the
  order date, hours, type, name, choice, room, owner. On its own the row
  yields no event, because the owner fragment is the last one of the
  data region and is never read. With one more fragment after it, the
  row yields exactly one event, holding the row's texts.
*/
module Scenario {
  import opened Wrappers
  import opened JsStrings
  import opened Columns
  import opened Events

  /**
    `data` opens with a row: a date, hours, type, name, choice, room and
    owner fragment, each in its column's bucket and without white space
    around its text.
  */
  predicate IsRow(data: seq<Fragment>) {
    && |data| >= 7
    && 2.0 < data[0].x < 2.5
    && 0.2 < data[1].x < 1.5
    && 4.5 < data[2].x < 5.5
    && 6.0 < data[3].x < 7.5
    && 18.0 < data[4].x < 20.0
    && 21.0 < data[5].x < 23.0
    && 23.5 < data[6].x
    && forall i :: 0 <= i < 7 ==> Trimmed(data[i].text)
  }

  /** The event the row describes. */
  function RowEvent(data: seq<Fragment>): (e: EventRecord)
    requires |data| >= 7
  {
    var span := FormatDate(data[1].text, data[0].text);
    EventRecord(data[6].text, span.start, span.end, data[5].text, data[3].text, data[4].text, data[2].text)
  }

  /** A text without outer white space, after one space, trims back to itself. */
  lemma TrimSpaced(t: string)
    requires Trimmed(t)
    ensures Trim(" " + t) == t
  {
    assert " " + t + "" == " " + t;
    TrimPadding(" ", t, "");
  }

  /** The text gathered over a single fragment. */
  lemma JoinedSingle(data: seq<Fragment>, p: nat)
    requires p < |data|
    ensures Joined(data, p, p + 1) == " " + data[p].text
  {
    assert Joined(data, p, p) == "";
  }

  /** A single fragment whose successor has another `x` is a column of its own text. */
  lemma SingleFragmentColumn(data: seq<Fragment>, p: nat, date: string)
    requires p + 1 < |data| && data[p].x != data[p + 1].x && Trimmed(data[p].text)
    ensures ColumnAt(data, Cursor(p, date)) == Done(data[p].text, Cursor(p + 1, date))
  {
    RunEndStops(data, p);
    JoinedSingle(data, p);
    ColumnAtClosed(data, Cursor(p, date), p, " " + data[p].text);
    TrimSpaced(data[p].text);
  }

  /** The first element of a row is its date. */
  lemma ReadDate(data: seq<Fragment>)
    requires IsRow(data)
    ensures ElementAt(data, Cursor(0, "")) == Done(Date(data[0].text), Cursor(1, ""))
  {
    SingleFragmentColumn(data, 0, "");
  }

  /** The hours are read on the row's date. */
  lemma ReadHours(data: seq<Fragment>)
    requires IsRow(data)
    ensures var d := data[0].text; var span := FormatDate(data[1].text, d);
      ElementAt(data, Cursor(1, d)) == Done(Hours(span.start, span.end), Cursor(2, d))
  {
    SingleFragmentColumn(data, 1, data[0].text);
  }

  /** The type, name, choice and room are read as they stand. */
  lemma ReadType(data: seq<Fragment>)
    requires IsRow(data)
    ensures ElementAt(data, Cursor(2, data[0].text)) == Done(Type(data[2].text), Cursor(3, data[0].text))
  {
    SingleFragmentColumn(data, 2, data[0].text);
  }

  lemma ReadName(data: seq<Fragment>)
    requires IsRow(data)
    ensures ElementAt(data, Cursor(3, data[0].text)) == Done(Name(data[3].text), Cursor(4, data[0].text))
  {
    SingleFragmentColumn(data, 3, data[0].text);
  }

  lemma ReadChoice(data: seq<Fragment>)
    requires IsRow(data)
    ensures ElementAt(data, Cursor(4, data[0].text)) == Done(Choice(data[4].text), Cursor(5, data[0].text))
  {
    SingleFragmentColumn(data, 4, data[0].text);
  }

  lemma ReadRoom(data: seq<Fragment>)
    requires IsRow(data)
    ensures ElementAt(data, Cursor(5, data[0].text)) == Done(Room(data[5].text), Cursor(6, data[0].text))
  {
    SingleFragmentColumn(data, 5, data[0].text);
  }

  /** The owner is read only when a fragment with another `x` follows it. */
  lemma ReadOwner(data: seq<Fragment>)
    requires IsRow(data) && |data| >= 8 && data[7].x != data[6].x
    ensures ElementAt(data, Cursor(6, data[0].text)) == Done(Owner(data[6].text), Cursor(7, data[0].text))
  {
    SingleFragmentColumn(data, 6, data[0].text);
  }

  /** The flags set once the row's hours, type, name, choice and room are read. */
  const AllButOwner: set<Key> := {HoursKey, TypeKey, NameKey, ChoiceKey, RoomKey}

  /** The record once the row's hours and type are merged in. */
  function AfterType(data: seq<Fragment>): (e: EventRecord)
    requires |data| >= 7
  {
    var span := FormatDate(data[1].text, data[0].text);
    Defaults.(start := span.start, end := span.end, eventType := data[2].text)
  }

  /** Then its name, its choice and its room. */
  function AfterName(data: seq<Fragment>): (e: EventRecord)
    requires |data| >= 7
  {
    AfterType(data).(name := data[3].text)
  }

  function AfterChoice(data: seq<Fragment>): (e: EventRecord)
    requires |data| >= 7
  {
    AfterName(data).(choice := data[4].text)
  }

  function UpToRoom(data: seq<Fragment>): (e: EventRecord)
    requires |data| >= 7
  {
    AfterChoice(data).(room := data[5].text)
  }

  /** The hours, then the type, with new flags, are merged in and flagged, whatever the record. */
  lemma ReadHoursStep(data: seq<Fragment>, e: EventRecord, from: string, until: string)
    requires |data| >= 7
    requires ElementAt(data, Cursor(1, data[0].text)) == Done(Hours(from, until), Cursor(2, data[0].text))
    ensures RecordFrom(data, Cursor(1, data[0].text), e, {})
      == RecordFrom(data, Cursor(2, data[0].text), e.(start := from, end := until), {HoursKey})
  {
    assert {} + {HoursKey} == {HoursKey};
    RecordFromNewField(data, Cursor(1, data[0].text), e, {}, Hours(from, until), Cursor(2, data[0].text));
  }

  lemma ReadTypeStep(data: seq<Fragment>, e: EventRecord)
    requires |data| >= 7
    requires ElementAt(data, Cursor(2, data[0].text)) == Done(Type(data[2].text), Cursor(3, data[0].text))
    ensures RecordFrom(data, Cursor(2, data[0].text), e, {HoursKey})
      == RecordFrom(data, Cursor(3, data[0].text), e.(eventType := data[2].text), {HoursKey, TypeKey})
  {
    assert {HoursKey} + {TypeKey} == {HoursKey, TypeKey};
    RecordFromNewField(data, Cursor(2, data[0].text), e, {HoursKey}, Type(data[2].text), Cursor(3, data[0].text));
  }

  /** A name, a choice or a room with a new flag is merged in and flagged, whatever the record. */
  lemma ReadNameStep(data: seq<Fragment>, e: EventRecord)
    requires |data| >= 7
    requires ElementAt(data, Cursor(3, data[0].text)) == Done(Name(data[3].text), Cursor(4, data[0].text))
    ensures RecordFrom(data, Cursor(3, data[0].text), e, {HoursKey, TypeKey})
      == RecordFrom(data, Cursor(4, data[0].text), e.(name := data[3].text), {HoursKey, TypeKey, NameKey})
  {
    var k: set<Key> := {HoursKey, TypeKey};
    assert k + {NameKey} == {HoursKey, TypeKey, NameKey};
    RecordFromNewField(data, Cursor(3, data[0].text), e, k, Name(data[3].text), Cursor(4, data[0].text));
  }

  lemma ReadChoiceStep(data: seq<Fragment>, e: EventRecord)
    requires |data| >= 7
    requires ElementAt(data, Cursor(4, data[0].text)) == Done(Choice(data[4].text), Cursor(5, data[0].text))
    ensures RecordFrom(data, Cursor(4, data[0].text), e, {HoursKey, TypeKey, NameKey})
      == RecordFrom(data, Cursor(5, data[0].text), e.(choice := data[4].text), {HoursKey, TypeKey, NameKey, ChoiceKey})
  {
    var k: set<Key> := {HoursKey, TypeKey, NameKey};
    assert k + {ChoiceKey} == {HoursKey, TypeKey, NameKey, ChoiceKey};
    RecordFromNewField(data, Cursor(4, data[0].text), e, k, Choice(data[4].text), Cursor(5, data[0].text));
  }

  lemma ReadRoomStep(data: seq<Fragment>, e: EventRecord)
    requires |data| >= 7
    requires ElementAt(data, Cursor(5, data[0].text)) == Done(Room(data[5].text), Cursor(6, data[0].text))
    ensures RecordFrom(data, Cursor(5, data[0].text), e, {HoursKey, TypeKey, NameKey, ChoiceKey})
      == RecordFrom(data, Cursor(6, data[0].text), e.(room := data[5].text), AllButOwner)
  {
    var k: set<Key> := {HoursKey, TypeKey, NameKey, ChoiceKey};
    assert k + {RoomKey} == AllButOwner;
    RecordFromNewField(data, Cursor(5, data[0].text), e, k, Room(data[5].text), Cursor(6, data[0].text));
  }

  /** After the date, five fields are read; only the owner's flag is still missing. */
  lemma ReadUpToRoom(data: seq<Fragment>)
    requires IsRow(data)
    ensures NextEventAt(data, Cursor(0, ""))
      == RecordFrom(data, Cursor(6, data[0].text), UpToRoom(data), AllButOwner)
  {
    ReadDate(data);
    DatePassesThrough(data, Cursor(0, ""), Defaults, {}, data[0].text, Cursor(1, ""));
    var span := FormatDate(data[1].text, data[0].text);
    ReadHours(data);
    ReadType(data);
    ReadHoursStep(data, Defaults, span.start, span.end);
    ReadTypeStep(data, Defaults.(start := span.start, end := span.end));
    ReadName(data);
    ReadChoice(data);
    ReadRoom(data);
    ReadNameStep(data, AfterType(data));
    ReadChoiceStep(data, AfterName(data));
    ReadRoomStep(data, AfterChoice(data));
  }

  /**
    A row that fills the data region yields no event: its owner fragment
    is the last one, so the record meets the end of the data and is dropped.
  */
  lemma RowAloneYieldsNothing(data: seq<Fragment>)
    requires IsRow(data) && |data| == 7
    ensures EventsFrom(data, Cursor(0, "")) == Ok([])
  {
    ReadUpToRoom(data);
    ColumnAtOpen(data, Cursor(6, data[0].text));
    EventsFromEnd(data, Cursor(0, ""));
  }

  /** An owner, the last flag missing, is merged in and closes the record, whatever the record. */
  lemma ReadOwnerStep(data: seq<Fragment>, e: EventRecord)
    requires |data| >= 8
    requires ElementAt(data, Cursor(6, data[0].text)) == Done(Owner(data[6].text), Cursor(7, data[0].text))
    ensures RecordFrom(data, Cursor(6, data[0].text), e, AllButOwner)
      == Done(e.(owner := data[6].text), Cursor(7, data[0].text))
  {
    assert AllButOwner + {OwnerKey} == AllKeys;
    RecordFromLastField(data, Cursor(6, data[0].text), e, AllButOwner, Owner(data[6].text), Cursor(7, data[0].text));
  }

  /** With a fragment after the owner, the record closes on it, complete. */
  lemma RowRecord(data: seq<Fragment>)
    requires IsRow(data) && |data| >= 8 && data[7].x != data[6].x
    ensures NextEventAt(data, Cursor(0, "")) == Done(RowEvent(data), Cursor(7, data[0].text))
  {
    ReadUpToRoom(data);
    ReadOwner(data);
    ReadOwnerStep(data, UpToRoom(data));
  }

  /** One record, after which no record can be completed, is all the loop collects. */
  lemma OneEventThenEnd(data: seq<Fragment>, c: Cursor, e: EventRecord, last: Cursor)
    requires NextEventAt(data, c) == Done(e, last) && RunEnd(data, last.pointer).None?
    ensures EventsFrom(data, c) == Ok([e])
  {
    ColumnAtOpen(data, last);
    assert ElementAt(data, last).Fail?;
    assert NextEventAt(data, last).Fail?;
    EventsFromEnd(data, last);
    EventsFromStep(data, c, e, last);
    assert [e] + [] == [e];
  }

  /**
    A row followed by one fragment with another `x` yields exactly the
    row's event, and reading stops on that last fragment.
  */
  lemma RowThenFragmentYieldsEvent(data: seq<Fragment>)
    requires IsRow(data) && |data| == 8 && data[7].x != data[6].x
    ensures EventsFrom(data, Cursor(0, "")) == Ok([RowEvent(data)])
  {
    RowRecord(data);
    OneEventThenEnd(data, Cursor(0, ""), RowEvent(data), Cursor(7, data[0].text));
  }

  /**
    A page holding the 18 header fragments, the row, one more fragment and
    the footer gives the row's event, unless its name is excluded.
  */
  lemma PageWithRow(texts: seq<Fragment>, toDelete: seq<string>)
    requires |texts| == 27 && IsRow(texts[18..26]) && texts[25].x != texts[24].x
    ensures texts[21].text !in toDelete ==> Extract(texts, toDelete) == Ok([RowEvent(texts[18..26])])
    ensures texts[21].text in toDelete ==> Extract(texts, toDelete) == Ok([])
  {
    var data := texts[18..26];
    assert data[7] == texts[25] && data[6] == texts[24] && data[3] == texts[21];
    RowThenFragmentYieldsEvent(data);
    ExtractFrom(texts, toDelete, [RowEvent(data)]);
  }

  /** A page whose data region is just the row gives no event at all. */
  lemma PageWithRowOnly(texts: seq<Fragment>, toDelete: seq<string>)
    requires |texts| == 26 && IsRow(texts[18..25])
    ensures Extract(texts, toDelete) == Ok([])
  {
    RowAloneYieldsNothing(texts[18..25]);
    ExtractFrom(texts, toDelete, []);
  }
}
