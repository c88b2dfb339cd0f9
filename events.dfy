/**
  The event reconstruction state machine of `getEventsFromPdfTexts`: the
  record being built, the specification of one record (`getNextEvent`) and
  of the whole run (the outer loop), the exclusion filter, and the parser
  object whose methods carry out that specification step by step.
*/
module Events {
  import opened Wrappers
  import opened JsStrings
  import opened Columns

  /** One reconstructed calendar event; `eventType` is the source's `type` key. */
  datatype EventRecord = EventRecord(
    owner: string, start: string, end: string, room: string,
    name: string, choice: string, eventType: string)

  /** The record every event starts from. */
  const Defaults := EventRecord("n/z", "n/z", "n/z", "n/z", "n/z", "n/z", "inne")

  /** What `getPdfElement` returns: a column and its payload. */
  datatype Field =
    | Hours(from: string, until: string)
    | Date(date: string)
    | Type(kind: string)
    | Name(title: string)
    | Choice(option: string)
    | Room(place: string)
    | Owner(person: string)

  /** The presence flags of a record, one per element type other than date. */
  datatype Key = HoursKey | TypeKey | NameKey | ChoiceKey | RoomKey | OwnerKey

  const AllKeys: set<Key> := {HoursKey, TypeKey, NameKey, ChoiceKey, RoomKey, OwnerKey}

  function KeyOf(f: Field): (k: Key)
    requires !f.Date?
  {
    match f
    case Hours(_, _) => HoursKey
    case Type(_) => TypeKey
    case Name(_) => NameKey
    case Choice(_) => ChoiceKey
    case Room(_) => RoomKey
    case Owner(_) => OwnerKey
  }

  /** `isEventReady`: the owner, hours, room, name, choice and type flags are all set. */
  predicate Ready(seen: set<Key>) {
    AllKeys <= seen
  }

  /** There are only six flags, so a record is ready exactly when every one of them is set. */
  lemma ReadyAllSix(seen: set<Key>)
    ensures Ready(seen) <==> seen == AllKeys
  {
    forall k: Key | k in seen ensures k in AllKeys {
      match k
      case HoursKey =>
      case TypeKey =>
      case NameKey =>
      case ChoiceKey =>
      case RoomKey =>
      case OwnerKey =>
    }
  }

  /** The record's values under one key (hours covers start and end). */
  function Project(e: EventRecord, k: Key): (values: seq<string>) {
    match k
    case HoursKey => [e.start, e.end]
    case TypeKey => [e.eventType]
    case NameKey => [e.name]
    case ChoiceKey => [e.choice]
    case RoomKey => [e.room]
    case OwnerKey => [e.owner]
  }

  /** The values an element carries. */
  function Payload(f: Field): (values: seq<string>)
    requires !f.Date?
  {
    match f
    case Hours(s, e) => [s, e]
    case Type(v) => [v]
    case Name(v) => [v]
    case Choice(v) => [v]
    case Room(v) => [v]
    case Owner(v) => [v]
  }

  /** `{...eventToRet, ...element.data}`: the element's values replace its own key's, and nothing else changes. */
  function Merge(e: EventRecord, f: Field): (r: EventRecord)
    requires !f.Date?
    ensures Project(r, KeyOf(f)) == Payload(f)
    ensures forall k :: k != KeyOf(f) ==> Project(r, k) == Project(e, k)
  {
    match f
    case Hours(s, t) => e.(start := s, end := t)
    case Type(v) => e.(eventType := v)
    case Name(v) => e.(name := v)
    case Choice(v) => e.(choice := v)
    case Room(v) => e.(room := v)
    case Owner(v) => e.(owner := v)
  }

  /** `getPdfElement`: one run of fragments, read as the field its column stands for. */
  function ElementAt(data: seq<Fragment>, c: Cursor): (r: Step<Field>)
    ensures r.Done? ==> c.pointer < r.after.pointer < |data| && r.after.date == c.date
    ensures r.Fail? ==> r.failure == EndOfData
    ensures r.Fail? <==> ColumnAt(data, c).Fail?
  {
    match ColumnAt(data, c)
    case Fail(f) => Fail(f)
    case Done(text, after) =>
      match Classify(data[c.pointer].x)
      case HoursColumn =>
        var span := FormatDate(text, c.date);
        Done(Hours(span.start, span.end), after)
      case DateColumn => Done(Date(text), after)
      case TypeColumn => Done(Type(text), after)
      case NameColumn => Done(Name(text), after)
      case ChoiceColumn => Done(Choice(text), after)
      case RoomColumn => Done(Room(text), after)
      case OwnerColumn => Done(Owner(text), after)
      case NoColumn => Fail(InvalidElement("Invalid element on PDF " + text))
  }

  /**
    The loop of `getNextEvent`, from cursor `c` with record `e` built so far
    and the flags `seen`: a date only moves the current date; any other
    field is merged into the record, and then closes it, with the cursor
    rolled back to that field, if its flag was already set; the record is
    also closed as soon as all six flags are set. The closing cursor is
    never behind `c`, and it is only equal to `c` when some flag was set.
  */
  function RecordFrom(data: seq<Fragment>, c: Cursor, e: EventRecord, seen: set<Key>): (r: Step<EventRecord>)
    decreases |data| - c.pointer
    ensures r.Done? ==> c.pointer <= r.after.pointer < |data|
    ensures r.Done? && r.after.pointer == c.pointer ==> seen != {}
    ensures r.Fail? ==> r.failure == EndOfData
  {
    match ElementAt(data, c)
    case Fail(f) => Fail(f)
    case Done(f, after) =>
      if f.Date? then
        var next := Cursor(after.pointer, f.date);
        if Ready(seen) then Done(e, next) else RecordFrom(data, next, e, seen)
      else
        var merged := Merge(e, f);
        if KeyOf(f) in seen then Done(merged, c)
        else if Ready(seen + {KeyOf(f)}) then Done(merged, after)
        else RecordFrom(data, after, merged, seen + {KeyOf(f)})
  }

  /** One call of `getNextEvent`: a record from the defaults with no flag set. */
  function NextEventAt(data: seq<Fragment>, c: Cursor): (r: Step<EventRecord>)
    ensures r.Done? ==> c.pointer < r.after.pointer < |data|
    ensures r.Fail? ==> r.failure == EndOfData
  {
    RecordFrom(data, c, Defaults, {})
  }

  /**
    An element is the column of its run's first fragment: its kind is the
    bucket of that fragment's `x`, with every `x` outside the six buckets
    an owner, and its payload is the run's text (for hours, the span
    `formatDate` builds from it with the cursor's date).
  */
  lemma ElementAtColumn(data: seq<Fragment>, c: Cursor)
    requires ElementAt(data, c).Done?
    ensures var f := ElementAt(data, c).value;
      var x := data[c.pointer].x;
      && (f.Hours? <==> 0.2 < x < 1.5)
      && (f.Date? <==> 2.0 < x < 2.5)
      && (f.Type? <==> 4.5 < x < 5.5)
      && (f.Name? <==> 6.0 < x < 7.5)
      && (f.Choice? <==> 18.0 < x < 20.0)
      && (f.Room? <==> 21.0 < x < 23.0)
      && (f.Owner? <==> Classify(x) == OwnerColumn)
    ensures var f := ElementAt(data, c).value;
      var text := ColumnAt(data, c).value;
      && (f.Hours? ==> f.from == FormatDate(text, c.date).start && f.until == FormatDate(text, c.date).end)
      && (f.Date? ==> f.date == text)
      && (!f.Hours? && !f.Date? ==> Payload(f) == [text])
  {
  }

  /** The records fields build up, merged from the left. */
  function MergeAll(e: EventRecord, fs: seq<Field>): (r: EventRecord)
    requires forall i :: 0 <= i < |fs| ==> !fs[i].Date?
    decreases |fs|
  {
    if fs == [] then e else MergeAll(Merge(e, fs[0]), fs[1..])
  }

  /** The flags fields set. */
  function KeysOf(fs: seq<Field>): (keys: set<Key>)
    requires forall i :: 0 <= i < |fs| ==> !fs[i].Date?
    decreases |fs|
  {
    if fs == [] then {} else {KeyOf(fs[0])} + KeysOf(fs[1..])
  }

  /** `fs` are read one after the other, from cursor `cs[i]` to `cs[i + 1]`. */
  predicate Consecutive(data: seq<Fragment>, cs: seq<Cursor>, fs: seq<Field>) {
    && |cs| == |fs| + 1
    && forall i :: 0 <= i < |fs| ==> ElementAt(data, cs[i]) == Done(fs[i], cs[i + 1])
  }

  /** Non-date fields with pairwise different flags. */
  predicate DistinctFields(fs: seq<Field>) {
    && (forall i :: 0 <= i < |fs| ==> !fs[i].Date?)
    && (forall i, j :: 0 <= i < j < |fs| ==> KeyOf(fs[i]) != KeyOf(fs[j]))
  }

  /** A field with a new flag that does not complete the record is merged and flagged. */
  lemma RecordFromNewField(data: seq<Fragment>, c: Cursor, e: EventRecord, seen: set<Key>, f: Field, after: Cursor)
    requires ElementAt(data, c) == Done(f, after) && !f.Date?
    requires KeyOf(f) !in seen && !Ready(seen + {KeyOf(f)})
    ensures RecordFrom(data, c, e, seen) == RecordFrom(data, after, Merge(e, f), seen + {KeyOf(f)})
  {
  }

  /** Dropping the first of consecutive fields leaves consecutive fields. */
  lemma ConsecutiveTail(data: seq<Fragment>, cs: seq<Cursor>, fs: seq<Field>)
    requires Consecutive(data, cs, fs) && fs != []
    ensures Consecutive(data, cs[1..], fs[1..])
  {
    forall i | 0 <= i < |fs[1..]| ensures ElementAt(data, cs[1..][i]) == Done(fs[1..][i], cs[1..][i + 1]) {
      assert ElementAt(data, cs[i + 1]) == Done(fs[i + 1], cs[i + 2]);
    }
  }

  /** Dropping the first of distinct fields leaves distinct fields, none with its flag. */
  lemma DistinctTail(fs: seq<Field>)
    requires DistinctFields(fs) && fs != []
    ensures DistinctFields(fs[1..])
    ensures forall i :: 0 <= i < |fs[1..]| ==> KeyOf(fs[1..][i]) != KeyOf(fs[0])
    ensures KeysOf(fs) == {KeyOf(fs[0])} + KeysOf(fs[1..])
  {
    forall i, j | 0 <= i < j < |fs[1..]| ensures KeyOf(fs[1..][i]) != KeyOf(fs[1..][j]) {
      assert KeyOf(fs[i + 1]) != KeyOf(fs[j + 1]);
    }
    forall i | 0 <= i < |fs[1..]| ensures KeyOf(fs[1..][i]) != KeyOf(fs[0]) {
      assert KeyOf(fs[0]) != KeyOf(fs[i + 1]);
    }
  }

  /** The flags after the first of fields with new flags that leave the record incomplete. */
  lemma NextFlag(fs: seq<Field>, seen: set<Key>)
    requires DistinctFields(fs) && fs != []
    requires forall i :: 0 <= i < |fs| ==> KeyOf(fs[i]) !in seen
    requires !Ready(seen + KeysOf(fs))
    ensures var next := seen + {KeyOf(fs[0])};
      && !Ready(next) && next + KeysOf(fs[1..]) == seen + KeysOf(fs)
      && (forall i :: 0 <= i < |fs[1..]| ==> KeyOf(fs[1..][i]) !in next)
  {
    DistinctTail(fs);
    assert seen + {KeyOf(fs[0])} <= seen + KeysOf(fs);
  }

  /**
    The first of fields with new flags that leave the record incomplete:
    it is merged in and flagged, and the rest still have new flags.
  */
  lemma AccumulateFirst(data: seq<Fragment>, cs: seq<Cursor>, fs: seq<Field>, e: EventRecord, seen: set<Key>)
    requires Consecutive(data, cs, fs) && DistinctFields(fs) && fs != []
    requires forall i :: 0 <= i < |fs| ==> KeyOf(fs[i]) !in seen
    requires !Ready(seen + KeysOf(fs))
    ensures var next := seen + {KeyOf(fs[0])};
      && RecordFrom(data, cs[0], e, seen) == RecordFrom(data, cs[1..][0], Merge(e, fs[0]), next)
      && Consecutive(data, cs[1..], fs[1..]) && DistinctFields(fs[1..])
      && (forall i :: 0 <= i < |fs[1..]| ==> KeyOf(fs[1..][i]) !in next)
      && !Ready(next + KeysOf(fs[1..])) && next + KeysOf(fs[1..]) == seen + KeysOf(fs)
      && MergeAll(e, fs) == MergeAll(Merge(e, fs[0]), fs[1..])
      && cs[1..][|fs[1..]|] == cs[|fs|]
  {
    NextFlag(fs, seen);
    DistinctTail(fs);
    ConsecutiveTail(data, cs, fs);
    assert ElementAt(data, cs[0]) == Done(fs[0], cs[1]);
    RecordFromNewField(data, cs[0], e, seen, fs[0], cs[1]);
  }

  /**
    Fields with new flags that do not complete the record are merged in
    and flagged, and reading goes on after them.
  */
  lemma {:induction false} FieldsAccumulate(data: seq<Fragment>, cs: seq<Cursor>, fs: seq<Field>,
                                            e: EventRecord, seen: set<Key>)
    requires Consecutive(data, cs, fs) && DistinctFields(fs)
    requires forall i :: 0 <= i < |fs| ==> KeyOf(fs[i]) !in seen
    requires !Ready(seen + KeysOf(fs))
    decreases |fs|
    ensures RecordFrom(data, cs[0], e, seen)
      == RecordFrom(data, cs[|fs|], MergeAll(e, fs), seen + KeysOf(fs))
  {
    if fs == [] {
      assert seen + KeysOf(fs) == seen;
    } else {
      AccumulateFirst(data, cs, fs, e, seen);
      FieldsAccumulate(data, cs[1..], fs[1..], Merge(e, fs[0]), seen + {KeyOf(fs[0])});
    }
  }

  /** A field with a new flag that completes the record is merged, and the record closes after it. */
  lemma RecordFromLastField(data: seq<Fragment>, c: Cursor, e: EventRecord, seen: set<Key>, f: Field, after: Cursor)
    requires ElementAt(data, c) == Done(f, after) && !f.Date?
    requires KeyOf(f) !in seen && Ready(seen + {KeyOf(f)})
    ensures RecordFrom(data, c, e, seen) == Done(Merge(e, f), after)
  {
  }

  /**
    The flags after the first of fields that set all the missing flags:
    with one field the record is complete, with more it is not, and the
    rest set the flags still missing.
  */
  lemma FirstFlag(fs: seq<Field>, seen: set<Key>)
    requires DistinctFields(fs) && fs != []
    requires forall i :: 0 <= i < |fs| ==> KeyOf(fs[i]) !in seen
    requires seen + KeysOf(fs) == AllKeys
    ensures var next := seen + {KeyOf(fs[0])};
      && (|fs| == 1 ==> Ready(next))
      && (|fs| > 1 ==> !Ready(next) && next + KeysOf(fs[1..]) == AllKeys)
      && (forall i :: 0 <= i < |fs[1..]| ==> KeyOf(fs[1..][i]) !in next)
  {
    DistinctTail(fs);
    if |fs| > 1 {
      assert KeyOf(fs[1..][0]) !in seen + {KeyOf(fs[0])};
    } else {
      assert fs[1..] == [];
    }
  }

  /**
    The first of several fields that together set all the missing flags:
    it is merged in and flagged, and the rest set the flags still missing.
  */
  lemma CompleteFirst(data: seq<Fragment>, cs: seq<Cursor>, fs: seq<Field>, e: EventRecord, seen: set<Key>)
    requires Consecutive(data, cs, fs) && DistinctFields(fs) && |fs| > 1
    requires forall i :: 0 <= i < |fs| ==> KeyOf(fs[i]) !in seen
    requires seen + KeysOf(fs) == AllKeys
    ensures var next := seen + {KeyOf(fs[0])};
      && RecordFrom(data, cs[0], e, seen) == RecordFrom(data, cs[1..][0], Merge(e, fs[0]), next)
      && Consecutive(data, cs[1..], fs[1..]) && DistinctFields(fs[1..]) && fs[1..] != []
      && (forall i :: 0 <= i < |fs[1..]| ==> KeyOf(fs[1..][i]) !in next)
      && next + KeysOf(fs[1..]) == AllKeys
      && MergeAll(e, fs) == MergeAll(Merge(e, fs[0]), fs[1..])
      && cs[1..][|fs[1..]|] == cs[|fs|]
  {
    FirstFlag(fs, seen);
    ConsecutiveTail(data, cs, fs);
    DistinctTail(fs);
    assert ElementAt(data, cs[0]) == Done(fs[0], cs[1]);
    RecordFromNewField(data, cs[0], e, seen, fs[0], cs[1]);
  }

  /**
    Fields with new flags that together set all the missing ones are
    merged in, and the record closes right after the last of them.
  */
  lemma {:induction false} FieldsComplete(data: seq<Fragment>, cs: seq<Cursor>, fs: seq<Field>,
                                          e: EventRecord, seen: set<Key>)
    requires Consecutive(data, cs, fs) && DistinctFields(fs) && fs != []
    requires forall i :: 0 <= i < |fs| ==> KeyOf(fs[i]) !in seen
    requires seen + KeysOf(fs) == AllKeys
    decreases |fs|
    ensures RecordFrom(data, cs[0], e, seen) == Done(MergeAll(e, fs), cs[|fs|])
  {
    if |fs| == 1 {
      FirstFlag(fs, seen);
      assert ElementAt(data, cs[0]) == Done(fs[0], cs[1]);
      RecordFromLastField(data, cs[0], e, seen, fs[0], cs[1]);
      assert MergeAll(e, fs) == MergeAll(Merge(e, fs[0]), fs[1..]);
    } else {
      CompleteFirst(data, cs, fs, e, seen);
      FieldsComplete(data, cs[1..], fs[1..], Merge(e, fs[0]), seen + {KeyOf(fs[0])});
    }
  }

  /**
    Completion close: from the defaults, fields that set all six flags,
    one each, give the record holding their values, closed right after
    the last of them.
  */
  lemma CompletionClose(data: seq<Fragment>, cs: seq<Cursor>, fs: seq<Field>)
    requires Consecutive(data, cs, fs) && DistinctFields(fs)
    requires KeysOf(fs) == AllKeys
    ensures NextEventAt(data, cs[0]) == Done(MergeAll(Defaults, fs), cs[|fs|])
  {
    assert fs != [];
    assert {} + KeysOf(fs) == AllKeys;
    FieldsComplete(data, cs, fs, Defaults, {});
  }

  /** A field whose flag is already set is merged in, and the record closes with the cursor back on it. */
  lemma RecordFromRepeat(data: seq<Fragment>, c: Cursor, e: EventRecord, seen: set<Key>, f: Field, after: Cursor)
    requires ElementAt(data, c) == Done(f, after) && !f.Date? && KeyOf(f) in seen
    ensures RecordFrom(data, c, e, seen) == Done(Merge(e, f), c)
  {
  }

  /**
    Repeat close: after fields with new flags that do not complete the
    record, a field whose flag is already set is still merged into the
    record, which is then closed with the cursor back at that field, so
    that it is read again as the first field of the next record.
  */
  lemma RepeatClose(data: seq<Fragment>, cs: seq<Cursor>, fs: seq<Field>, g: Field, next: Cursor)
    requires Consecutive(data, cs, fs) && DistinctFields(fs)
    requires !Ready(KeysOf(fs))
    requires ElementAt(data, cs[|fs|]) == Done(g, next) && !g.Date? && KeyOf(g) in KeysOf(fs)
    ensures NextEventAt(data, cs[0]) == Done(Merge(MergeAll(Defaults, fs), g), cs[|fs|])
  {
    assert {} + KeysOf(fs) == KeysOf(fs);
    FieldsAccumulate(data, cs, fs, Defaults, {});
    RecordFromRepeat(data, cs[|fs|], MergeAll(Defaults, fs), KeysOf(fs), g, next);
  }

  /** Merging fields never touches the values under a key none of them sets. */
  lemma {:induction false} MergeAllKeeps(e: EventRecord, fs: seq<Field>, k: Key)
    requires forall i :: 0 <= i < |fs| ==> !fs[i].Date?
    requires k !in KeysOf(fs)
    decreases |fs|
    ensures Project(MergeAll(e, fs), k) == Project(e, k)
  {
    if fs != [] {
      MergeAllKeeps(Merge(e, fs[0]), fs[1..], k);
    }
  }

  /**
    A record closed by a repeat before it was complete keeps the defaults
    ("n/z", and "inne" for the type) under every flag it never set.
  */
  lemma RepeatKeepsDefaults(data: seq<Fragment>, cs: seq<Cursor>, fs: seq<Field>, g: Field, next: Cursor)
    requires Consecutive(data, cs, fs) && DistinctFields(fs)
    requires !Ready(KeysOf(fs))
    requires ElementAt(data, cs[|fs|]) == Done(g, next) && !g.Date? && KeyOf(g) in KeysOf(fs)
    ensures NextEventAt(data, cs[0]).Done?
    ensures forall k :: k !in KeysOf(fs) ==> Project(NextEventAt(data, cs[0]).value, k) == Project(Defaults, k)
  {
    RepeatClose(data, cs, fs, g, next);
    forall k | k !in KeysOf(fs)
      ensures Project(NextEventAt(data, cs[0]).value, k) == Project(Defaults, k)
    {
      MergeAllKeeps(Defaults, fs, k);
    }
  }

  /**
    A date sets no flag and changes nothing in the record: reading goes on
    after it with the current date replaced, unless the record was already
    complete.
  */
  lemma DatePassesThrough(data: seq<Fragment>, c: Cursor, e: EventRecord, seen: set<Key>, d: string, after: Cursor)
    requires ElementAt(data, c) == Done(Date(d), after) && !Ready(seen)
    ensures RecordFrom(data, c, e, seen) == RecordFrom(data, Cursor(after.pointer, d), e, seen)
  {
  }

  /**
    The outer loop: events are collected until a record meets the end of
    the data, and that record is dropped. Every event moves the cursor
    forward, so there are fewer events than fragments left to read.
  */
  function EventsFrom(data: seq<Fragment>, c: Cursor): (r: Result<seq<EventRecord>>)
    decreases |data| - c.pointer
    ensures r.Ok?
    ensures r.value != [] ==> c.pointer + |r.value| < |data|
  {
    match NextEventAt(data, c)
    case Fail(EndOfData) => Ok([])
    case Fail(InvalidElement(m)) => Err(m)
    case Done(e, after) =>
      match EventsFrom(data, after)
      case Ok(rest) => Ok([e] + rest)
      case Err(m) => Err(m)
  }

  /** The outer loop stops, with nothing more, once no record can be completed. */
  lemma EventsFromEnd(data: seq<Fragment>, c: Cursor)
    requires NextEventAt(data, c).Fail?
    ensures EventsFrom(data, c).value == []
  {
  }

  /** One turn of the outer loop: the first record, then the events after it. */
  lemma EventsFromStep(data: seq<Fragment>, c: Cursor, e: EventRecord, after: Cursor)
    requires NextEventAt(data, c) == Done(e, after)
    ensures EventsFrom(data, c).value == [e] + EventsFrom(data, after).value
  {
  }

  /** The `filter` on the collected events: those whose name is not in `toDelete`, in order. */
  function Exclude(events: seq<EventRecord>, toDelete: seq<string>): (r: seq<EventRecord>)
    ensures |r| <= |events|
    ensures forall e :: e in r ==> e in events && e.name !in toDelete
    ensures forall e :: e in events && e.name !in toDelete ==> e in r
  {
    if events == [] then []
    else if events[0].name in toDelete then Exclude(events[1..], toDelete)
    else [events[0]] + Exclude(events[1..], toDelete)
  }

  /** The filter keeps order: filtering a concatenation concatenates the filtered parts. */
  lemma {:induction false} ExcludeAppend(a: seq<EventRecord>, b: seq<EventRecord>, toDelete: seq<string>)
    ensures Exclude(a + b, toDelete) == Exclude(a, toDelete) + Exclude(b, toDelete)
  {
    if a == [] {
      assert a + b == b;
    } else {
      assert (a + b)[0] == a[0];
      assert (a + b)[1..] == a[1..] + b;
      ExcludeAppend(a[1..], b, toDelete);
      if a[0].name !in toDelete {
        assert [a[0]] + (Exclude(a[1..], toDelete) + Exclude(b, toDelete))
          == [a[0]] + Exclude(a[1..], toDelete) + Exclude(b, toDelete);
      }
    }
  }

  /**
    `getEventsFromPdfTexts` with the exclusion list `toDelete` passed in.
    The run never fails (no fragment is rejected), yields fewer events than
    data fragments, and no event whose name is to be deleted.
  */
  function Extract(texts: seq<Fragment>, toDelete: seq<string>): (r: Result<seq<EventRecord>>)
    ensures r.Ok?
    ensures |r.value| <= |PdfData(texts)|
    ensures forall e :: e in r.value ==> e.name !in toDelete
  {
    match EventsFrom(PdfData(texts), Cursor(0, ""))
    case Ok(events) => Ok(Exclude(events, toDelete))
    case Err(m) => Err(m)
  }

  /** The filtered events, once the outer loop has collected `events`. */
  lemma ExtractFrom(texts: seq<Fragment>, toDelete: seq<string>, events: seq<EventRecord>)
    requires EventsFrom(PdfData(texts), Cursor(0, "")).value == events
    ensures Extract(texts, toDelete) == Ok(Exclude(events, toDelete))
  {
  }

  /**
    The exclusion list as the form sends it (app/containers/Root.js):
    the first newline removed, then split on ';'.
  */
  function ParseExclusions(raw: string): (names: seq<string>)
    ensures |names| >= 1
    ensures forall i :: 0 <= i < |names| ==> ';' !in names[i]
  {
    SplitPiecesLackSeparator(RemoveFirst(raw, ["\n"]), ';');
    Split(RemoveFirst(raw, ["\n"]), ';')
  }

  /** Only the first newline is removed: the names are those of the text without it. */
  lemma ParseExclusionsFirstNewline(before: string, after: string)
    requires '\n' !in before
    ensures Join(ParseExclusions(before + "\n" + after), ';') == before + after
  {
    var s := before + "\n" + after;
    assert OccursAt(s, |before|, "\n") by { assert s[|before|..|before| + 1] == "\n"; }
    forall i | 0 <= i < |before| ensures TokenAt(s, i, ["\n"]).None? {
      assert s[i] == before[i];
      assert !OccursAt(s, i, "\n") by {
        if i + 1 <= |s| { assert s[i..i + 1][0] == s[i]; }
      }
    }
    FirstMatchAt(s, ["\n"], 0, |before|);
    assert RemoveFirst(s, ["\n"]) == before + after by {
      assert s[..|before|] == before;
      assert s[|before| + 1..] == after;
    }
    JoinSplit(before + after, ';');
  }

  /** Without a newline, the list is the ';'-separated pieces of the text itself. */
  lemma ParseExclusionsNoNewline(raw: string)
    requires '\n' !in raw
    ensures Join(ParseExclusions(raw), ';') == raw
  {
    CharTokenAbsent(raw, '\n');
    JoinSplit(raw, ';');
  }

  /**
    The parse state of one `getEventsFromPdfTexts` call: the data region,
    the shared `pointer` and `currentDate`.
  */
  class Parser {
    const data: seq<Fragment>
    var pointer: nat
    var currentDate: string

    ghost predicate Valid()
      reads this
    {
      pointer <= |data|
    }

    function Here(): (c: Cursor)
      reads this
    {
      Cursor(pointer, currentDate)
    }

    constructor (texts: seq<Fragment>)
      ensures Valid() && data == PdfData(texts) && Here() == Cursor(0, "")
    {
      data := PdfData(texts);
      pointer := 0;
      currentDate := "";
    }

    /** `getColumnData`, which always moves past the run it reads. */
    method ColumnData() returns (r: Step<string>)
      requires Valid()
      modifies this`pointer
      ensures Valid()
      ensures r == ColumnAt(data, old(Here()))
      ensures r.Done? ==> Here() == r.after
      ensures r.Fail? ==> pointer == if old(pointer) + 1 >= |data| then old(pointer) else |data| - 1
    {
      var text := "";
      ghost var start := pointer;
      while true
        invariant Valid() && start <= pointer
        invariant start < pointer ==> pointer < |data|
        invariant RunEnd(data, pointer) == RunEnd(data, start)
        invariant text == Joined(data, start, pointer)
        decreases |data| - pointer
      {
        if pointer + 1 >= |data| {
          ColumnAtOpen(data, Cursor(start, currentDate));
          return Fail(EndOfData);
        }
        var current := data[pointer];
        var next := data[pointer + 1];
        text := text + " " + current.text;
        if current.x != next.x {
          RunEndStops(data, pointer);
          ColumnAtClosed(data, Cursor(start, currentDate), pointer, text);
          pointer := pointer + 1;
          return Done(Trim(text), Here());
        }
        RunEndContinues(data, pointer);
        pointer := pointer + 1;
      }
    }

    /** `getPdfElement`: reads one run and classifies it by its first fragment's `x`. */
    method PdfElement() returns (r: Step<Field>)
      requires Valid()
      modifies this`pointer
      ensures Valid()
      ensures r == ElementAt(data, old(Here()))
      ensures r.Done? ==> Here() == r.after
      ensures r.Fail? ==> pointer == if old(pointer) + 1 >= |data| then old(pointer) else |data| - 1
    {
      var first := pointer;
      var column := ColumnData();
      if column.Fail? {
        return Fail(column.failure);
      }
      var x := data[first].x;
      var text := column.value;
      match Classify(x)
      case HoursColumn =>
        var span := FormatDate(text, currentDate);
        r := Done(Hours(span.start, span.end), Here());
      case DateColumn => r := Done(Date(text), Here());
      case TypeColumn => r := Done(Type(text), Here());
      case NameColumn => r := Done(Name(text), Here());
      case ChoiceColumn => r := Done(Choice(text), Here());
      case RoomColumn => r := Done(Room(text), Here());
      case OwnerColumn => r := Done(Owner(text), Here());
      case NoColumn => r := Fail(InvalidElement("Invalid element on PDF " + text));
    }

    /**
      The outer loop of `getEventsFromPdfTexts`: records are pushed until
      one meets the end of the data, which is dropped.
    */
    method CollectEvents() returns (events: seq<EventRecord>)
      requires Valid()
      modifies this`pointer, this`currentDate
      ensures Valid()
      ensures events == EventsFrom(data, old(Here())).value
    {
      ghost var all := EventsFrom(data, Here()).value;
      events := [];
      assert events + EventsFrom(data, Here()).value == all;
      while true
        invariant Valid()
        invariant events + EventsFrom(data, Here()).value == all
        decreases |data| - pointer
      {
        ghost var here := Here();
        var next := NextEvent();
        match next
        case Fail(EndOfData) =>
          EventsFromEnd(data, here);
          assert events + [] == events;
          break;
        case Fail(InvalidElement(m)) =>
          assert false;
        case Done(e, after) =>
          EventsFromStep(data, here, e, after);
          ghost var rest := EventsFrom(data, after).value;
          assert events + [e] + rest == events + ([e] + rest);
          events := events + [e];
      }
    }

    /** `getNextEvent`: builds one record, or meets the end of the data. */
    method NextEvent() returns (r: Step<EventRecord>)
      requires Valid()
      modifies this`pointer, this`currentDate
      ensures Valid()
      ensures r == NextEventAt(data, old(Here()))
      ensures r.Done? ==> Here() == r.after
      ensures r.Fail? ==> pointer == if old(pointer) + 1 >= |data| then old(pointer) else |data| - 1
    {
      var event := Defaults;
      var seen: set<Key> := {};
      while true
        invariant Valid()
        invariant pointer == old(pointer) || (old(pointer) + 1 < |data| && pointer < |data|)
        invariant RecordFrom(data, Here(), event, seen) == NextEventAt(data, old(Here()))
        decreases |data| - pointer
      {
        var before := pointer;
        var element := PdfElement();
        if element.Fail? {
          return Fail(element.failure);
        }
        var f := element.value;
        if f.Date? {
          currentDate := f.date;
        } else {
          event := Merge(event, f);
          if KeyOf(f) in seen {
            pointer := before;
            return Done(event, Here());
          }
          seen := seen + {KeyOf(f)};
        }
        if Ready(seen) {
          return Done(event, Here());
        }
      }
    }
  }

  /** `getEventsFromPdfTexts`: the outer loop over `getNextEvent`, then the filter. */
  method EventsFromPdfTexts(texts: seq<Fragment>, toDelete: seq<string>) returns (r: Result<seq<EventRecord>>)
    ensures r == Extract(texts, toDelete)
  {
    var parser := new Parser(texts);
    var events := parser.CollectEvents();
    ExtractFrom(texts, toDelete, events);
    return Ok(Exclude(events, toDelete));
  }
}
