/**
  The positional token classifier of `getEventsFromPdfTexts`: fragments of
  the flattened PDF page stream, the data region cut out of it, runs of
  fragments that share one horizontal coordinate, the column a run belongs
  to, and the date/time strings built for the hours column.
*/
module Columns {
  import opened Wrappers
  import opened JsStrings

  /** One positioned text fragment. `x` is only ever compared, never computed with. */
  datatype Fragment = Fragment(text: string, x: real, y: real)

  /** `texts.slice(18, texts.length - 1)`: drops the 18 header fragments and the footer fragment. */
  function PdfData(texts: seq<Fragment>): (data: seq<Fragment>)
    ensures |texts| >= 19 ==> data == texts[18..|texts| - 1]
    ensures |texts| < 19 ==> data == []
  {
    Slice(texts, 18, |texts| - 1)
  }

  /** Where the parse stands: the index of the next fragment, and the last date read. */
  datatype Cursor = Cursor(pointer: nat, date: string)

  /** The two ways reading can stop: the stream ran out, or a fragment fits no column. */
  datatype Failure = EndOfData | InvalidElement(message: string)

  /** The outcome of one reading step: a failure, or a value and the cursor after it. */
  datatype Step<T> = Fail(failure: Failure) | Done(value: T, after: Cursor)

  /**
    The index of the last fragment of the run of equal-`x` fragments that
    starts at `p`, or None when no fragment after the run exists, so that
    the run cannot be closed (the last fragment of `data` is never closed).
  */
  function RunEnd(data: seq<Fragment>, p: nat): (q: Option<nat>)
    decreases |data| - p
    ensures q.Some? ==> p <= q.value && q.value + 1 < |data|
  {
    if p + 1 >= |data| then None
    else if data[p].x != data[p + 1].x then Some(p)
    else RunEnd(data, p + 1)
  }

  /** A fragment with the same `x` as the next one is inside a run that goes on. */
  lemma RunEndContinues(data: seq<Fragment>, p: nat)
    requires p + 1 < |data| && data[p].x == data[p + 1].x
    ensures RunEnd(data, p) == RunEnd(data, p + 1)
  {
  }

  /** A fragment whose next one has another `x` ends its run. */
  lemma RunEndStops(data: seq<Fragment>, p: nat)
    requires p + 1 < |data| && data[p].x != data[p + 1].x
    ensures RunEnd(data, p) == Some(p)
  {
  }

  /**
    RunEnd finds the maximal run: all of it shares the `x` of its first
    fragment, the fragment after it does not, and when there is no end
    every fragment from `p` on shares that `x`.
  */
  lemma {:induction false} RunEndMaximal(data: seq<Fragment>, p: nat)
    decreases |data| - p
    ensures RunEnd(data, p).Some? ==> data[RunEnd(data, p).value + 1].x != data[p].x
    ensures RunEnd(data, p).Some? ==> forall k :: p <= k <= RunEnd(data, p).value ==> data[k].x == data[p].x
    ensures RunEnd(data, p).None? && p < |data| ==> forall k :: p <= k < |data| ==> data[k].x == data[p].x
  {
    if p + 1 < |data| && data[p].x == data[p + 1].x {
      RunEndMaximal(data, p + 1);
    }
  }

  /**
    The text `getColumnData` accumulates over the fragments `start` up to
    (not including) `end`: each fragment's text after one space.
  */
  function Joined(data: seq<Fragment>, start: nat, end: nat): (r: string)
    requires start <= end <= |data|
    decreases end
  {
    if end == start then "" else Joined(data, start, end - 1) + " " + data[end - 1].text
  }

  /** The texts of `frags`, in order. */
  function Texts(frags: seq<Fragment>): (r: seq<string>)
    decreases |frags|
  {
    if frags == [] then [] else Texts(frags[..|frags| - 1]) + [frags[|frags| - 1].text]
  }

  /**
    What the loop accumulates over a non-empty run is the run's texts
    joined by single spaces, after one more space.
  */
  lemma {:induction false} JoinedSpaced(data: seq<Fragment>, start: nat, end: nat)
    requires start < end <= |data|
    decreases end
    ensures Joined(data, start, end) == " " + Join(Texts(data[start..end]), ' ')
  {
    var run := data[start..end];
    var init := data[start..end - 1];
    assert run[..|run| - 1] == init;
    assert Texts(run) == Texts(init) + [data[end - 1].text];
    if end == start + 1 {
      assert init == [];
    } else {
      JoinedSpaced(data, start, end - 1);
      JoinSnoc(Texts(init), ' ', data[end - 1].text);
    }
  }

  /**
    `getColumnData`: the trimmed, space-joined texts of the run of
    equal-`x` fragments starting at the cursor, with the cursor moved past
    the run; `EndOfData` when the run reaches the last fragment.
  */
  function ColumnAt(data: seq<Fragment>, c: Cursor): (r: Step<string>)
    ensures r.Done? ==> c.pointer < r.after.pointer < |data| && r.after.date == c.date
    ensures r.Fail? ==> r.failure == EndOfData
  {
    match RunEnd(data, c.pointer)
    case None => Fail(EndOfData)
    case Some(q) => Done(Trim(Joined(data, c.pointer, q + 1)), Cursor(q + 1, c.date))
  }

  /**
    A column is a maximal run: every fragment read shares the first one's
    `x`, and the fragment the cursor stops at does not.
  */
  lemma ColumnAtMaximalRun(data: seq<Fragment>, c: Cursor)
    requires ColumnAt(data, c).Done?
    ensures var after := ColumnAt(data, c).after.pointer;
      && data[after].x != data[c.pointer].x
      && (forall k :: c.pointer <= k < after ==> data[k].x == data[c.pointer].x)
  {
    RunEndMaximal(data, c.pointer);
  }

  /**
    The text of a column: the texts of the fragments it read, joined by
    single spaces, then trimmed.
  */
  lemma ColumnAtText(data: seq<Fragment>, c: Cursor)
    requires ColumnAt(data, c).Done?
    ensures ColumnAt(data, c).value
      == Trim(" " + Join(Texts(data[c.pointer..ColumnAt(data, c).after.pointer]), ' '))
  {
    JoinedSpaced(data, c.pointer, ColumnAt(data, c).after.pointer);
  }

  /**
    Reading fails exactly when no fragment from the cursor on has a
    different `x`: the last fragment of `data` never closes a column.
  */
  lemma ColumnAtEndOfData(data: seq<Fragment>, c: Cursor)
    ensures ColumnAt(data, c).Fail? <==>
      c.pointer + 1 >= |data| || forall k :: c.pointer <= k < |data| ==> data[k].x == data[c.pointer].x
  {
    RunEndMaximal(data, c.pointer);
  }

  /**
    Closing a run: when the run from the cursor ends at `q` and `text` is
    what the loop gathered over it, the column is that text trimmed.
  */
  lemma ColumnAtClosed(data: seq<Fragment>, c: Cursor, q: nat, text: string)
    requires RunEnd(data, c.pointer) == Some(q)
    requires text == Joined(data, c.pointer, q + 1)
    ensures ColumnAt(data, c) == Done(Trim(text), Cursor(q + 1, c.date))
  {
  }

  /** A run without an end is `EndOfData`. */
  lemma ColumnAtOpen(data: seq<Fragment>, c: Cursor)
    requires RunEnd(data, c.pointer).None?
    ensures ColumnAt(data, c) == Fail(EndOfData)
  {
  }

  datatype Column =
    | HoursColumn | DateColumn | TypeColumn | NameColumn
    | ChoiceColumn | RoomColumn | OwnerColumn | NoColumn

  /** JavaScript's `b < bound` for a boolean `b`, which compares as 1 or 0. */
  predicate BoolLess(b: bool, bound: real) {
    (if b then 1.0 else 0.0) < bound
  }

  /**
    The column of a run, from the `x` of its first fragment, as the chain
    of tests in `getPdfElement`. Its owner test, `x > 23.5 < 25.5`, compares
    a boolean with 25.5 and so always holds: every `x` outside the six
    bounded buckets is an owner, and no `x` is rejected.
  */
  function Classify(x: real): (col: Column)
    ensures col != NoColumn
    ensures col == HoursColumn <==> 0.2 < x < 1.5
    ensures col == DateColumn <==> 2.0 < x < 2.5
    ensures col == TypeColumn <==> 4.5 < x < 5.5
    ensures col == NameColumn <==> 6.0 < x < 7.5
    ensures col == ChoiceColumn <==> 18.0 < x < 20.0
    ensures col == RoomColumn <==> 21.0 < x < 23.0
    ensures col == OwnerColumn <==>
      !(0.2 < x < 1.5) && !(2.0 < x < 2.5) && !(4.5 < x < 5.5) && !(6.0 < x < 7.5)
      && !(18.0 < x < 20.0) && !(21.0 < x < 23.0)
  {
    if 0.2 < x < 1.5 then HoursColumn
    else if 2.0 < x < 2.5 then DateColumn
    else if 4.5 < x < 5.5 then TypeColumn
    else if 6.0 < x < 7.5 then NameColumn
    else if 18.0 < x < 20.0 then ChoiceColumn
    else if 21.0 < x < 23.0 then RoomColumn
    else if BoolLess(x > 23.5, 25.5) then OwnerColumn
    else NoColumn
  }

  /**
    The weekday abbreviations `formatDate` removes, in the order of its
    regular expression. The fourth is written in the source as the two
    characters U+00C5 U+0161 followed by "r.", not as "Śr.".
  */
  const Weekdays: seq<string> := ["Pt.", "Pon.", "Wt.", "\U{C5}\U{161}r.", "Czw.", "Pon.", "Sb.", "Nd."]

  /** The date part of `formatDate`: leftmost weekday removed, every '-' made '/', trimmed. */
  function DateClear(date: string): (r: string)
    ensures '-' !in r
    ensures Trimmed(r)
  {
    var dashed := ReplaceAll(RemoveFirst(date, Weekdays), '-', '/');
    TrimIsTrimmed(dashed);
    ReplaceAllRemoves(RemoveFirst(date, Weekdays), '-', '/');
    TrimKeepsAbsent(dashed, '-');
    Trim(dashed)
  }

  datatype Span = Span(start: string, end: string)

  /**
    `formatDate`: the date followed by ", " and the first two '-'-separated
    pieces of the hour range; a missing second piece prints as "undefined".
  */
  function FormatDate(hourRange: string, date: string): (r: Span)
    ensures var prefix := DateClear(date) + ", ";
      && |prefix| <= |r.start| && r.start[..|prefix|] == prefix
      && |prefix| <= |r.end| && r.end[..|prefix|] == prefix
    ensures '-' !in r.start && '-' !in r.end
  {
    var pieces := Split(hourRange, '-');
    var dateClear := DateClear(date);
    SplitPiecesLackSeparator(hourRange, '-');
    Span(dateClear + ", " + pieces[0],
         dateClear + ", " + (if |pieces| > 1 then pieces[1] else "undefined"))
  }

  /** A date that opens with a weekday abbreviation: the rest, with every '-' made '/', trimmed. */
  lemma DateClearWeekday(w: string, rest: string)
    requires w in Weekdays
    ensures DateClear(w + rest) == Trim(ReplaceAll(rest, '-', '/'))
  {
    RemoveLeadingWeekday(w, rest);
  }

  /** A date holding no weekday abbreviation: all of it, with every '-' made '/', trimmed. */
  lemma DateClearNoWeekday(date: string)
    requires FirstMatch(date, Weekdays, 0).None?
    ensures DateClear(date) == Trim(ReplaceAll(date, '-', '/'))
  {
  }

  /** A range "from-to", possibly followed by more '-'-separated pieces, gives start `from` and end `to`. */
  lemma FormatDateRange(from: string, to: string, rest: string, date: string)
    requires '-' !in from && '-' !in to
    requires rest == [] || rest[0] == '-'
    ensures FormatDate(from + "-" + to + rest, date)
      == Span(DateClear(date) + ", " + from, DateClear(date) + ", " + to)
  {
    var pieces := Split(from + "-" + to + rest, '-');
    assert |pieces| > 1 && pieces[0] == from && pieces[1] == to by {
      assert from + "-" + to + rest == from + ['-'] + (to + rest);
      SplitAtSeparator(from, '-', to + rest);
      if rest == [] {
        assert to + rest == to;
        SplitNoSeparator(to, '-');
      } else {
        assert to + rest == to + ['-'] + rest[1..];
        SplitAtSeparator(to, '-', rest[1..]);
      }
    }
  }

  /** An hour string without '-' is the start, and the end reads "undefined". */
  lemma FormatDateNoDash(hours: string, date: string)
    requires '-' !in hours
    ensures FormatDate(hours, date)
      == Span(DateClear(date) + ", " + hours, DateClear(date) + ", " + "undefined")
  {
    SplitNoSeparator(hours, '-');
  }

  /** No two weekday abbreviations share their first two characters. */
  lemma WeekdaysDifferEarly(a: string, b: string)
    requires a in Weekdays && b in Weekdays
    requires |a| >= 2 && |b| >= 2 && a[..2] == b[..2]
    ensures a == b
  {
    assert a[0] == b[0] && a[1] == b[1];
  }

  /** A date that opens with a weekday abbreviation loses exactly that abbreviation. */
  lemma RemoveLeadingWeekday(w: string, rest: string)
    requires w in Weekdays
    ensures RemoveFirst(w + rest, Weekdays) == rest
  {
    var s := w + rest;
    assert OccursAt(s, 0, w) by { assert s[..|w|] == w; }
    var t := TokenAt(s, 0, Weekdays);
    assert t.Some?;
    // Both occur at the start of s, so they share their first two characters.
    assert t.value == w by {
      assert s[..|t.value|] == t.value;
      assert t.value[..2] == s[..2] == w[..2];
      WeekdaysDifferEarly(t.value, w);
    }
    FirstMatchAt(s, Weekdays, 0, 0);
  }
}
