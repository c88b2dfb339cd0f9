/**
  The JavaScript string and array operations the schedule reconstruction
  relies on: `trim`, `split` with a one-character separator, a global
  one-character `replace`, removal of the leftmost match of an alternation
  of literal tokens, and `Array.prototype.slice`.
*/
module JsStrings {
  import opened Wrappers

  /** The characters `String.prototype.trim` removes: ECMAScript white space and line terminators. */
  predicate IsWhitespace(c: char) {
    || c == '\t' || c == '\n' || c == '\U{B}' || c == '\U{C}' || c == '\r' || c == ' '
    || c == '\U{A0}' || c == '\U{1680}' || ('\U{2000}' <= c <= '\U{200A}')
    || c == '\U{2028}' || c == '\U{2029}' || c == '\U{202F}' || c == '\U{205F}'
    || c == '\U{3000}' || c == '\U{FEFF}'
  }

  predicate AllWhitespace(s: string) {
    forall i :: 0 <= i < |s| ==> IsWhitespace(s[i])
  }

  /** `s` is empty or begins and ends with a character trim keeps. */
  predicate Trimmed(s: string) {
    s == [] || (!IsWhitespace(s[0]) && !IsWhitespace(s[|s| - 1]))
  }

  /** The suffix of `s` left after dropping its leading white space. */
  function TrimStart(s: string): (r: string)
    ensures |r| <= |s|
    ensures forall i :: 0 <= i < |r| ==> r[i] == s[|s| - |r| + i]
    ensures r == [] || !IsWhitespace(r[0])
  {
    if s != [] && IsWhitespace(s[0]) then TrimStart(s[1..]) else s
  }

  /** The prefix of `s` left after dropping its trailing white space. */
  function TrimEnd(s: string): (r: string)
    ensures |r| <= |s|
    ensures forall i :: 0 <= i < |r| ==> r[i] == s[i]
    ensures r == [] || !IsWhitespace(r[|r| - 1])
  {
    if s != [] && IsWhitespace(s[|s| - 1]) then TrimEnd(s[..|s| - 1]) else s
  }

  /** `String.prototype.trim`. */
  function Trim(s: string): (r: string) {
    TrimEnd(TrimStart(s))
  }

  /** Trim leaves no white space at either end. */
  lemma TrimIsTrimmed(s: string)
    ensures Trimmed(Trim(s))
  {
    var t := TrimStart(s);
    if Trim(s) != [] {
      assert Trim(s)[0] == t[0];
    }
  }

  /** Dropping leading white space only removes characters. */
  lemma TrimStartKeepsAbsent(s: string, c: char)
    requires c !in s
    ensures c !in TrimStart(s)
  {
    var t := TrimStart(s);
    forall i | 0 <= i < |t| ensures t[i] != c {
      assert t[i] == s[|s| - |t| + i];
    }
  }

  /** Dropping trailing white space only removes characters. */
  lemma TrimEndKeepsAbsent(s: string, c: char)
    requires c !in s
    ensures c !in TrimEnd(s)
  {
    var t := TrimEnd(s);
    forall i | 0 <= i < |t| ensures t[i] != c {
      assert t[i] == s[i];
    }
  }

  /** Trim only removes characters: one absent before is absent after. */
  lemma TrimKeepsAbsent(s: string, c: char)
    requires c !in s
    ensures c !in Trim(s)
  {
    TrimStartKeepsAbsent(s, c);
    TrimEndKeepsAbsent(TrimStart(s), c);
  }

  /** TrimStart drops exactly a white-space prefix in front of a non-white-space character. */
  lemma {:induction false} TrimStartPadding(front: string, t: string)
    requires AllWhitespace(front) && (t == [] || !IsWhitespace(t[0]))
    ensures TrimStart(front + t) == t
  {
    if front != [] {
      assert (front + t)[1..] == front[1..] + t;
      TrimStartPadding(front[1..], t);
    }
  }

  /** TrimEnd drops exactly a white-space suffix after a non-white-space character. */
  lemma {:induction false} TrimEndPadding(t: string, back: string)
    requires AllWhitespace(back) && (t == [] || !IsWhitespace(t[|t| - 1]))
    ensures TrimEnd(t + back) == t
  {
    if back != [] {
      assert (t + back)[..|t + back| - 1] == t + back[..|back| - 1];
      TrimEndPadding(t, back[..|back| - 1]);
    }
  }

  /** Trim removes exactly the white-space padding around a trimmed core. */
  lemma TrimPadding(front: string, core: string, back: string)
    requires AllWhitespace(front) && AllWhitespace(back) && Trimmed(core)
    ensures Trim(front + core + back) == core
  {
    if core == [] {
      assert front + core + back == front + back + [];
      TrimStartPadding(front + back, []);
    } else {
      assert TrimStart(front + core + back) == core + back by {
        assert front + core + back == front + (core + back);
        TrimStartPadding(front, core + back);
      }
      TrimEndPadding(core, back);
    }
  }

  /** Splitting on `sep` (`String.prototype.split` with a one-character separator). */
  function Split(s: string, sep: char): (pieces: seq<string>)
    ensures |pieces| >= 1
  {
    if s == [] then [[]]
    else
      var rest := Split(s[1..], sep);
      if s[0] == sep then [[]] + rest
      else [[s[0]] + rest[0]] + rest[1..]
  }

  /** No piece holds the separator. */
  lemma {:induction false} SplitPiecesLackSeparator(s: string, sep: char)
    ensures forall i :: 0 <= i < |Split(s, sep)| ==> sep !in Split(s, sep)[i]
  {
    if s != [] {
      SplitPiecesLackSeparator(s[1..], sep);
    }
  }

  /** `Array.prototype.join` with a one-character separator. */
  function Join(pieces: seq<string>, sep: char): (r: string) {
    if pieces == [] then []
    else if |pieces| == 1 then pieces[0]
    else pieces[0] + [sep] + Join(pieces[1..], sep)
  }

  /** Joining one more piece appends the separator and that piece. */
  lemma {:induction false} JoinSnoc(pieces: seq<string>, sep: char, last: string)
    requires pieces != []
    decreases |pieces|
    ensures Join(pieces + [last], sep) == Join(pieces, sep) + [sep] + last
  {
    if |pieces| == 1 {
      assert (pieces + [last])[1..] == [last];
    } else {
      assert (pieces + [last])[1..] == pieces[1..] + [last];
      JoinSnoc(pieces[1..], sep, last);
    }
  }

  /** Splitting loses nothing: joining the pieces gives back the string. */
  lemma {:induction false} JoinSplit(s: string, sep: char)
    ensures Join(Split(s, sep), sep) == s
  {
    if s != [] {
      var rest := Split(s[1..], sep);
      JoinSplit(s[1..], sep);
      if s[0] != sep && |rest| > 1 {
        assert Join(rest, sep) == rest[0] + [sep] + Join(rest[1..], sep);
        assert s == [s[0]] + s[1..];
      }
    }
  }

  /** A string without the separator is one piece. */
  lemma {:induction false} SplitNoSeparator(s: string, sep: char)
    requires sep !in s
    ensures Split(s, sep) == [s]
  {
    if s != [] {
      SplitNoSeparator(s[1..], sep);
      assert [s[0]] + s[1..] == s;
    }
  }

  /** The first separator ends the first piece. */
  lemma {:induction false} SplitAtSeparator(a: string, sep: char, b: string)
    requires sep !in a
    ensures Split(a + [sep] + b, sep) == [a] + Split(b, sep)
  {
    if a == [] {
      assert (a + [sep] + b)[1..] == b;
    } else {
      assert (a + [sep] + b)[1..] == a[1..] + [sep] + b;
      SplitAtSeparator(a[1..], sep, b);
      assert [a[0]] + a[1..] == a;
    }
  }

  /** Splitting undoes joining when no piece holds the separator. */
  lemma {:induction false} SplitJoin(pieces: seq<string>, sep: char)
    requires |pieces| >= 1
    requires forall i :: 0 <= i < |pieces| ==> sep !in pieces[i]
    ensures Split(Join(pieces, sep), sep) == pieces
  {
    if |pieces| == 1 {
      SplitNoSeparator(pieces[0], sep);
    } else {
      SplitJoin(pieces[1..], sep);
      SplitAtSeparator(pieces[0], sep, Join(pieces[1..], sep));
    }
  }

  /** Splitting distributes over text joined by the separator. */
  lemma {:induction false} SplitConcat(a: string, sep: char, b: string)
    decreases |a|
    ensures Split(a + [sep] + b, sep) == Split(a, sep) + Split(b, sep)
  {
    if a == [] {
      assert (a + [sep] + b)[1..] == b;
    } else {
      assert (a + [sep] + b)[1..] == a[1..] + [sep] + b;
      SplitConcat(a[1..], sep, b);
    }
  }

  /** Splitting a join of several strings: the pieces of the first, then those of the join of the rest. */
  lemma SplitJoinFirst(texts: seq<string>, sep: char)
    requires |texts| >= 2
    ensures Split(Join(texts, sep), sep) == Split(texts[0], sep) + Split(Join(texts[1..], sep), sep)
  {
    SplitConcat(texts[0], sep, Join(texts[1..], sep));
  }

  /** A character in none of the strings, and not the separator, is not in their join. */
  lemma {:induction false} JoinAbsent(texts: seq<string>, sep: char, c: char)
    requires c != sep
    requires forall i :: 0 <= i < |texts| ==> c !in texts[i]
    decreases |texts|
    ensures c !in Join(texts, sep)
  {
    if |texts| > 1 {
      JoinAbsent(texts[1..], sep, c);
    }
  }

  /** `s.replace(/<from>/g, <to>)` for single characters. */
  function ReplaceAll(s: string, from: char, to: char): (r: string)
    ensures |r| == |s|
    ensures forall i :: 0 <= i < |s| ==> r[i] == (if s[i] == from then to else s[i])
  {
    if s == [] then []
    else [if s[0] == from then to else s[0]] + ReplaceAll(s[1..], from, to)
  }

  /** After replacing every `from` by a different character, no `from` is left. */
  lemma ReplaceAllRemoves(s: string, from: char, to: char)
    requires from != to
    ensures from !in ReplaceAll(s, from, to)
  {
    var r := ReplaceAll(s, from, to);
    forall i | 0 <= i < |r| ensures r[i] != from {}
  }

  /** `t` occurs in `s` starting at position `i`. */
  predicate OccursAt(s: string, i: nat, t: string) {
    i + |t| <= |s| && s[i..i + |t|] == t
  }

  /** The first of `tokens`, in their order, that occurs in `s` at position `i`. */
  function TokenAt(s: string, i: nat, tokens: seq<string>): (r: Option<string>)
    ensures r.Some? ==> r.value in tokens && OccursAt(s, i, r.value)
    ensures r.None? ==> forall t :: t in tokens ==> !OccursAt(s, i, t)
  {
    if tokens == [] then None
    else if OccursAt(s, i, tokens[0]) then Some(tokens[0])
    else TokenAt(s, i, tokens[1..])
  }

  datatype Match = Match(at: nat, token: string)

  /**
    The leftmost match, at or after `from`, of the alternation `tokens`
    (a regular expression `(t0|t1|...)` of literal tokens): the smallest
    position where some token occurs, and the first token, in order,
    that occurs there.
  */
  function FirstMatch(s: string, tokens: seq<string>, from: nat): (r: Option<Match>)
    decreases |s| + 1 - from
    ensures r.Some? ==> from <= r.value.at <= |s| && TokenAt(s, r.value.at, tokens) == Some(r.value.token)
    ensures (forall i :: from <= i <= |s| ==> TokenAt(s, i, tokens).None?) ==> r.None?
    ensures forall i :: from <= i && (r.None? || i < r.value.at) ==> TokenAt(s, i, tokens).None?
  {
    if from > |s| then None
    else
      match TokenAt(s, from, tokens)
      case Some(t) => Some(Match(from, t))
      case None => FirstMatch(s, tokens, from + 1)
  }

  /** FirstMatch finds any match that nothing occurs before. */
  lemma {:induction false} FirstMatchAt(s: string, tokens: seq<string>, from: nat, at: nat)
    requires from <= at && TokenAt(s, at, tokens).Some?
    requires forall i :: from <= i < at ==> TokenAt(s, i, tokens).None?
    ensures FirstMatch(s, tokens, from) == Some(Match(at, TokenAt(s, at, tokens).value))
    decreases at - from
  {
    assert at <= |s| by {
      assert OccursAt(s, at, TokenAt(s, at, tokens).value);
    }
    if from < at {
      FirstMatchAt(s, tokens, from + 1, at);
    }
  }

  /** `s.replace(<alternation of tokens>, '')`: removes the leftmost match, if any. */
  function RemoveFirst(s: string, tokens: seq<string>): (r: string)
    ensures FirstMatch(s, tokens, 0).None? ==> r == s
    ensures FirstMatch(s, tokens, 0).Some? ==>
      var m := FirstMatch(s, tokens, 0).value;
      |r| == |s| - |m.token| && r == s[..m.at] + s[m.at + |m.token|..]
  {
    match FirstMatch(s, tokens, 0)
    case None => s
    case Some(m) => s[..m.at] + s[m.at + |m.token|..]
  }

  /** A one-character token occurs nowhere in a text without that character. */
  lemma CharTokenAbsent(s: string, c: char)
    requires c !in s
    ensures forall i :: 0 <= i <= |s| ==> TokenAt(s, i, [[c]]).None?
  {
    forall i | 0 <= i <= |s| ensures TokenAt(s, i, [[c]]).None? {
      if i + 1 <= |s| {
        assert s[i..i + 1][0] == s[i];
      }
    }
  }

  function Max(a: int, b: int): (m: int) { if a < b then b else a }
  function Min(a: int, b: int): (m: int) { if a < b then a else b }

  /**
    `Array.prototype.slice(start, end)`: negative bounds count from the end,
    bounds are clamped to the sequence, and crossed bounds give [].
  */
  function Slice<T>(s: seq<T>, start: int, end: int): (r: seq<T>)
    ensures |r| <= |s|
    ensures 0 <= start <= end <= |s| ==> r == s[start..end]
    ensures end < 0 && |s| + end <= start ==> r == []
    ensures 0 <= end <= start ==> r == []
    ensures end < 0 && 0 <= start < |s| + end ==> r == s[start..|s| + end]
  {
    var lo := if start < 0 then Max(|s| + start, 0) else Min(start, |s|);
    var hi := if end < 0 then Max(|s| + end, 0) else Min(end, |s|);
    if lo < hi then s[lo..hi] else []
  }
}
