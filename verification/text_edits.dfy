/** The two position mappers, the multi-edit applier and the single-range splice of
    crates/aide-lsp/src/ops.rs. */
module TextEdits {
  import opened Common
  import opened Wrappers
  import opened TextPositions

  datatype TextEdit = TextEdit(range: Range, newText: string)

  // --------------------------------------------- byte offsets into a string

  /** The character that starts at byte `offset`, if a character starts there. */
  function CharIndex(text: string, offset: nat): (r: Option<nat>)
    ensures r.Some? ==> r.value <= |text| && Offset(text, r.value) == offset
    ensures r.None? ==> forall i :: 0 <= i <= |text| ==> Offset(text, i) != offset
  {
    CharIndexUpTo(text, offset, |text|)
  }

  function CharIndexUpTo(text: string, offset: nat, i: nat): (r: Option<nat>)
    requires i <= |text|
    ensures r.Some? ==> r.value <= i && Offset(text, r.value) == offset
    ensures r.None? ==> forall k :: 0 <= k <= i ==> Offset(text, k) != offset
  {
    if Offset(text, i) == offset then Some(i)
    else if i == 0 then None
    else CharIndexUpTo(text, offset, i - 1)
  }

  lemma CharIndexOfOffset(text: string, i: nat)
    requires i <= |text|
    ensures CharIndex(text, Offset(text, i)) == Some(i)
  {
    var r := CharIndex(text, Offset(text, i)).value;
    if r < i {
      OffsetsGrow(text, r, i);
    } else if i < r {
      OffsetsGrow(text, i, r);
    }
  }

  /** Rust's `String::replace_range`: it panics, here None, unless both ends are character
      boundaries in order. */
  function ReplaceRange(out: string, start: nat, end: nat, with: string): Option<string> {
    var i, j := CharIndex(out, start), CharIndex(out, end);
    if i.None? || j.None? || j.value < i.value then None
    else Some(out[..i.value] + with + out[j.value..])
  }

  // ------------------------------------------------------------ the mappers

  method ComputeLineOffsets(text: string) returns (offsets: seq<nat>)
    ensures offsets == LineOffsets(text)
  {
    offsets := [0];
    var bytes := Encode(text);
    for i := 0 to |bytes|
      invariant offsets + ScanLines(bytes, i) == LineOffsets(text)
    {
      if bytes[i] == NEWLINE {
        offsets := offsets + [i + 1];
      }
    }
  }

  method ByteOffset(lineOffsets: seq<nat>, text: string, p: Position) returns (r: Option<nat>)
    requires lineOffsets == LineOffsets(text)
    ensures r == match UnclampedIndex(text, p) case None => None case Some(i) => Some(Offset(text, i))
  {
    LineOffsetsAre(text, p.line);
    if p.line >= |lineOffsets| {
      return None;
    }
    var lineStart := lineOffsets[p.line];
    ghost var from := LineStart(text, p.line).value;
    CharIndexOfOffset(text, from);
    var i := CharIndex(text, lineStart).value;
    var utf16Count, byteIdx := 0, 0;
    while i < |text|
      invariant from <= i <= |text|
      invariant lineStart + byteIdx == Offset(text, i)
      invariant utf16Count <= p.character
      invariant Advance(text, from, p.character, |text|) == Advance(text, i, p.character - utf16Count, |text|)
    {
      if utf16Count == p.character {
        return Some(lineStart + byteIdx);
      }
      utf16Count := utf16Count + Len16(text[i]);
      if utf16Count > p.character {
        return Some(lineStart + byteIdx + Len8(text[i]));
      }
      byteIdx := byteIdx + Len8(text[i]);
      i := i + 1;
    }
    return Some(lineStart + byteIdx);
  }

  method PositionToByteOffset(content: string, p: Position) returns (r: Option<nat>)
    ensures r == match PositionIndex(content, p) case None => None case Some(i) => Some(Offset(content, i))
  {
    var lineStart := SkipLines(content, p.line);
    if lineStart.None? {
      return None;
    }
    var byteInLine := WalkColumn(content, LineStart(content, p.line).value, lineStart.value, p.character);
    return Some(lineStart.value + byteInLine);
  }

  method SkipLines(content: string, line: nat) returns (r: Option<nat>)
    ensures r == match LineStart(content, line) case None => None case Some(i) => Some(Offset(content, i))
  {
    var bytes := Encode(content);
    var lineStart, currentLine := 0, 0;
    ghost var start := 0;
    while currentLine < line
      invariant currentLine <= line
      invariant LineStart(content, currentLine) == Some(start) && start <= |content|
      invariant lineStart == Offset(content, start)
    {
      NextLine(content, currentLine, start);
      var nl := NewlineFrom(bytes, lineStart);
      if nl.None? {
        NoFurtherLines(content, currentLine + 1, line);
        return None;
      }
      lineStart := nl.value + 1;
      currentLine := currentLine + 1;
      start := LineEnd(content, start) + 1;
    }
    return Some(lineStart);
  }

  lemma NextLine(text: string, line: nat, start: nat)
    requires LineStart(text, line) == Some(start)
    ensures Offset(text, start) <= |Encode(text)|
    ensures var nl := FindNewline(Encode(text), Offset(text, start));
            var next := LineStart(text, line + 1);
            match nl
            case None => next.None?
            case Some(k) => next == Some(LineEnd(text, start) + 1) && Offset(text, next.value) == k + 1
  {
    FindIsLineEnd(text, start);
    var end := LineEnd(text, start);
    if end < |text| {
      EncodedAt(text, end);
    }
  }

  lemma NoFurtherLines(text: string, a: nat, b: nat)
    requires a <= b && LineStart(text, a).None?
    ensures LineStart(text, b).None?
  {
    if a < b && LineStart(text, b).Some? {
      LineStartsInOrder(text, a, b);
    }
  }

  /** The column walk over `&content[line_start..]`, which stops at the newline. */
  method WalkColumn(content: string, start: nat, lineStart: nat, character: nat) returns (byteInLine: nat)
    requires start <= |content| && lineStart == Offset(content, start)
    ensures lineStart + byteInLine ==
            Offset(content, Advance(content, start, character, LineEnd(content, start)))
  {
    var i := start;
    ghost var end := LineEnd(content, start);
    var utf16Offset := 0;
    byteInLine := 0;
    while i < |content| && utf16Offset < character && content[i] != '\n'
      invariant start <= i <= end
      invariant lineStart + byteInLine == Offset(content, i)
      invariant Advance(content, start, character, end) == Advance(content, i, character - utf16Offset, end)
    {
      utf16Offset := utf16Offset + Len16(content[i]);
      byteInLine := byteInLine + Len8(content[i]);
      i := i + 1;
    }
  }

  method NewlineFrom(bytes: seq<Byte>, from: nat) returns (r: Option<nat>)
    requires from <= |bytes|
    ensures r == FindNewline(bytes, from)
  {
    var i := from;
    while i < |bytes| && bytes[i] != NEWLINE
      invariant from <= i <= |bytes|
      invariant FindNewline(bytes, from) == FindNewline(bytes, i)
    {
      i := i + 1;
    }
    return if i < |bytes| then Some(i) else None;
  }

  /** The two mappers answer None for the same lines, and agree exactly on columns that lie on
      their line and on the last line; elsewhere `byte_offset` walks past the newline. */
  lemma MappersAgreeIff(text: string, p: Position)
    ensures UnclampedIndex(text, p).Some? <==> PositionIndex(text, p).Some?
    ensures UnclampedIndex(text, p) == PositionIndex(text, p) <==>
            var start := LineStart(text, p.line);
            start.None? || InLine(text, p) || LineEnd(text, start.value) == |text|
  {
    var start := LineStart(text, p.line);
    if start.Some? {
      StoppingMatters(text, start.value, p.character, LineEnd(text, start.value), |text|);
    }
  }

  // -------------------------------------------------------------- splice_range

  function SpliceRange(content: string, range: Range, replacement: string): Option<string> {
    var start, end := PositionIndex(content, range.start), PositionIndex(content, range.end);
    if start.None? || end.None? then None
    else if Offset(content, end.value) < Offset(content, start.value) then None
    else ReplaceRange(content, Offset(content, start.value), Offset(content, end.value), replacement)
  }

  /** A range is spliced exactly if both its lines exist and its end is not mapped before its start, and what
      is between the two places is then replaced. */
  lemma {:induction false} SpliceIs(content: string, range: Range, replacement: string)
    ensures var i, j := PositionIndex(content, range.start), PositionIndex(content, range.end);
            SpliceRange(content, range, replacement) ==
            if i.None? || j.None? || j.value < i.value then None
            else Some(content[..i.value] + replacement + content[j.value..])
  {
    var i, j := PositionIndex(content, range.start), PositionIndex(content, range.end);
    if i.Some? && j.Some? {
      CharIndexOfOffset(content, i.value);
      CharIndexOfOffset(content, j.value);
      if i.value < j.value {
        OffsetsGrow(content, i.value, j.value);
      } else if j.value < i.value {
        OffsetsGrow(content, j.value, i.value);
      }
    }
  }

  /** An ordered range that starts and ends on existing lines is always replaced, both ends
      falling on character boundaries. */
  lemma SpliceSucceeds(content: string, range: Range, replacement: string)
    requires AtMost(range.start, range.end) && PositionIndex(content, range.end).Some?
    ensures PositionIndex(content, range.start).Some?
    ensures var i, j := PositionIndex(content, range.start).value, PositionIndex(content, range.end).value;
            i <= j && SpliceRange(content, range, replacement) == Some(content[..i] + replacement + content[j..])
  {
    PositionsInOrder(content, range.start, range.end);
    SpliceIs(content, range, replacement);
  }

  // ---------------------------------------------------------- apply_text_edits

  function InsertByStart(sorted: seq<TextEdit>, e: TextEdit): (r: seq<TextEdit>)
    ensures multiset(r) == multiset(sorted) + multiset{e}
  {
    if sorted == [] then [e]
    else if AtMost(e.range.start, sorted[0].range.start) then
      assert sorted == [sorted[0]] + sorted[1..];
      [sorted[0]] + InsertByStart(sorted[1..], e)
    else [e] + sorted
  }

  /** The stable sort by start position, latest first. */
  function LatestStartFirst(edits: seq<TextEdit>): (r: seq<TextEdit>)
    ensures multiset(r) == multiset(edits)
  {
    if edits == [] then [] else
      assert edits == edits[..|edits| - 1] + [edits[|edits| - 1]];
      InsertByStart(LatestStartFirst(edits[..|edits| - 1]), edits[|edits| - 1])
  }

  function ApplyEdit(text: string, out: string, e: TextEdit): Option<string> {
    var start, end := UnclampedIndex(text, e.range.start), UnclampedIndex(text, e.range.end);
    if start.None? || end.None? then Some(out)
    else
      var from, upto := Offset(text, start.value), Offset(text, end.value);
      if from > upto || upto > Offset(out, |out|) then Some(out)
      else ReplaceRange(out, from, upto, e.newText)
  }

  /** Applies the edits in the given order; None once one of them panics. */
  function ApplyInOrder(text: string, out: string, edits: seq<TextEdit>): Option<string>
    decreases |edits|
  {
    if edits == [] then Some(out) else
      var next := ApplyEdit(text, out, edits[0]);
      if next.None? then None else ApplyInOrder(text, next.value, edits[1..])
  }

  function ApplyTextEdits(text: string, edits: seq<TextEdit>): Option<string> {
    ApplyInOrder(text, text, LatestStartFirst(edits))
  }

  method ApplyEdits(text: string, edits: seq<TextEdit>) returns (out: Option<string>)
    ensures out == ApplyTextEdits(text, edits)
  {
    var lineOffsets := ComputeLineOffsets(text);
    var sorted := LatestStartFirst(edits);
    var current := text;
    for i := 0 to |sorted|
      invariant ApplyInOrder(text, current, sorted[i..]) == ApplyTextEdits(text, edits)
    {
      assert sorted[i..][0] == sorted[i] && sorted[i..][1..] == sorted[i + 1..];
      var start := ByteOffset(lineOffsets, text, sorted[i].range.start);
      var end := ByteOffset(lineOffsets, text, sorted[i].range.end);
      if start.Some? && end.Some? && start.value <= end.value && end.value <= Offset(current, |current|) {
        var next := ReplaceRange(current, start.value, end.value, sorted[i].newText);
        if next.None? {
          return None;
        }
        current := next.value;
      }
    }
    return Some(current);
  }

  // ------------------------------------------- simultaneous substitution

  /** An edit in terms of characters: `text[from..upto]` becomes `with`. */
  datatype Span = Span(from: nat, upto: nat, with: string)

  /** The span of an edit, as the code reads its range. */
  function SpanOf(text: string, e: TextEdit): Option<Span> {
    var i, j := PositionIndex(text, e.range.start), PositionIndex(text, e.range.end);
    if i.Some? && j.Some? then Some(Span(i.value, j.value, e.newText)) else None
  }

  function Spans(text: string, edits: seq<TextEdit>): (r: seq<Span>)
    requires forall e :: e in edits ==> SpanOf(text, e).Some?
    ensures |r| == |edits|
  {
    if edits == [] then [] else [SpanOf(text, edits[0]).value] + Spans(text, edits[1..])
  }

  /** Spans in text order that do not overlap, within `text[lo..hi]`. */
  predicate LeftToRight(spans: seq<Span>, lo: nat, hi: nat) {
    if spans == [] then lo <= hi
    else lo <= spans[0].from <= spans[0].upto && LeftToRight(spans[1..], spans[0].upto, hi)
  }

  lemma {:induction false} LeftToRightWithin(spans: seq<Span>, lo: nat, hi: nat)
    requires LeftToRight(spans, lo, hi)
    ensures lo <= hi && (spans != [] ==> spans[0].upto <= hi)
  {
    if spans != [] {
      LeftToRightWithin(spans[1..], spans[0].upto, hi);
    }
  }

  /** `text[lo..hi]` with all spans replaced at once, each read off the original text. */
  function Substitute(text: string, spans: seq<Span>, lo: nat, hi: nat): string
    requires LeftToRight(spans, lo, hi) && hi <= |text|
  {
    LeftToRightWithin(spans, lo, hi);
    if spans == [] then text[lo..hi]
    else text[lo..spans[0].from] + spans[0].with + Substitute(text, spans[1..], spans[0].upto, hi)
  }

  lemma {:induction false} SubstituteLast(text: string, init: seq<Span>, last: Span, lo: nat, hi: nat)
    requires last.from <= last.upto <= hi <= |text| && LeftToRight(init, lo, last.from)
    ensures LeftToRight(init + [last], lo, hi)
    ensures Substitute(text, init + [last], lo, hi) ==
            Substitute(text, init, lo, last.from) + last.with + text[last.upto..hi]
  {
    LeftToRightWithin(init, lo, last.from);
    if init == [] {
      assert init + [last] == [last];
      assert LeftToRight([], last.upto, hi);
      assert [last][1..] == [];
    } else {
      var head, rest := init[0], init[1..];
      assert (init + [last])[0] == head && (init + [last])[1..] == rest + [last];
      SubstituteLast(text, rest, last, head.upto, hi);
    }
  }

  function Reversed<T>(xs: seq<T>): (r: seq<T>)
    ensures |r| == |xs|
  {
    if xs == [] then [] else Reversed(xs[1..]) + [xs[0]]
  }

  /** Spans from the right end of `text[..hi]` leftwards. */
  predicate RightToLeft(spans: seq<Span>, hi: nat) {
    spans == [] || (spans[0].from <= spans[0].upto <= hi && RightToLeft(spans[1..], spans[0].from))
  }

  function ReplaceAll(text: string, out: string, spans: seq<Span>): Option<string>
    requires forall s :: s in spans ==> s.from <= |text| && s.upto <= |text|
    decreases |spans|
  {
    if spans == [] then Some(out) else
      var next := ReplaceRange(out, Offset(text, spans[0].from), Offset(text, spans[0].upto), spans[0].with);
      if next.None? then None else ReplaceAll(text, next.value, spans[1..])
  }

  lemma OffsetsInOrder(text: string, i: nat, j: nat)
    requires i <= j <= |text|
    ensures Offset(text, i) <= Offset(text, j)
  {
    if i < j {
      OffsetsGrow(text, i, j);
    }
  }

  /** Replacing a span of the untouched prefix. */
  lemma ReplaceInPrefix(text: string, m: nat, tail: string, i: nat, j: nat, with: string)
    requires i <= j <= m <= |text|
    ensures var out := text[..m] + tail;
            && Offset(text, i) <= Offset(text, j) <= Offset(out, |out|)
            && ReplaceRange(out, Offset(text, i), Offset(text, j), with) ==
               Some(text[..i] + (with + text[j..m] + tail))
  {
    var out := text[..m] + tail;
    var prefix := text[..m];
    assert prefix == out[..m];
    OffsetOfPrefix(prefix, text, i);
    OffsetOfPrefix(prefix, text, j);
    OffsetOfPrefix(prefix, out, i);
    OffsetOfPrefix(prefix, out, j);
    OffsetsInOrder(text, i, j);
    OffsetsInOrder(out, j, |out|);
    CharIndexOfOffset(out, i);
    CharIndexOfOffset(out, j);
    assert out[..i] + with + out[j..] == text[..i] + (with + text[j..m] + tail);
  }

  lemma GroupMiddle<T>(a: seq<T>, b: seq<T>, c: seq<T>, d: seq<T>)
    ensures a + (b + c + d) == a + b + c + d
  {
  }

  lemma AppendNothing(text: string)
    ensures text[..|text|] + "" == text && text + "" == text
  {
  }

  /** The loop, from the right: what lies left of the spans already replaced is still the
      original text. */
  lemma {:induction false} ReplaceFromRight(text: string, spans: seq<Span>, hi: nat, tail: string)
    requires hi <= |text| && RightToLeft(spans, hi)
    requires forall s :: s in spans ==> s.from <= |text| && s.upto <= |text|
    ensures LeftToRight(Reversed(spans), 0, hi)
    ensures ReplaceAll(text, text[..hi] + tail, spans) ==
            Some(Substitute(text, Reversed(spans), 0, hi) + tail)
    decreases |spans|
  {
    if spans != [] {
      var s, rest := spans[0], spans[1..];
      assert s in spans && forall x :: x in rest ==> x in spans;
      var tail' := s.with + text[s.upto..hi] + tail;
      ReplaceInPrefix(text, hi, tail, s.from, s.upto, s.with);
      ReplaceFromRight(text, rest, s.from, tail');
      SubstituteLast(text, Reversed(rest), s, 0, hi);
      GroupMiddle(Substitute(text, Reversed(rest), 0, s.from), s.with, text[s.upto..hi], tail);
    }
  }

  // ------------------------------------------------------ disjoint edits

  /** The edits can be made simultaneously: every range is ordered and in line, starts are
      distinct, and of two edits one ends before the other starts. */
  ghost predicate Disjoint(text: string, edits: multiset<TextEdit>) {
    && (forall e :: e in edits ==>
          && edits[e] == 1 && AtMost(e.range.start, e.range.end)
          && InLine(text, e.range.start) && InLine(text, e.range.end))
    && (forall a, b :: a in edits && b in edits && a != b ==>
          && a.range.start != b.range.start
          && (AtMost(a.range.end, b.range.start) || AtMost(b.range.end, a.range.start)))
  }

  lemma InLineIndex(text: string, p: Position)
    requires InLine(text, p)
    ensures UnclampedIndex(text, p) == PositionIndex(text, p) && PositionIndex(text, p).Some?
  {
    MappersAgreeIff(text, p);
  }

  /** An ordered in-line edit is applied as the replacement of its span, if the span fits. */
  lemma EditReplacesSpan(text: string, out: string, e: TextEdit)
    requires AtMost(e.range.start, e.range.end) && InLine(text, e.range.start) && InLine(text, e.range.end)
    ensures SpanOf(text, e).Some?
    ensures var s := SpanOf(text, e).value;
            && s.from <= s.upto <= |text|
            && (Offset(text, s.upto) <= Offset(out, |out|) ==>
                  ApplyEdit(text, out, e) == ReplaceRange(out, Offset(text, s.from), Offset(text, s.upto), s.with))
  {
    InLineIndex(text, e.range.start);
    InLineIndex(text, e.range.end);
    PositionsInOrder(text, e.range.start, e.range.end);
    var s := SpanOf(text, e).value;
    OffsetsInOrder(text, s.from, s.upto);
  }

  // ------------------------------------------------------ the sorted list

  ghost predicate Descending(edits: seq<TextEdit>) {
    forall i, j :: 0 <= i < j < |edits| ==> AtMost(edits[j].range.start, edits[i].range.start)
  }

  lemma {:induction false} InsertKeepsDescending(sorted: seq<TextEdit>, e: TextEdit)
    requires Descending(sorted)
    ensures Descending(InsertByStart(sorted, e))
  {
    if sorted != [] && AtMost(e.range.start, sorted[0].range.start) {
      InsertKeepsDescending(sorted[1..], e);
      var rest := InsertByStart(sorted[1..], e);
      forall x | x in rest ensures AtMost(x.range.start, sorted[0].range.start) {
        assert x in multiset(rest);
        assert x == e || x in sorted[1..];
      }
    }
  }

  lemma {:induction false} SortIsDescending(edits: seq<TextEdit>)
    ensures Descending(LatestStartFirst(edits))
  {
    if edits != [] {
      SortIsDescending(edits[..|edits| - 1]);
      InsertKeepsDescending(LatestStartFirst(edits[..|edits| - 1]), edits[|edits| - 1]);
    }
  }

  lemma {:induction false} TwiceMeansTwo<T>(xs: seq<T>, i: nat, j: nat)
    requires i < j < |xs| && xs[i] == xs[j]
    ensures multiset(xs)[xs[i]] >= 2
  {
    assert xs == xs[..j] + [xs[j]] + xs[j + 1..];
    assert xs[i] in xs[..j];
  }

  lemma TailOf<T>(xs: seq<T>)
    requires xs != []
    ensures multiset(xs) == multiset{xs[0]} + multiset(xs[1..])
  {
    assert xs == [xs[0]] + xs[1..];
  }

  lemma TailsAgree<T>(head: multiset<T>, a: multiset<T>, b: multiset<T>)
    requires head + a == head + b
    ensures a == b
  {
    assert (head + a) - head == a && (head + b) - head == b;
  }

  lemma DisjointTail(text: string, edits: seq<TextEdit>)
    requires edits != [] && Disjoint(text, multiset(edits)) && Descending(edits)
    ensures Disjoint(text, multiset(edits[1..])) && Descending(edits[1..])
  {
    TailOf(edits);
    var all, rest := multiset(edits), multiset(edits[1..]);
    assert forall e :: e in rest ==> e in all && rest[e] <= all[e];
  }

  lemma DisjointSpans(text: string, edits: seq<TextEdit>)
    requires Disjoint(text, multiset(edits))
    ensures forall e :: e in edits ==> SpanOf(text, e).Some?
  {
    forall e | e in edits ensures SpanOf(text, e).Some? {
      assert e in multiset(edits);
      EditReplacesSpan(text, text, e);
    }
  }

  /** In the sorted list each edit ends before the one applied before it starts. */
  lemma NextEndsBefore(text: string, edits: seq<TextEdit>)
    requires |edits| >= 2 && Descending(edits) && Disjoint(text, multiset(edits))
    ensures AtMost(edits[1].range.end, edits[0].range.start)
  {
    assert edits[0] in multiset(edits) && edits[1] in multiset(edits);
    if edits[0] == edits[1] {
      TwiceMeansTwo(edits, 0, 1);
    }
  }

  lemma {:induction false} RightToLeftWithin(spans: seq<Span>, hi: nat)
    requires RightToLeft(spans, hi)
    ensures forall s :: s in spans ==> s.from <= s.upto <= hi
  {
    if spans != [] {
      RightToLeftWithin(spans[1..], spans[0].from);
      assert spans == [spans[0]] + spans[1..];
    }
  }

  lemma FirstSpanOrdered(text: string, edits: seq<TextEdit>)
    requires edits != [] && Disjoint(text, multiset(edits))
    ensures SpanOf(text, edits[0]).Some?
    ensures SpanOf(text, edits[0]).value.from <= SpanOf(text, edits[0]).value.upto <= |text|
  {
    assert edits[0] in multiset(edits);
    EditReplacesSpan(text, text, edits[0]);
  }

  lemma NextSpanEndsBefore(text: string, edits: seq<TextEdit>)
    requires |edits| >= 2 && Descending(edits) && Disjoint(text, multiset(edits))
    requires forall e :: e in edits ==> SpanOf(text, e).Some?
    ensures SpanOf(text, edits[1]).value.upto <= SpanOf(text, edits[0]).value.from
  {
    assert edits[0] in edits && edits[1] in edits;
    assert edits[0] in multiset(edits) && edits[1] in multiset(edits);
    NextEndsBefore(text, edits);
    PositionsInOrder(text, edits[1].range.end, edits[0].range.start);
  }

  lemma {:induction false} SortedSpans(text: string, edits: seq<TextEdit>, hi: nat)
    requires Descending(edits) && Disjoint(text, multiset(edits))
    requires forall e :: e in edits ==> SpanOf(text, e).Some?
    requires edits != [] ==> SpanOf(text, edits[0]).value.upto <= hi
    ensures RightToLeft(Spans(text, edits), hi)
  {
    if edits != [] {
      var rest := edits[1..];
      FirstSpanOrdered(text, edits);
      DisjointTail(text, edits);
      if rest != [] {
        NextSpanEndsBefore(text, edits);
      }
      SortedSpans(text, rest, SpanOf(text, edits[0]).value.from);
      assert Spans(text, edits)[1..] == Spans(text, rest);
    }
  }

  /** None of the code's guards skips such an edit. */
  lemma {:induction false} ApplyIsReplaceAll(text: string, edits: seq<TextEdit>, hi: nat, tail: string)
    requires hi <= |text| && Descending(edits) && Disjoint(text, multiset(edits))
    requires forall e :: e in edits ==> SpanOf(text, e).Some?
    requires RightToLeft(Spans(text, edits), hi)
    requires forall s :: s in Spans(text, edits) ==> s.from <= |text| && s.upto <= |text|
    ensures ApplyInOrder(text, text[..hi] + tail, edits) ==
            ReplaceAll(text, text[..hi] + tail, Spans(text, edits))
    decreases |edits|
  {
    if edits != [] {
      var e, rest := edits[0], edits[1..];
      var s, spans := SpanOf(text, e).value, Spans(text, edits);
      assert spans[0] == s && spans[1..] == Spans(text, rest);
      assert edits == [e] + rest && spans == [s] + spans[1..];
      assert e in multiset(edits);
      EditReplacesSpan(text, text[..hi] + tail, e);
      ReplaceInPrefix(text, hi, tail, s.from, s.upto, s.with);
      DisjointTail(text, edits);
      ApplyIsReplaceAll(text, rest, s.from, s.with + text[s.upto..hi] + tail);
    }
  }

  lemma SameHead(text: string, a: seq<TextEdit>, b: seq<TextEdit>)
    requires a != [] && b != [] && multiset(a) == multiset(b)
    requires Disjoint(text, multiset(a)) && Descending(a) && Descending(b)
    ensures a[0] == b[0]
  {
    assert a[0] in multiset(b) && b[0] in multiset(a);
    var k :| 0 <= k < |b| && b[k] == a[0];
    var m :| 0 <= m < |a| && a[m] == b[0];
    assert k == 0 || AtMost(b[k].range.start, b[0].range.start);
    assert m == 0 || AtMost(a[m].range.start, a[0].range.start);
  }

  lemma {:induction false} DescendingIsUnique(text: string, a: seq<TextEdit>, b: seq<TextEdit>)
    requires multiset(a) == multiset(b)
    requires Disjoint(text, multiset(a)) && Descending(a) && Descending(b)
    ensures a == b
    decreases |a|
  {
    assert |multiset(a)| == |a| && |multiset(b)| == |b|;
    if a != [] {
      SameHead(text, a, b);
      TailOf(a);
      TailOf(b);
      TailsAgree(multiset{a[0]}, multiset(a[1..]), multiset(b[1..]));
      DisjointTail(text, a);
      DisjointTail(text, b);
      DescendingIsUnique(text, a[1..], b[1..]);
      SameHeadAndTail(a, b);
    }
  }

  lemma SameHeadAndTail<T>(a: seq<T>, b: seq<T>)
    requires a != [] && b != [] && a[0] == b[0] && a[1..] == b[1..]
    ensures a == b
  {
    assert a == [a[0]] + a[1..] && b == [b[0]] + b[1..];
  }

  /** The edits' spans from left to right. */
  function InTextOrder(text: string, edits: seq<TextEdit>): seq<Span>
    requires forall e :: e in edits ==> SpanOf(text, e).Some?
  {
    var sorted := LatestStartFirst(edits);
    assert forall e :: e in sorted ==> e in multiset(sorted);
    Reversed(Spans(text, sorted))
  }

  /** Non-overlapping edits with distinct starts, each in line, are all applied, simultaneously,
      to the original text: none is skipped, nothing panics. */
  lemma AppliesSimultaneously(text: string, edits: seq<TextEdit>)
    requires Disjoint(text, multiset(edits))
    ensures forall e :: e in edits ==> SpanOf(text, e).Some?
    ensures LeftToRight(InTextOrder(text, edits), 0, |text|)
    ensures ApplyTextEdits(text, edits) == Some(Substitute(text, InTextOrder(text, edits), 0, |text|))
  {
    var sorted := LatestStartFirst(edits);
    DisjointSpans(text, edits);
    DisjointSpans(text, sorted);
    SortIsDescending(edits);
    if sorted != [] {
      FirstSpanOrdered(text, sorted);
    }
    SortedSpans(text, sorted, |text|);
    RightToLeftWithin(Spans(text, sorted), |text|);
    ApplyIsReplaceAll(text, sorted, |text|, "");
    ReplaceFromRight(text, Spans(text, sorted), |text|, "");
    AppendNothing(text);
    AppendNothing(Substitute(text, InTextOrder(text, edits), 0, |text|));
  }

  /** The order in which a server lists such edits does not matter. */
  lemma OrderDoesNotMatter(text: string, a: seq<TextEdit>, b: seq<TextEdit>)
    requires multiset(a) == multiset(b) && Disjoint(text, multiset(a))
    ensures ApplyTextEdits(text, a) == ApplyTextEdits(text, b) && ApplyTextEdits(text, a).Some?
  {
    SortIsDescending(a);
    SortIsDescending(b);
    DescendingIsUnique(text, LatestStartFirst(a), LatestStartFirst(b));
    AppliesSimultaneously(text, a);
  }

  // --------------------------------------------------------------- insertions

  function Insertion(p: Position, text: string): TextEdit {
    TextEdit(Range(p, p), text)
  }

  /** An insertion into `text[..i] + tail` at the place of character `i`. */
  lemma Inserts(text: string, p: Position, tail: string, x: string)
    requires InLine(text, p) && PositionIndex(text, p).Some?
    ensures var i := PositionIndex(text, p).value;
            ApplyEdit(text, text[..i] + tail, Insertion(p, x)) == Some(text[..i] + (x + tail))
  {
    InLineIndex(text, p);
    var i := PositionIndex(text, p).value;
    EditReplacesSpan(text, text[..i] + tail, Insertion(p, x));
    ReplaceInPrefix(text, i, tail, i, i, x);
    assert text[..i] + (x + text[i..i] + tail) == text[..i] + (x + tail);
  }

  lemma SortsPair(a: TextEdit, b: TextEdit)
    requires AtMost(b.range.start, a.range.start)
    ensures LatestStartFirst([a, b]) == [a, b]
  {
    assert [a, b][..1] == [a];
    assert [a][..0] == [];
    assert LatestStartFirst([a]) == [a];
    assert [a][1..] == [];
    assert InsertByStart([a], b) == [a] + InsertByStart([], b);
  }
}
