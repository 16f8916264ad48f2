/** LSP positions and UTF-8 offsets (crates/aide-lsp/src/ops.rs). A text is a sequence of Unicode
    scalar values; the code indexes it by UTF-8 bytes and LSP counts UTF-16 code units. */
module TextPositions {
  import opened Common
  import opened Wrappers

  /** A zero-based line and a column in UTF-16 code units. */
  datatype Position = Position(line: nat, character: nat)

  datatype Range = Range(start: Position, end: Position)

  predicate AtMost(a: Position, b: Position) {
    a.line < b.line || (a.line == b.line && a.character <= b.character)
  }

  // -------------------------------------------------------------- encodings

  const NEWLINE: Byte := 10

  function Len8(c: char): (n: nat)
    ensures 1 <= n <= 4
  {
    if c as int < 0x80 then 1 else if c as int < 0x800 then 2 else if c as int < 0x1_0000 then 3 else 4
  }

  function Len16(c: char): (n: nat)
    ensures 1 <= n <= 2
  {
    if c as int < 0x1_0000 then 1 else 2
  }

  function EncodeChar(c: char): (bytes: seq<Byte>)
    ensures |bytes| == Len8(c)
    ensures c == '\n' ==> bytes == [NEWLINE]
    ensures c != '\n' ==> NEWLINE !in bytes
  {
    var v := c as int;
    if v < 0x80 then [v]
    else if v < 0x800 then [0xC0 + v / 64, 0x80 + v % 64]
    else if v < 0x1_0000 then [0xE0 + v / 4096, 0x80 + v / 64 % 64, 0x80 + v % 64]
    else [0xF0 + v / 262144, 0x80 + v / 4096 % 64, 0x80 + v / 64 % 64, 0x80 + v % 64]
  }

  function Encode(text: string): seq<Byte> {
    if text == [] then [] else Encode(text[..|text| - 1]) + EncodeChar(text[|text| - 1])
  }

  /** The byte offset at which character `i` starts. */
  function Offset(text: string, i: nat): (n: nat)
    requires i <= |text|
  {
    if i == 0 then 0 else Offset(text, i - 1) + Len8(text[i - 1])
  }

  lemma {:induction false} OffsetsGrow(text: string, i: nat, j: nat)
    requires i < j <= |text|
    ensures Offset(text, i) < Offset(text, j)
    decreases j
  {
    if i < j - 1 {
      OffsetsGrow(text, i, j - 1);
    }
  }

  lemma {:induction false} OffsetOfPrefix(a: string, b: string, i: nat)
    requires i <= |a| <= |b| && a == b[..|a|]
    ensures Offset(a, i) == Offset(b, i)
  {
    if i > 0 {
      OffsetOfPrefix(a, b, i - 1);
    }
  }

  lemma {:induction false} EncodedAt(text: string, i: nat)
    requires i < |text|
    ensures |Encode(text)| == Offset(text, |text|)
    ensures Offset(text, i) + Len8(text[i]) == Offset(text, i + 1) <= Offset(text, |text|)
    ensures Encode(text)[Offset(text, i)..Offset(text, i + 1)] == EncodeChar(text[i])
  {
    var init, last := text[..|text| - 1], text[|text| - 1];
    EncodedLength(text);
    EncodedLength(init);
    OffsetOfPrefix(init, text, |init|);
    if i < |init| {
      EncodedAt(init, i);
      OffsetOfPrefix(init, text, i);
      OffsetOfPrefix(init, text, i + 1);
      SliceOfPrefix(Encode(init), EncodeChar(last), Offset(text, i), Offset(text, i + 1));
    }
  }

  lemma SliceOfPrefix<T>(a: seq<T>, b: seq<T>, i: nat, j: nat)
    requires i <= j <= |a|
    ensures (a + b)[i..j] == a[i..j]
  {
  }

  lemma {:induction false} EncodedLength(text: string)
    ensures |Encode(text)| == Offset(text, |text|)
  {
    if text != [] {
      EncodedLength(text[..|text| - 1]);
      OffsetOfPrefix(text[..|text| - 1], text, |text| - 1);
    }
  }

  // ------------------------------------------------------------- lines

  /** The first newline at or after `from`, or the end of the text. */
  function LineEnd(text: string, from: nat): (i: nat)
    requires from <= |text|
    ensures from <= i <= |text| && (i < |text| ==> text[i] == '\n')
    ensures forall k :: from <= k < i ==> text[k] != '\n'
    decreases |text| - from
  {
    if from == |text| || text[from] == '\n' then from else LineEnd(text, from + 1)
  }

  /** The index at which line `line` starts, if the text has that many lines. */
  function LineStart(text: string, line: nat): (r: Option<nat>)
    ensures r.Some? ==> r.value <= |text|
  {
    if line == 0 then Some(0) else
      var prev := LineStart(text, line - 1);
      if prev.None? then None else
        var end := LineEnd(text, prev.value);
        if end < |text| then Some(end + 1) else None
  }

  /** `from` advanced over `units` UTF-16 code units, rounding up inside a surrogate pair and
      stopping at `limit`. */
  function Advance(text: string, from: nat, units: int, limit: nat): (i: nat)
    requires from <= limit <= |text|
    ensures from <= i <= limit
    decreases limit - from
  {
    if from == limit || units <= 0 then from
    else Advance(text, from + 1, units - Len16(text[from]), limit)
  }

  /** The width in UTF-16 code units of `text[from..end]`. */
  function Width(text: string, from: nat, end: nat): nat
    requires from <= end <= |text|
    decreases end - from
  {
    if from == end then 0 else Len16(text[from]) + Width(text, from + 1, end)
  }

  /** What a position denotes to the code, which ends lines at line feeds only: the line's column, a
      column past the end of the line falling back to the line's length. Module LspPositions says
      when this is what LSP means. */
  function PositionIndex(text: string, p: Position): (r: Option<nat>)
    ensures r.Some? ==> r.value <= |text|
  {
    var start := LineStart(text, p.line);
    if start.None? then None
    else Some(Advance(text, start.value, p.character, LineEnd(text, start.value)))
  }

  /** Where `byte_offset` lands: its walk along the line does not stop at the newline. */
  function UnclampedIndex(text: string, p: Position): (r: Option<nat>)
    ensures r.Some? ==> r.value <= |text|
  {
    var start := LineStart(text, p.line);
    if start.None? then None else Some(Advance(text, start.value, p.character, |text|))
  }

  /** The column lies on its line, its end included. */
  predicate InLine(text: string, p: Position) {
    var start := LineStart(text, p.line);
    start.Some? && p.character <= Width(text, start.value, LineEnd(text, start.value))
  }

  // -------------------------------------------------- the reference mapping

  lemma {:induction false} LineStartsInOrder(text: string, a: nat, b: nat)
    requires a < b && LineStart(text, b).Some?
    ensures LineStart(text, a).Some?
    ensures LineEnd(text, LineStart(text, a).value) < LineStart(text, b).value
    decreases b
  {
    if a < b - 1 {
      LineStartsInOrder(text, a, b - 1);
    }
  }

  lemma {:induction false} AdvanceMonotone(text: string, from: nat, u: int, v: int, limit: nat)
    requires from <= limit <= |text| && u <= v
    ensures Advance(text, from, u, limit) <= Advance(text, from, v, limit)
    decreases limit - from
  {
    if from < limit && u > 0 {
      AdvanceMonotone(text, from + 1, u - Len16(text[from]), v - Len16(text[from]), limit);
    }
  }

  lemma {:induction false} AdvancePastWidth(text: string, from: nat, units: int, limit: nat)
    requires from <= limit <= |text|
    ensures units >= Width(text, from, limit) ==> Advance(text, from, units, limit) == limit
    decreases limit - from
  {
    if from < limit {
      AdvancePastWidth(text, from + 1, units - Len16(text[from]), limit);
    }
  }

  /** Later positions map to later or equal indices, and a column past its line's end maps to the
      newline or the end of the text. */
  lemma PositionsInOrder(text: string, a: Position, b: Position)
    requires AtMost(a, b) && PositionIndex(text, b).Some?
    ensures PositionIndex(text, a).Some?
    ensures PositionIndex(text, a).value <= PositionIndex(text, b).value
    ensures var start := LineStart(text, b.line).value;
            b.character >= Width(text, start, LineEnd(text, start)) ==>
              PositionIndex(text, b).value == LineEnd(text, start)
  {
    var start := LineStart(text, b.line).value;
    AdvancePastWidth(text, start, b.character, LineEnd(text, start));
    if a.line < b.line {
      LineStartsInOrder(text, a.line, b.line);
    } else {
      AdvanceMonotone(text, start, a.character, b.character, LineEnd(text, start));
    }
  }

  /** A column within the line is the same whether or not the walk stops at the line's end;
      beyond it, the walk that does not stop goes past the newline, if there is one. */
  lemma {:induction false} StoppingMatters(text: string, from: nat, units: int, limit: nat, far: nat)
    requires from <= limit <= far <= |text|
    ensures Advance(text, from, units, limit) == Advance(text, from, units, far) <==>
            units <= Width(text, from, limit) || limit == far
    decreases limit - from
  {
    if from < limit {
      StoppingMatters(text, from + 1, units - Len16(text[from]), limit, far);
    }
  }

  // -------------------------------------------------- newlines, in bytes

  function FindNewline(bytes: seq<Byte>, from: nat): (r: Option<nat>)
    requires from <= |bytes|
    ensures r.Some? ==> from <= r.value < |bytes|
    decreases |bytes| - from
  {
    if from == |bytes| then None
    else if bytes[from] == NEWLINE then Some(from)
    else FindNewline(bytes, from + 1)
  }

  lemma {:induction false} FindSkips(bytes: seq<Byte>, from: nat, end: nat)
    requires from <= end <= |bytes| && NEWLINE !in bytes[from..end]
    ensures FindNewline(bytes, from) == FindNewline(bytes, end)
    decreases end - from
  {
    if from < end {
      assert bytes[from] == bytes[from..end][0];
      assert bytes[from + 1..end] == bytes[from..end][1..];
      FindSkips(bytes, from + 1, end);
    }
  }

  /** Searching the bytes for a newline finds the same place as searching the characters. */
  lemma {:induction false} FindIsLineEnd(text: string, from: nat)
    requires from <= |text|
    ensures |Encode(text)| == Offset(text, |text|) >= Offset(text, from)
    ensures var end := LineEnd(text, from);
            FindNewline(Encode(text), Offset(text, from)) ==
            if end < |text| then Some(Offset(text, end)) else None
    decreases |text| - from
  {
    EncodedLength(text);
    if from < |text| {
      EncodedAt(text, from);
      var bytes := Encode(text);
      if text[from] == '\n' {
        assert bytes[Offset(text, from)] == bytes[Offset(text, from)..Offset(text, from + 1)][0];
      } else {
        FindSkips(bytes, Offset(text, from), Offset(text, from + 1));
        FindIsLineEnd(text, from + 1);
      }
    }
  }

  function ScanLines(bytes: seq<Byte>, from: nat): seq<nat>
    requires from <= |bytes|
    decreases |bytes| - from
  {
    if from == |bytes| then []
    else if bytes[from] == NEWLINE then [from + 1] + ScanLines(bytes, from + 1)
    else ScanLines(bytes, from + 1)
  }

  lemma {:induction false} ScanFrom(bytes: seq<Byte>, from: nat)
    requires from <= |bytes|
    ensures var next := FindNewline(bytes, from);
            ScanLines(bytes, from) == if next.None? then [] else [next.value + 1] + ScanLines(bytes, next.value + 1)
    decreases |bytes| - from
  {
    if from < |bytes| && bytes[from] != NEWLINE {
      ScanFrom(bytes, from + 1);
    }
  }

  /** The offsets of all line starts, as the code collects them. */
  function LineOffsets(text: string): seq<nat> {
    [0] + ScanLines(Encode(text), 0)
  }

  /** The first offset after a line's start is that of the next line. */
  lemma {:induction false} NextLineOffset(text: string, start: nat)
    requires start <= |text|
    ensures var bytes, end := Encode(text), LineEnd(text, start);
            Offset(text, start) <= |bytes| &&
            if end == |text| then ScanLines(bytes, Offset(text, start)) == []
            else Offset(text, end + 1) <= |bytes| &&
                 ScanLines(bytes, Offset(text, start)) ==
                 [Offset(text, end + 1)] + ScanLines(bytes, Offset(text, end + 1))
  {
    var end := LineEnd(text, start);
    FindIsLineEnd(text, start);
    ScanFrom(Encode(text), Offset(text, start));
    if end < |text| {
      NewlineIsOneByte(text, end);
    }
  }

  lemma {:induction false} NewlineIsOneByte(text: string, i: nat)
    requires i < |text| && text[i] == '\n'
    ensures Offset(text, i + 1) == Offset(text, i) + 1 <= |Encode(text)|
  {
    EncodedAt(text, i);
  }

  lemma HeadAndTail(xs: seq<nat>, n: nat, x: nat, rest: seq<nat>)
    requires n <= |xs| && xs[n..] == [x] + rest
    ensures n < |xs| && xs[n] == x && xs[n + 1..] == rest
  {
    assert xs[n..][0] == x && xs[n..][1..] == rest;
  }

  /** Line `line` is known to start at `start` and the offsets after it are those found from there. */
  ghost predicate OffsetsFrom(text: string, line: nat, start: nat) {
    start <= |text| && line < |LineOffsets(text)| &&
    LineOffsets(text)[line] == Offset(text, start) <= |Encode(text)| &&
    LineOffsets(text)[line + 1..] == ScanLines(Encode(text), Offset(text, start))
  }

  lemma OffsetsOneOn(text: string, line: nat, start: nat)
    requires OffsetsFrom(text, line, start)
    ensures var end := LineEnd(text, start);
            if end < |text| then OffsetsFrom(text, line + 1, end + 1) else line + 1 == |LineOffsets(text)|
  {
    var end := LineEnd(text, start);
    NextLineOffset(text, start);
    if end < |text| {
      HeadAndTail(LineOffsets(text), line + 1, Offset(text, end + 1),
                  ScanLines(Encode(text), Offset(text, end + 1)));
    }
  }

  lemma {:induction false} LineOffsetsAre(text: string, line: nat)
    ensures line < |LineOffsets(text)| <==> LineStart(text, line).Some?
    ensures var start := LineStart(text, line);
            start.Some? ==>
              && LineOffsets(text)[line] == Offset(text, start.value) <= |Encode(text)|
              && LineOffsets(text)[line + 1..] == ScanLines(Encode(text), Offset(text, start.value))
  {
    if line == 0 {
      HeadAndTail(LineOffsets(text), 0, 0, ScanLines(Encode(text), 0));
    } else {
      LineOffsetsAre(text, line - 1);
      if LineStart(text, line - 1).Some? {
        OffsetsOneOn(text, line - 1, LineStart(text, line - 1).value);
      }
    }
  }
}
