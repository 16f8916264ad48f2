/** UTF-16, in which LSP counts columns, as the Unicode Standard defines it in section 3.9, and what the
    columns of crates/aide-lsp/src/ops.rs come to in its terms. */
module Utf16 {
  import opened Common
  import opened Wrappers
  import opened TextPositions

  type Unit = u: int | 0 <= u < 0x1_0000

  predicate IsHigh(u: Unit) {
    0xD800 <= u < 0xDC00
  }

  predicate IsLow(u: Unit) {
    0xDC00 <= u < 0xE000
  }

  /** A scalar value of the first plane is one unit, and any other a surrogate pair. */
  function UnitsOf(c: char): seq<Unit> {
    var v := c as int;
    if v < 0x1_0000 then [v]
    else [0xD800 + (v - 0x1_0000) / 0x400, 0xDC00 + (v - 0x1_0000) % 0x400]
  }

  function Units(text: string): seq<Unit> {
    if text == "" then [] else UnitsOf(text[0]) + Units(text[1..])
  }

  function Paired(high: Unit, low: Unit): char
    requires IsHigh(high) && IsLow(low)
  {
    var h: int, l: int := high - 0xD800, low - 0xDC00;
    (0x1_0000 + h * 0x400 + l) as char
  }

  /** The text that these units spell, if no surrogate stands alone. */
  function Text(units: seq<Unit>): Option<string> {
    if units == [] then Some("")
    else if !IsHigh(units[0]) && !IsLow(units[0]) then
      var rest := Text(units[1..]);
      if rest.None? then None else Some([units[0] as char] + rest.value)
    else if IsHigh(units[0]) && |units| > 1 && IsLow(units[1]) then
      var rest := Text(units[2..]);
      if rest.None? then None else Some([Paired(units[0], units[1])] + rest.value)
    else None
  }

  // ------------------------------------------------------------- round trip

  lemma {:induction false} FirstUnits(c: char, rest: seq<Unit>)
    ensures Text(UnitsOf(c) + rest) ==
            match Text(rest) case None => None case Some(t) => Some([c] + t)
  {
    var units := UnitsOf(c) + rest;
    assert units[|UnitsOf(c)|..] == rest;
  }

  lemma {:induction false} TextOfUnits(text: string)
    ensures Text(Units(text)) == Some(text)
  {
    if text != "" {
      TextOfUnits(text[1..]);
      FirstUnits(text[0], Units(text[1..]));
      assert text == [text[0]] + text[1..];
    }
  }

  lemma {:induction false} FirstSpelled(units: seq<Unit>)
    requires units != [] && Text(units).Some?
    ensures Text(units).value != "" && UnitsOf(Text(units).value[0]) == units[..if IsHigh(units[0]) then 2 else 1]
  {
    if IsHigh(units[0]) {
      PairedUnits(units[0], units[1]);
      assert units[..2] == [units[0], units[1]];
    } else {
      assert units[..1] == [units[0]];
    }
  }

  lemma {:induction false} PairedUnits(high: Unit, low: Unit)
    requires IsHigh(high) && IsLow(low)
    ensures UnitsOf(Paired(high, low)) == [high, low]
  {
  }

  lemma {:induction false} UnitsOfText(units: seq<Unit>)
    requires Text(units).Some?
    ensures Units(Text(units).value) == units
    decreases |units|
  {
    if units != [] {
      var n := if IsHigh(units[0]) then 2 else 1;
      UnitsOfText(units[n..]);
      var text := Text(units).value;
      assert text[1..] == Text(units[n..]).value;
      FirstSpelled(units);
      assert units == units[..n] + units[n..];
    }
  }

  /** Units spell a text exactly if they are its encoding. */
  lemma SpellsIff(units: seq<Unit>, text: string)
    ensures Text(units) == Some(text) <==> units == Units(text)
  {
    TextOfUnits(text);
    if Text(units).Some? {
      UnitsOfText(units);
    }
  }

  // ------------------------------------------------------------ the columns

  /** The widths that the mappers add up are numbers of UTF-16 units. */
  lemma {:induction false} WidthIs(text: string, from: nat, end: nat)
    requires from <= end <= |text|
    ensures Width(text, from, end) == |Units(text[from..end])|
    ensures from < end ==> Len16(text[from]) == |UnitsOf(text[from])|
    decreases end - from
  {
    if from < end {
      WidthIs(text, from + 1, end);
      assert text[from..end][1..] == text[from + 1..end];
    }
  }

  lemma {:induction false} WidthSplits(text: string, from: nat, mid: nat, end: nat)
    requires from <= mid <= end <= |text|
    ensures Width(text, from, end) == Width(text, from, mid) + Width(text, mid, end)
    decreases mid - from
  {
    if from < mid {
      WidthSplits(text, from + 1, mid, end);
    }
  }

  /** The walk stops at the first place before which there are that many units. */
  lemma {:induction false} AdvanceStops(text: string, from: nat, units: int, limit: nat, k: nat)
    requires from <= limit <= |text| && units <= Width(text, from, limit)
    ensures units <= Width(text, from, Advance(text, from, units, limit))
    ensures from <= k < Advance(text, from, units, limit) ==> Width(text, from, k) < units
    decreases limit - from
  {
    if from < limit && units > 0 {
      AdvanceStops(text, from + 1, units - Len16(text[from]), limit, k);
    }
  }

  /** A column of a line denotes the first place of the line before which there are at least that many
      UTF-16 units; its byte offset is the length of the UTF-8 encoding of what comes before. */
  lemma {:induction false} ColumnIs(text: string, p: Position)
    requires InLine(text, p)
    ensures var start, i := LineStart(text, p.line).value, PositionIndex(text, p);
            && i.Some? && UnclampedIndex(text, p) == i
            && start <= i.value <= LineEnd(text, start)
            && |Units(text[start..i.value])| >= p.character
            && (forall k :: start <= k < i.value ==> |Units(text[start..k])| < p.character)
            && Offset(text, i.value) == |Encode(text[..i.value])|
  {
    var start := LineStart(text, p.line).value;
    var end := LineEnd(text, start);
    var i := Advance(text, start, p.character, end);
    StoppingMatters(text, start, p.character, end, |text|);
    AdvanceStops(text, start, p.character, end, start);
    WidthIs(text, start, i);
    forall k | start <= k < i ensures |Units(text[start..k])| < p.character {
      AdvanceStops(text, start, p.character, end, k);
      WidthIs(text, start, k);
    }
    EncodedLength(text[..i]);
    OffsetOfPrefix(text[..i], text, i);
  }

  lemma {:induction false} ColumnIsLeast(text: string, p: Position, k: nat)
    requires InLine(text, p) && LineStart(text, p.line).value <= k <= |text|
    requires |Units(text[LineStart(text, p.line).value..k])| >= p.character
    ensures PositionIndex(text, p).value <= k
  {
    ColumnIs(text, p);
  }

  /** Every place of a line is denoted by the number of UTF-16 units before it. */
  lemma {:induction false} UnitsAreTheColumn(text: string, line: nat, i: nat)
    requires LineStart(text, line).Some?
    requires LineStart(text, line).value <= i <= LineEnd(text, LineStart(text, line).value)
    ensures var p := Position(line, |Units(text[LineStart(text, line).value..i])|);
            InLine(text, p) && PositionIndex(text, p) == Some(i)
  {
    var start := LineStart(text, line).value;
    var p := Position(line, |Units(text[start..i])|);
    WidthIs(text, start, i);
    WidthSplits(text, start, i, LineEnd(text, start));
    ColumnIs(text, p);
    var j := PositionIndex(text, p).value;
    WidthIs(text, start, j);
    ColumnIsLeast(text, p, i);
    if j < i {
      WidthSplits(text, start, j, i);
      WidthIs(text, j, i);
    }
  }

  // -------------------------------------------------------------- the lines

  function Newlines(text: string): nat {
    if text == "" then 0 else (if text[0] == '\n' then 1 else 0) + Newlines(text[1..])
  }

  lemma {:induction false} NewlinesConcat(a: string, b: string)
    ensures Newlines(a + b) == Newlines(a) + Newlines(b)
  {
    if a == "" {
      assert a + b == b;
    } else {
      assert (a + b)[1..] == a[1..] + b;
      NewlinesConcat(a[1..], b);
    }
  }

  lemma {:induction false} NoNewlines(text: string)
    requires forall k :: 0 <= k < |text| ==> text[k] != '\n'
    ensures Newlines(text) == 0
  {
    if text != "" {
      NoNewlines(text[1..]);
    }
  }

  /** A line starts at the front of the text or behind a newline, and has its number of newlines before
      it; there is one for every number up to the newlines of the text. */
  lemma {:induction false} LinesCount(text: string, line: nat)
    ensures LineStart(text, line).Some? <==> line <= Newlines(text)
    ensures LineStart(text, line).Some? ==>
              var i := LineStart(text, line).value;
              Newlines(text[..i]) == line && (i == 0 || text[i - 1] == '\n')
  {
    if line > 0 {
      LinesCount(text, line - 1);
      var prev := LineStart(text, line - 1);
      if prev.Some? {
        NextLineCounts(text, prev.value);
      }
    }
  }

  lemma {:induction false} NextLineCounts(text: string, start: nat)
    requires start <= |text|
    ensures var end := LineEnd(text, start);
            if end == |text| then Newlines(text) == Newlines(text[..start])
            else Newlines(text[..end + 1]) == Newlines(text[..start]) + 1 <= Newlines(text)
  {
    var end := LineEnd(text, start);
    var upto := if end == |text| then end else end + 1;
    NoNewlines(text[start..end]);
    assert text[..end] == text[..start] + text[start..end];
    NewlinesConcat(text[..start], text[start..end]);
    assert text == text[..upto] + text[upto..];
    NewlinesConcat(text[..upto], text[upto..]);
    if end < |text| {
      assert text[..end + 1] == text[..end] + "\n";
      NewlinesConcat(text[..end], "\n");
    } else {
      assert text[..end] == text;
    }
  }

  // -------------------------------------------------------------- the order

  lemma {:induction false} HasNewline(text: string, k: nat)
    requires k < |text| && text[k] == '\n'
    ensures Newlines(text) >= 1
  {
    if k > 0 {
      HasNewline(text[1..], k - 1);
    }
  }

  lemma {:induction false} NewlinesBetween(text: string, i: nat, j: nat)
    requires i <= j <= |text|
    ensures Newlines(text[..j]) == Newlines(text[..i]) + Newlines(text[i..j])
  {
    assert text[..j] == text[..i] + text[i..j];
    NewlinesConcat(text[..i], text[i..j]);
  }

  /** A place of a text lies on the line of its number of newlines. */
  lemma {:induction false} OnItsLine(text: string, i: nat)
    requires i <= |text|
    ensures var start := LineStart(text, Newlines(text[..i]));
            start.Some? && start.value <= i <= LineEnd(text, start.value)
  {
    var line := Newlines(text[..i]);
    NewlinesBetween(text, i, |text|);
    assert text[..|text|] == text;
    LinesCount(text, line);
    var start := LineStart(text, line).value;
    if i < start {
      NewlinesBetween(text, i, start);
      HasNewline(text[i..start], start - 1 - i);
    } else if LineEnd(text, start) < i {
      NewlinesBetween(text, start, i);
      HasNewline(text[start..i], LineEnd(text, start) - start);
    }
  }

  /** The position of a place: its line and the UTF-16 units before it there. */
  function PositionOf(text: string, i: nat): Position
    requires i <= |text|
  {
    OnItsLine(text, i);
    var line := Newlines(text[..i]);
    Position(line, |Units(text[LineStart(text, line).value..i])|)
  }

  /** The order of positions is that of the places in the text, and both mappers find the place again. */
  lemma {:induction false} OrderIs(text: string, i: nat, j: nat)
    requires i <= |text| && j <= |text|
    ensures AtMost(PositionOf(text, i), PositionOf(text, j)) <==> i <= j
    ensures PositionIndex(text, PositionOf(text, i)) == UnclampedIndex(text, PositionOf(text, i)) == Some(i)
  {
    OnItsLine(text, i);
    UnitsAreTheColumn(text, Newlines(text[..i]), i);
    ColumnIs(text, PositionOf(text, i));
    if i < j {
      LaterIsGreater(text, i, j);
    } else if j < i {
      LaterIsGreater(text, j, i);
    }
  }

  lemma {:induction false} LaterIsGreater(text: string, i: nat, j: nat)
    requires i < j <= |text|
    ensures AtMost(PositionOf(text, i), PositionOf(text, j)) && !AtMost(PositionOf(text, j), PositionOf(text, i))
  {
    OnItsLine(text, i);
    OnItsLine(text, j);
    NewlinesBetween(text, i, j);
    var line := Newlines(text[..i]);
    if Newlines(text[..j]) == line {
      var start := LineStart(text, line).value;
      WidthIs(text, start, i);
      WidthIs(text, start, j);
      WidthSplits(text, start, i, j);
      WidthIs(text, i, j);
    }
  }
}
