/** Positions as LSP 3.17 defines them in its section "Position", where a line ends at a line feed, at
    a carriage return, or at both together, and when the mapping of crates/aide-lsp/src/ops.rs, for
    which only a line feed ends a line, gives the same. */
module LspPositions {
  import opened Wrappers
  import opened TextPositions

  predicate IsEol(c: char) {
    c == '\n' || c == '\r'
  }

  /** The first end-of-line character at or after `from`, or the end of the text. */
  function LspLineEnd(text: string, from: nat): (i: nat)
    requires from <= |text|
    ensures from <= i <= |text| && (i < |text| ==> IsEol(text[i]))
    ensures forall k :: from <= k < i ==> !IsEol(text[k])
    decreases |text| - from
  {
    if from == |text| || IsEol(text[from]) then from else LspLineEnd(text, from + 1)
  }

  /** A carriage return that does not belong to a line feed. */
  predicate IsLone(text: string, i: nat)
    requires i < |text|
  {
    text[i] == '\r' && !(i + 1 < |text| && text[i + 1] == '\n')
  }

  /** The start of the line after the one that ends at `end`. */
  function AfterEol(text: string, end: nat): (i: nat)
    requires end < |text| && IsEol(text[end])
    ensures end < i <= |text|
  {
    if text[end] == '\r' && !IsLone(text, end) then end + 2 else end + 1
  }

  function LspLineStart(text: string, line: nat): (r: Option<nat>)
    ensures r.Some? ==> r.value <= |text|
  {
    if line == 0 then Some(0) else
      var prev := LspLineStart(text, line - 1);
      if prev.None? then None else
        var end := LspLineEnd(text, prev.value);
        if end < |text| then Some(AfterEol(text, end)) else None
  }

  /** What a position denotes: its column, or the end of its line if the line is shorter. */
  function LspIndex(text: string, p: Position): (r: Option<nat>)
    ensures r.Some? ==> r.value <= |text|
  {
    var start := LspLineStart(text, p.line);
    if start.None? then None
    else Some(Advance(text, start.value, p.character, LspLineEnd(text, start.value)))
  }

  lemma {:induction false} LspLineStartsInOrder(text: string, a: nat, b: nat)
    requires a < b && LspLineStart(text, b).Some?
    ensures LspLineStart(text, a).Some?
    ensures LspLineEnd(text, LspLineStart(text, a).value) < LspLineStart(text, b).value
    decreases b
  {
    if a < b - 1 {
      LspLineStartsInOrder(text, a, b - 1);
    }
  }

  /** Later positions denote later or equal places. */
  lemma LspIndexInOrder(text: string, a: Position, b: Position)
    requires AtMost(a, b) && LspIndex(text, b).Some?
    ensures LspIndex(text, a).Some? && LspIndex(text, a).value <= LspIndex(text, b).value
  {
    if a.line < b.line {
      LspLineStartsInOrder(text, a.line, b.line);
    } else {
      var start := LspLineStart(text, b.line).value;
      AdvanceMonotone(text, start, a.character, b.character, LspLineEnd(text, start));
    }
  }

  // ----------------------------------------------------------- the two line counts

  /** Line `line` starts at the same place for both, or it ends for LSP before it starts for the
      code. */
  ghost predicate SameOrEarlier(text: string, line: nat) {
    var code, lsp := LineStart(text, line), LspLineStart(text, line);
    code.Some? ==> lsp.Some? && (lsp == code || LspLineEnd(text, lsp.value) < code.value)
  }

  lemma LspEndsFirst(text: string, from: nat)
    requires from <= |text|
    ensures LspLineEnd(text, from) <= LineEnd(text, from)
  {
    var e, n := LspLineEnd(text, from), LineEnd(text, from);
    assert n < e ==> !IsEol(text[n]);
  }

  /** One line on from a common start: both counts go to the same place, unless the line ends in a
      lone carriage return. */
  lemma NextFromSame(text: string, start: nat)
    requires start <= |text| && LineEnd(text, start) < |text|
    ensures var e, n := LspLineEnd(text, start), LineEnd(text, start);
            && e <= n && (IsLone(text, e) <==> AfterEol(text, e) != n + 1)
            && (IsLone(text, e) ==> LspLineEnd(text, AfterEol(text, e)) < n + 1 && AfterEol(text, e) < n + 1)
  {
    var e, n := LspLineEnd(text, start), LineEnd(text, start);
    LspEndsFirst(text, start);
    if IsLone(text, e) {
      assert e + 1 <= n;
      assert LspLineEnd(text, e + 1) <= n by {
        assert n < LspLineEnd(text, e + 1) ==> !IsEol(text[n]);
      }
    } else if text[e] == '\r' {
      assert text[e + 1] == '\n';
      assert n == e + 1;
    } else {
      assert n == e;
    }
  }

  /** One line on once LSP is behind: its next line starts no later than the code's current one and
      ends before the code's next one. */
  lemma NextFromEarlier(text: string, line: nat)
    requires LineStart(text, line).Some? && LspLineStart(text, line).Some?
    requires LspLineEnd(text, LspLineStart(text, line).value) < LineStart(text, line).value
    ensures var e := LspLineEnd(text, LspLineStart(text, line).value);
            && AfterEol(text, e) <= LineStart(text, line).value
            && LspLineEnd(text, AfterEol(text, e)) <= LineEnd(text, LineStart(text, line).value)
  {
    var lsp, code := LspLineStart(text, line).value, LineStart(text, line).value;
    var e := LspLineEnd(text, lsp);
    assert line > 0;
    assert text[code - 1] == '\n';
    assert AfterEol(text, e) <= code;
    LspEndsFirst(text, AfterEol(text, e));
  }

  lemma {:induction false} NeverBehind(text: string, line: nat)
    ensures SameOrEarlier(text, line)
  {
    if line > 0 && LineStart(text, line).Some? {
      NeverBehind(text, line - 1);
      var code, lsp := LineStart(text, line - 1).value, LspLineStart(text, line - 1).value;
      if lsp == code {
        NextFromSame(text, code);
      } else {
        NextFromEarlier(text, line - 1);
      }
    }
  }

  ghost predicate NoneLone(text: string, from: nat, upto: nat)
    requires upto <= |text|
  {
    forall i :: from <= i < upto ==> !IsLone(text, i)
  }

  /** Only the character that ends a line can be a lone carriage return. */
  lemma LoneOnlyAtEnd(text: string, start: nat)
    requires start <= |text| && LspLineEnd(text, start) < |text|
    ensures var e := LspLineEnd(text, start);
            NoneLone(text, start, AfterEol(text, e)) <==> !IsLone(text, e)
  {
    var e := LspLineEnd(text, start);
    assert forall i :: start <= i < e ==> !IsEol(text[i]);
    assert AfterEol(text, e) == e + 2 ==> text[e + 1] == '\n';
  }

  lemma NextAgreesIff(text: string, line: nat)
    requires line > 0 && LspLineStart(text, line).Some?
    requires LineStart(text, line - 1) == LspLineStart(text, line - 1)
    ensures LineStart(text, line) == LspLineStart(text, line) <==>
            !IsLone(text, LspLineEnd(text, LspLineStart(text, line - 1).value))
  {
    var start := LspLineStart(text, line - 1).value;
    var e := LspLineEnd(text, start);
    LspEndsFirst(text, start);
    assert !IsLone(text, e) ==> text[e] == '\n' || text[e + 1] == '\n';
    if LineEnd(text, start) < |text| {
      NextFromSame(text, start);
    }
  }

  lemma NextStaysEarlier(text: string, line: nat)
    requires line > 0 && LspLineStart(text, line).Some?
    requires LineStart(text, line - 1) != LspLineStart(text, line - 1)
    ensures LineStart(text, line) != LspLineStart(text, line)
  {
    NeverBehind(text, line - 1);
    if LineStart(text, line).Some? {
      NextFromEarlier(text, line - 1);
    }
  }

  lemma JoinNoneLone(text: string, a: nat, b: nat, c: nat)
    requires a <= b <= c <= |text|
    ensures NoneLone(text, a, c) <==> NoneLone(text, a, b) && NoneLone(text, b, c)
  {
  }

  /** The code finds a line where LSP has it exactly if no lone carriage return comes before it. */
  lemma {:induction false} StartsAgreeIff(text: string, line: nat)
    requires LspLineStart(text, line).Some?
    ensures LineStart(text, line) == LspLineStart(text, line) <==>
            NoneLone(text, 0, LspLineStart(text, line).value)
  {
    if line > 0 {
      var start := LspLineStart(text, line - 1).value;
      StartsAgreeIff(text, line - 1);
      LoneOnlyAtEnd(text, start);
      JoinNoneLone(text, 0, start, LspLineStart(text, line).value);
      if LineStart(text, line - 1) == LspLineStart(text, line - 1) {
        NextAgreesIff(text, line);
      } else {
        NextStaysEarlier(text, line);
      }
    }
  }

  // --------------------------------------------------------- the two mappings

  /** Exactly when `position_to_byte_offset` means what LSP does, for every text and position. */
  lemma PositionAgreesIff(text: string, p: Position)
    ensures PositionIndex(text, p) == LspIndex(text, p) <==>
            var start := LspLineStart(text, p.line);
            start.None? || (&& LineStart(text, p.line) == start
                            && var end := LspLineEnd(text, start.value);
                               (p.character <= Width(text, start.value, end) || end == LineEnd(text, start.value)))
  {
    WalkAgreesIff(text, p, false);
  }

  /** And exactly when `byte_offset` does, which walks on through line ends. */
  lemma UnclampedAgreesIff(text: string, p: Position)
    ensures UnclampedIndex(text, p) == LspIndex(text, p) <==>
            var start := LspLineStart(text, p.line);
            start.None? || (&& LineStart(text, p.line) == start
                            && var end := LspLineEnd(text, start.value);
                               (p.character <= Width(text, start.value, end) || end == |text|))
  {
    WalkAgreesIff(text, p, true);
  }

  lemma WalkAgreesIff(text: string, p: Position, onwards: bool)
    ensures var walked := if onwards then UnclampedIndex(text, p) else PositionIndex(text, p);
            walked == LspIndex(text, p) <==>
            var start := LspLineStart(text, p.line);
            start.None? || (&& LineStart(text, p.line) == start
                            && var end := LspLineEnd(text, start.value);
                               var limit := if onwards then |text| else LineEnd(text, start.value);
                               (p.character <= Width(text, start.value, end) || end == limit))
  {
    NeverBehind(text, p.line);
    var start := LspLineStart(text, p.line);
    if start.Some? && LineStart(text, p.line) == start {
      LspEndsFirst(text, start.value);
      StoppingMatters(text, start.value, p.character, LspLineEnd(text, start.value),
                      if onwards then |text| else LineEnd(text, start.value));
    }
  }

  /** In a text whose carriage returns all belong to line feeds, that is: on lines that do not exist,
      on lines that do not end in "\r\n", and on columns up to the "\r". */
  lemma WithoutLoneReturns(text: string, p: Position)
    requires NoneLone(text, 0, |text|)
    ensures LineStart(text, p.line) == LspLineStart(text, p.line)
    ensures PositionIndex(text, p) == LspIndex(text, p) <==>
            var start := LineStart(text, p.line);
            start.None? || var end := LspLineEnd(text, start.value);
                           (p.character <= Width(text, start.value, end) || end == |text| || text[end] == '\n')
  {
    NeverBehind(text, p.line);
    PositionAgreesIff(text, p);
    var start := LspLineStart(text, p.line);
    if start.Some? {
      StartsAgreeIff(text, p.line);
      LspEndsFirst(text, start.value);
    }
  }

  // ------------------------------------------------------------- two departures

  /** A column past the end of a line that ends in "\r\n" is mapped between the two characters. */
  lemma SplitsLineEnd()
    ensures PositionIndex("a\r\nb", Position(0, 5)) == Some(2)
    ensures LspIndex("a\r\nb", Position(0, 5)) == Some(1)
  {
    var text := "a\r\nb";
    assert LspLineEnd(text, 1) == 1;
    assert LspLineEnd(text, 0) == 1;
    assert LineEnd(text, 2) == 2;
    assert LineEnd(text, 1) == 2;
    assert LineEnd(text, 0) == 2;
    assert Advance(text, 1, 4, 2) == Advance(text, 2, 3, 2) == 2;
    assert Advance(text, 0, 5, 2) == 2;
  }

  /** A lone carriage return starts a line for LSP and none for the code. */
  lemma MissesLine()
    ensures LineStart("a\rb", 1) == None && LspLineStart("a\rb", 1) == Some(2)
  {
    var text := "a\rb";
    assert LspLineEnd(text, 0) == 1;
    assert LineEnd(text, 2) == 3;
    assert LineEnd(text, 1) == 3;
    assert LineEnd(text, 0) == 3;
  }
}
