/** The compiler-diagnostic parser of crates/aide-lang/src/languages/textdiag.rs, proved to invert
    a printer. */
module ColonDiagnostics {
  import opened Common
  import opened Wrappers
  import opened Strings

  datatype Diagnostic = Diagnostic(
    level: string,
    message: string,
    file: string,
    line: nat,
    column: Option<nat>,
    rendered: string)

  const U32_MAX: nat := 0xFFFF_FFFF

  // ------------------------------------------------------------- the parser

  /** The end of the first occurrence of `ext:` before its colon, if no space precedes it. */
  function Candidate(line: string, ext: string): (r: Option<nat>)
    ensures r.Some? ==> r.value <= |line|
  {
    var i := Find(line, ext + ":");
    if i.None? || ' ' in line[..i.value + |ext|] then None else Some(i.value + |ext|)
  }

  /** The smallest candidate over all extensions. */
  function BestEnd(line: string, exts: seq<string>): (r: Option<nat>)
    ensures r.Some? ==> r.value <= |line|
    ensures r.Some? ==> exists k :: 0 <= k < |exts| && Candidate(line, exts[k]) == r
    ensures forall k :: 0 <= k < |exts| && Candidate(line, exts[k]).Some? ==>
                          r.Some? && r.value <= Candidate(line, exts[k]).value
  {
    if exts == [] then None
    else
      var init := exts[..|exts| - 1];
      assert forall k :: 0 <= k < |init| ==> init[k] == exts[k];
      Earlier(BestEnd(line, init), Candidate(line, exts[|exts| - 1]))
  }

  function Earlier(best: Option<nat>, last: Option<nat>): Option<nat> {
    if last.Some? && (best.None? || last.value < best.value) then last else best
  }

  lemma OneMoreExtension(line: string, exts: seq<string>, k: nat)
    requires k < |exts|
    ensures BestEnd(line, exts[..k + 1]) == Earlier(BestEnd(line, exts[..k]), Candidate(line, exts[k]))
  {
    assert exts[..k + 1][..k] == exts[..k];
  }

  /** `split_file`: the loop over the extensions that keeps the earliest end. */
  method FindFileEnd(line: string, exts: seq<string>) returns (best: Option<nat>)
    ensures best == BestEnd(line, exts)
  {
    best := None;
    for k := 0 to |exts|
      invariant best == BestEnd(line, exts[..k])
    {
      OneMoreExtension(line, exts, k);
      var idx := Find(line, exts[k] + ":");
      if idx.Some? {
        var end := idx.value + |exts[k]|;
        if ' ' !in line[..end] && (best.None? || end < best.value) {
          best := Some(end);
        }
      }
    }
    assert exts[..|exts|] == exts;
  }

  function TrimDotSlash(s: string): string {
    if StartsWith(s, "./") then TrimDotSlash(s[2..]) else s
  }

  function SplitFile(line: string, exts: seq<string>): Option<(string, string)> {
    var end := BestEnd(line, exts);
    if end.None? then None else Some((TrimDotSlash(line[..end.value]), line[end.value..]))
  }

  function DigitsEnd(s: string): (n: nat)
    ensures n <= |s| && AllDigits(s[..n]) && (n < |s| ==> !IsDigit(s[n]))
  {
    if s == [] || !IsDigit(s[0]) then 0 else DigitsEnd(s[1..]) + 1
  }

  function TakeNumber(s: string): Option<(nat, string)> {
    var end := DigitsEnd(s);
    if end == 0 then None
    else
      var n := ParseUnsigned(s[..end], U32_MAX);
      if n.None? then None else Some((n.value, s[end..]))
  }

  function LevelOf(token: string): Option<string> {
    if token == "error" || token == "fatal error" then Some("error")
    else if token == "warning" || token == "note" then Some(token)
    else None
  }

  /** The severity and message of what follows the position, if the line qualifies. */
  function LevelAndMessage(rest: string, requireLevel: bool): Option<(string, string)> {
    var split := SplitOnce(rest, ':');
    var level := if split.None? then None else LevelOf(Trim(split.value.0));
    if level.Some? then Some((level.value, Trim(split.value.1)))
    else if requireLevel then None
    else Some(("error", rest))
  }

  function ParseMessage(line: string, file: string, lineNo: nat, column: Option<nat>, rest: string, requireLevel: bool)
    : Option<Diagnostic>
  {
    var found := LevelAndMessage(TrimStart(rest), requireLevel);
    if found.None? || Trim(found.value.1) == "" then None
    else Some(Diagnostic(found.value.0, Trim(found.value.1), file, lineNo, column, line))
  }

  function ParseColumn(line: string, file: string, lineNo: nat, rest: string, requireLevel: bool): Option<Diagnostic> {
    var number := TakeNumber(rest);
    if number.None? then ParseMessage(line, file, lineNo, None, rest, requireLevel)
    else
      var (column, after) := number.value;
      var tail := StripPrefix(after, ":");
      ParseMessage(line, file, lineNo, Some(column), if tail.Some? then tail.value else after, requireLevel)
  }

  function ParseLineNumber(line: string, file: string, rest: string, requireLevel: bool): Option<Diagnostic> {
    var number := TakeNumber(rest);
    if number.None? then None
    else
      var afterLine := StripPrefix(number.value.1, ":");
      if afterLine.None? then None
      else ParseColumn(line, file, number.value.0, afterLine.value, requireLevel)
  }

  function ParseOne(line: string, exts: seq<string>, requireLevel: bool): Option<Diagnostic> {
    var split := SplitFile(line, exts);
    if split.None? then None
    else
      var afterFile := StripPrefix(split.value.1, ":");
      if afterFile.None? then None
      else ParseLineNumber(line, split.value.0, afterFile.value, requireLevel)
  }

  function ParseLines(lines: seq<string>, exts: seq<string>, requireLevel: bool): seq<Diagnostic> {
    if lines == [] then []
    else
      var first := ParseOne(Trim(lines[0]), exts, requireLevel);
      (if first.Some? then [first.value] else []) + ParseLines(lines[1..], exts, requireLevel)
  }

  function ParseColonDiagnostics(output: string, exts: seq<string>, requireLevel: bool): seq<Diagnostic> {
    ParseLines(Lines(output), exts, requireLevel)
  }

  // ------------------------------------------------------------ the printer

  function PrintColumn(column: Option<nat>): string {
    if column.Some? then PrintNat(column.value) + ":" else ""
  }

  /** The tokens that compilers write for a severity, and the severity that each stands for. */
  const LEVELS: map<string, string> :=
    map["error" := "error", "fatal error" := "error", "warning" := "warning", "note" := "note"]

  /** How a tool writes a diagnostic: with how many `./` in front of the file, and with which token. */
  datatype Shape = Shape(dots: nat, token: Option<string>)

  function Dots(n: nat): string {
    if n == 0 then "" else "./" + Dots(n - 1)
  }

  function Tagged(token: Option<string>, message: string): string {
    if token.Some? then token.value + ": " + message else message
  }

  /** `file:line:[col:] level: message`, the form gcc, clang and javac print, or the same without a level,
      as go does. */
  function Print(shape: Shape, message: string, file: string, line: nat, column: Option<nat>): string {
    Dots(shape.dots) + file + ":" +
    (PrintNat(line) + ":" + (PrintColumn(column) + (" " + Tagged(shape.token, message))))
  }

  /** A message that reads as if it began with a severity. */
  predicate HasLevel(message: string) {
    var split := SplitOnce(message, ':');
    split.Some? && Trim(split.value.0) in LEVELS
  }

  /** A file free of colons and spaces that ends in a listed extension. */
  ghost predicate IsSourceFile(file: string, exts: seq<string>) {
    && file != "" && !IsWhitespace(file[0]) && ':' !in file && ' ' !in file && '\n' !in file
    && !StartsWith(file, "./")
    && exists k :: 0 <= k < |exts| && EndsWith(file, exts[k])
  }

  /** What a build tool can report: u32 positions in a source file, and a one-line trimmed message under a
      severity; without a token it is an error, whose message does not begin with one. */
  ghost predicate Reportable(d: Diagnostic, shape: Shape, exts: seq<string>) {
    && (if shape.token.Some? then shape.token.value in LEVELS && d.level == LEVELS[shape.token.value]
        else d.level == "error" && !HasLevel(d.message))
    && d.message != "" && IsTrimmed(d.message) && '\n' !in d.message
    && IsSourceFile(d.file, exts)
    && d.line < 0x1_0000_0000 && (d.column.Some? ==> d.column.value < 0x1_0000_0000)
    && d.rendered == Print(shape, d.message, d.file, d.line, d.column)
  }

  predicate EndsWith(s: string, ext: string) {
    |ext| <= |s| && s[|s| - |ext|..] == ext
  }

  // ----------------------------------------------------- the file prefix

  lemma NoColonInFile(file: string, rest: string)
    requires ':' !in file
    ensures var line := file + ":" + rest;
            line[|file|] == ':' && forall m :: 0 <= m < |file| ==> line[m] != ':'
  {
    assert forall m :: 0 <= m < |file| ==> file[m] in file;
  }

  lemma OccurrenceHasColon(line: string, ext: string, i: nat)
    requires i <= |line| && StartsWith(line[i..], ext + ":")
    ensures i + |ext| < |line| && line[i + |ext|] == ':'
  {
    assert line[i..][..|ext| + 1][|ext|] == (ext + ":")[|ext|];
  }

  lemma FoundStarts(line: string, p: string)
    ensures var i := Find(line, p); i.Some? ==> StartsWith(line[i.value..], p)
  {
    var i := Find(line, p);
    if i.Some? {
      assert line[i.value..][..|p|] == line[i.value..i.value + |p|];
    }
  }

  /** An extension can only be found at or after the first colon of the line. */
  lemma CandidateNotBefore(file: string, rest: string, ext: string)
    requires ':' !in file
    ensures var r := Candidate(file + ":" + rest, ext);
            r.Some? ==> r.value >= |file|
  {
    var line := file + ":" + rest;
    NoColonInFile(file, rest);
    FoundStarts(line, ext + ":");
    var i := Find(line, ext + ":");
    if i.Some? {
      OccurrenceHasColon(line, ext, i.value);
    }
  }

  /** The extension at the file's end, with the colon that follows. */
  lemma ExtensionAt(init: string, ext: string, rest: string)
    ensures var line := init + ext + ":" + rest;
            line[|init|..|init| + |ext + ":"|] == ext + ":" && line[..|init| + |ext|] == init + ext
  {
  }

  lemma CandidateAtEnd(file: string, rest: string, ext: string)
    requires ':' !in file && ' ' !in file && EndsWith(file, ext)
    ensures Candidate(file + ":" + rest, ext) == Some(|file|)
  {
    var line, init := file + ":" + rest, file[..|file| - |ext|];
    assert file == init + ext;
    ExtensionAt(init, ext, rest);
    NoColonInFile(file, rest);
    forall i | 0 <= i < |init| ensures !StartsWith(line[i..], ext + ":") {
      if StartsWith(line[i..], ext + ":") {
        OccurrenceHasColon(line, ext, i);
      }
    }
    FindIs(line, ext + ":", |init|);
  }

  lemma {:induction false} LeastCandidate(line: string, exts: seq<string>, k: nat, n: nat)
    requires k < |exts| && Candidate(line, exts[k]) == Some(n)
    requires forall m :: 0 <= m < |exts| && Candidate(line, exts[m]).Some? ==> Candidate(line, exts[m]).value >= n
    ensures BestEnd(line, exts) == Some(n)
  {
  }

  lemma BestIsFileEnd(file: string, rest: string, exts: seq<string>, k: nat)
    requires ':' !in file && ' ' !in file
    requires k < |exts| && EndsWith(file, exts[k])
    ensures BestEnd(file + ":" + rest, exts) == Some(|file|)
  {
    CandidateAtEnd(file, rest, exts[k]);
    forall m | 0 <= m < |exts|
      ensures Candidate(file + ":" + rest, exts[m]).Some? ==> Candidate(file + ":" + rest, exts[m]).value >= |file|
    {
      CandidateNotBefore(file, rest, exts[m]);
    }
    LeastCandidate(file + ":" + rest, exts, k, |file|);
  }

  lemma {:induction false} DotsTrimmed(n: nat, file: string)
    requires !StartsWith(file, "./")
    ensures TrimDotSlash(Dots(n) + file) == file
  {
    if n == 0 {
      assert Dots(0) + file == file;
    } else {
      DotsTrimmed(n - 1, file);
      OneDotTrimmed(Dots(n - 1), file);
    }
  }

  lemma {:induction false} OneDotTrimmed(dots: string, file: string)
    ensures TrimDotSlash("./" + dots + file) == TrimDotSlash(dots + file)
  {
    var s := "./" + dots + file;
    assert s[..2] == "./" && s[2..] == dots + file;
  }

  lemma {:induction false} DotsArePlain(n: nat, c: char)
    requires c != '.' && c != '/'
    ensures c !in Dots(n)
  {
    if n > 0 {
      DotsArePlain(n - 1, c);
    }
  }

  /** What the file is written as, with its leading `./`. */
  lemma {:induction false} PathIsPlain(dots: nat, file: string, exts: seq<string>)
    requires IsSourceFile(file, exts)
    ensures var path := Dots(dots) + file;
            path != "" && !IsWhitespace(path[0]) && ':' !in path && ' ' !in path && '\n' !in path
  {
    DotsArePlain(dots, ':');
    DotsArePlain(dots, ' ');
    DotsArePlain(dots, '\n');
    if dots > 0 {
      assert Dots(dots)[0] == '.';
    } else {
      assert Dots(0) + file == file;
    }
  }

  lemma {:induction false} EndsWithMore(before: string, s: string, ext: string)
    requires EndsWith(s, ext)
    ensures EndsWith(before + s, ext)
  {
    assert (before + s)[|before + s| - |ext|..] == s[|s| - |ext|..];
  }

  /** A line is split at the end of its file, which loses its leading `./`. */
  lemma {:induction false} FileSplits(dots: nat, file: string, rest: string, exts: seq<string>)
    requires IsSourceFile(file, exts)
    ensures SplitFile(Dots(dots) + file + ":" + rest, exts) == Some((file, ":" + rest))
  {
    var path := Dots(dots) + file;
    var k :| 0 <= k < |exts| && EndsWith(file, exts[k]);
    DotsTrimmed(dots, file);
    PathIsPlain(dots, file, exts);
    EndsWithMore(Dots(dots), file, exts[k]);
    BestIsFileEnd(path, rest, exts, k);
    SplitAtEnd(path, rest, exts);
  }

  lemma {:induction false} SplitAtEnd(path: string, rest: string, exts: seq<string>)
    requires BestEnd(path + ":" + rest, exts) == Some(|path|)
    ensures SplitFile(path + ":" + rest, exts) == Some((TrimDotSlash(path), ":" + rest))
  {
    PrefixOf(path, ":" + rest);
    Regroup(path, ":", rest);
  }

  lemma PrefixOf(a: string, b: string)
    ensures (a + b)[..|a|] == a && (a + b)[|a|..] == b
  {
  }

  // ---------------------------------------------------------- the numbers

  lemma {:induction false} DigitsEndAt(digits: string, rest: string)
    requires AllDigits(digits) && (rest == [] || !IsDigit(rest[0]))
    ensures DigitsEnd(digits + rest) == |digits|
  {
    if digits == [] {
      assert digits + rest == rest;
    } else {
      assert (digits + rest)[1..] == digits[1..] + rest;
      DigitsEndAt(digits[1..], rest);
    }
  }

  lemma TakesPrinted(n: nat, rest: string)
    requires n <= U32_MAX && (rest == [] || !IsDigit(rest[0]))
    ensures TakeNumber(PrintNat(n) + rest) == Some((n, rest))
  {
    var s := PrintNat(n) + rest;
    DigitsEndAt(PrintNat(n), rest);
    assert s[..|PrintNat(n)|] == PrintNat(n) && s[|PrintNat(n)|..] == rest;
    ParsePrinted(n, U32_MAX);
  }

  // ------------------------------------------------------ level and message

  lemma {:induction false} LevelsAreTokens(token: string)
    ensures LevelOf(token) == if token in LEVELS then Some(LEVELS[token]) else None
    ensures token in LEVELS ==> token != "" && IsTrimmed(token) && ':' !in token && '\n' !in token
  {
  }

  lemma {:induction false} LevelParses(token: string, message: string, requireLevel: bool)
    requires token in LEVELS && IsTrimmed(message)
    ensures LevelAndMessage(token + ":" + (" " + message), requireLevel) == Some((LEVELS[token], message))
  {
    LevelsAreTokens(token);
    SplitOnceFirst(token, ':', " " + message);
    TrimIsTrimmed(token);
    TrimPaddedStart(" ", message);
    TrimIsTrimmed(message);
  }

  lemma {:induction false} SpaceIsTrimmed(text: string)
    requires text != "" && !IsWhitespace(text[0])
    ensures TrimStart(" " + text) == text
  {
    TrimStartSkips(" ", text);
  }

  lemma {:induction false} BareParses(message: string, requireLevel: bool)
    requires !HasLevel(message)
    ensures LevelAndMessage(message, requireLevel) == if requireLevel then None else Some(("error", message))
  {
    var split := SplitOnce(message, ':');
    if split.Some? {
      LevelsAreTokens(Trim(split.value.0));
    }
  }

  /** With a token the diagnostic is read; without one only if none is required. */
  lemma {:induction false} MessageParses(d: Diagnostic, shape: Shape, exts: seq<string>, requireLevel: bool)
    requires Reportable(d, shape, exts)
    ensures ParseMessage(d.rendered, d.file, d.line, d.column, " " + Tagged(shape.token, d.message), requireLevel) ==
            if requireLevel && shape.token.None? then None else Some(d)
  {
    TrimIsTrimmed(d.message);
    if shape.token.Some? {
      var token := shape.token.value;
      LevelsAreTokens(token);
      RegroupMessage(token, d.message);
      assert (token + (":" + (" " + d.message)))[0] == token[0];
      SpaceIsTrimmed(token + (":" + (" " + d.message)));
      LevelParses(token, d.message, requireLevel);
    } else {
      SpaceIsTrimmed(d.message);
      BareParses(d.message, requireLevel);
    }
  }

  lemma RegroupMessage(level: string, message: string)
    ensures " " + (level + ": " + message) == " " + (level + (":" + (" " + message)))
    ensures level + (":" + (" " + message)) == level + ":" + (" " + message)
  {
    assert ": " == ":" + " ";
  }

  lemma ColumnParses(d: Diagnostic, tail: string, requireLevel: bool)
    requires d.column.Some? ==> d.column.value <= U32_MAX
    requires tail != "" && tail[0] == ' '
    ensures ParseColumn(d.rendered, d.file, d.line, PrintColumn(d.column) + tail, requireLevel) ==
            ParseMessage(d.rendered, d.file, d.line, d.column, tail, requireLevel)
  {
    if d.column.Some? {
      var c := d.column.value;
      assert PrintColumn(d.column) + tail == PrintNat(c) + (":" + tail);
      TakesPrinted(c, ":" + tail);
      ColonStrips(tail);
    } else {
      assert PrintColumn(d.column) + tail == tail;
      assert DigitsEnd(tail) == 0;
    }
  }

  lemma ColonStrips(tail: string)
    ensures StripPrefix(":" + tail, ":") == Some(tail)
  {
    assert (":" + tail)[1..] == tail;
  }

  lemma {:induction false} FileParses(line: string, dots: nat, file: string, after: string, exts: seq<string>,
                                      requireLevel: bool)
    requires IsSourceFile(file, exts) && line == Dots(dots) + file + ":" + after
    ensures ParseOne(line, exts, requireLevel) == ParseLineNumber(line, file, after, requireLevel)
  {
    FileSplits(dots, file, after, exts);
    ColonStrips(after);
  }

  /** A printed diagnostic parses back to itself, or to nothing if a level is required and it has none. */
  lemma {:induction false} PrintedParses(d: Diagnostic, shape: Shape, exts: seq<string>, requireLevel: bool)
    requires Reportable(d, shape, exts)
    ensures ParseOne(d.rendered, exts, requireLevel) ==
            if requireLevel && shape.token.None? then None else Some(d)
  {
    var tail := " " + Tagged(shape.token, d.message);
    var afterLine := PrintColumn(d.column) + tail;
    FileParses(d.rendered, shape.dots, d.file, PrintNat(d.line) + ":" + afterLine, exts, requireLevel);
    LineNumberParses(d, afterLine, requireLevel);
    ColumnParses(d, tail, requireLevel);
    MessageParses(d, shape, exts, requireLevel);
  }

  lemma LineNumberParses(d: Diagnostic, afterLine: string, requireLevel: bool)
    requires d.line <= U32_MAX
    ensures ParseLineNumber(d.rendered, d.file, PrintNat(d.line) + ":" + afterLine, requireLevel) ==
            ParseColumn(d.rendered, d.file, d.line, afterLine, requireLevel)
  {
    assert PrintNat(d.line) + ":" + afterLine == PrintNat(d.line) + (":" + afterLine);
    TakesPrinted(d.line, ":" + afterLine);
    ColonStrips(afterLine);
  }

  // -------------------------------------------------------------- whole logs

  /** A line of build output: a diagnostic, a line that names a source file without a line number behind
      it, or text that names no file in front of a colon. */
  datatype Item =
    | Report(d: Diagnostic, shape: Shape)
    | Unplaced(dots: nat, file: string, after: string)
    | Noise(text: string)

  /** What follows the file is no u32 line number with a colon behind it. */
  predicate LacksLineNumber(after: string) {
    var n := DigitsEnd(after);
    n == 0 || DigitsValue(after[..n]) >= 0x1_0000_0000 || n == |after| || after[n] != ':'
  }

  /** Every `ext:` in the line has a space somewhere before it. */
  predicate LacksFilePrefix(line: string, exts: seq<string>) {
    forall k, i :: 0 <= k < |exts| && 0 <= i <= |line| && StartsWith(line[i..], exts[k] + ":") ==>
                     ' ' in line[..i + |exts[k]|]
  }

  ghost predicate WellFormed(items: seq<Item>, exts: seq<string>) {
    forall item :: item in items ==>
      match item
      case Report(d, shape) => Reportable(d, shape, exts)
      case Unplaced(dots, file, after) =>
        IsSourceFile(file, exts) && LacksLineNumber(after) && '\n' !in after &&
        IsTrimmed(Dots(dots) + file + ":" + after)
      case Noise(text) => '\n' !in text && LacksFilePrefix(Trim(text), exts)
  }

  function ItemLine(item: Item): string {
    match item
    case Report(d, _) => d.rendered
    case Unplaced(dots, file, after) => Dots(dots) + file + ":" + after
    case Noise(text) => text
  }

  function Log(items: seq<Item>): string {
    if items == [] then "" else ItemLine(items[0]) + "\n" + Log(items[1..])
  }

  /** The diagnostics that are to be found: those with a severity, and the others if none is required. */
  function Reports(items: seq<Item>, requireLevel: bool): seq<Diagnostic> {
    if items == [] then []
    else
      (if items[0].Report? && (items[0].shape.token.Some? || !requireLevel) then [items[0].d] else []) +
      Reports(items[1..], requireLevel)
  }

  lemma {:induction false} DigitsAreNotNewlines(n: nat)
    ensures '\n' !in PrintNat(n)
  {
  }

  lemma {:induction false} RenderedIsOneTrimmedLine(d: Diagnostic, shape: Shape, exts: seq<string>)
    requires Reportable(d, shape, exts)
    ensures '\n' !in d.rendered && IsTrimmed(d.rendered)
  {
    var path, tagged := Dots(shape.dots) + d.file, Tagged(shape.token, d.message);
    PathIsPlain(shape.dots, d.file, exts);
    TaggedIsPlain(d, shape, exts);
    NumbersArePlain(d.line, d.column);
    LineIsPlain(path, PrintNat(d.line), PrintColumn(d.column), tagged);
  }

  lemma {:induction false} TaggedIsPlain(d: Diagnostic, shape: Shape, exts: seq<string>)
    requires Reportable(d, shape, exts)
    ensures var tagged := Tagged(shape.token, d.message);
            tagged != "" && !IsWhitespace(tagged[|tagged| - 1]) && '\n' !in tagged
  {
    if shape.token.Some? {
      LevelsAreTokens(shape.token.value);
    }
  }

  lemma {:induction false} NumbersArePlain(line: nat, column: Option<nat>)
    ensures '\n' !in PrintNat(line) && '\n' !in PrintColumn(column)
  {
    DigitsAreNotNewlines(line);
    if column.Some? {
      DigitsAreNotNewlines(column.value);
    }
  }

  lemma {:induction false} LineIsPlain(path: string, line: string, column: string, tagged: string)
    requires path != "" && !IsWhitespace(path[0]) && '\n' !in path && '\n' !in line && '\n' !in column
    requires tagged != "" && !IsWhitespace(tagged[|tagged| - 1]) && '\n' !in tagged
    ensures var text := path + ":" + (line + ":" + (column + (" " + tagged)));
            '\n' !in text && IsTrimmed(text)
  {
    var tail := line + ":" + (column + (" " + tagged));
    var text := path + ":" + tail;
    assert '\n' !in tail;
    assert tail[|tail| - 1] == tagged[|tagged| - 1];
    assert text[0] == path[0] && text[|text| - 1] == tail[|tail| - 1];
  }

  /** A source file with no line number behind it is skipped. */
  lemma {:induction false} UnplacedIsSkipped(dots: nat, file: string, after: string, exts: seq<string>,
                                             requireLevel: bool)
    requires IsSourceFile(file, exts) && LacksLineNumber(after)
    ensures ParseOne(Dots(dots) + file + ":" + after, exts, requireLevel).None?
  {
    FileParses(Dots(dots) + file + ":" + after, dots, file, after, exts, requireLevel);
    NoLineNumber(Dots(dots) + file + ":" + after, file, after, requireLevel);
  }

  lemma {:induction false} NoLineNumber(line: string, file: string, after: string, requireLevel: bool)
    requires LacksLineNumber(after)
    ensures ParseLineNumber(line, file, after, requireLevel).None?
  {
    var n := DigitsEnd(after);
    TakesDigits(after);
    NoColon(after[n..]);
  }

  lemma {:induction false} TakesDigits(s: string)
    ensures var n := DigitsEnd(s);
            TakeNumber(s) ==
            if n == 0 || DigitsValue(s[..n]) > U32_MAX then None else Some((DigitsValue(s[..n]), s[n..]))
  {
    var n := DigitsEnd(s);
    if n > 0 {
      DigitsParse(s[..n], U32_MAX);
    }
  }

  lemma {:induction false} DigitsParse(digits: string, max: nat)
    requires digits != "" && AllDigits(digits)
    ensures ParseUnsigned(digits, max) == if DigitsValue(digits) > max then None else Some(DigitsValue(digits))
  {
    assert IsDigit(digits[0]);
  }

  lemma {:induction false} NoColon(s: string)
    ensures s == "" || s[0] != ':' ==> StripPrefix(s, ":").None?
  {
    assert s != "" ==> s[..1] == [s[0]];
  }

  /** So is a diagnostic without any message. */
  lemma {:induction false} EmptyIsSkipped(shape: Shape, file: string, line: nat, column: Option<nat>,
                                          exts: seq<string>, requireLevel: bool)
    requires IsSourceFile(file, exts) && line < 0x1_0000_0000 && (column.Some? ==> column.value < 0x1_0000_0000)
    requires shape.token.Some? ==> shape.token.value in LEVELS
    ensures ParseOne(Print(shape, "", file, line, column), exts, requireLevel).None?
  {
    var text := Print(shape, "", file, line, column);
    var d := Diagnostic("", "", file, line, column, text);
    var tail := " " + Tagged(shape.token, "");
    FileParses(text, shape.dots, file, PrintNat(line) + ":" + (PrintColumn(column) + tail), exts, requireLevel);
    LineNumberParses(d, PrintColumn(column) + tail, requireLevel);
    ColumnParses(d, tail, requireLevel);
    EmptyMessage(d, shape, requireLevel);
  }

  lemma {:induction false} EmptyMessage(d: Diagnostic, shape: Shape, requireLevel: bool)
    requires shape.token.Some? ==> shape.token.value in LEVELS
    ensures ParseMessage(d.rendered, d.file, d.line, d.column, " " + Tagged(shape.token, ""), requireLevel).None?
  {
    if shape.token.Some? {
      var token := shape.token.value;
      LevelsAreTokens(token);
      RegroupMessage(token, "");
      assert (token + (":" + (" " + "")))[0] == token[0];
      SpaceIsTrimmed(token + (":" + (" " + "")));
      LevelParses(token, "", requireLevel);
    } else {
      AllTrimmed(" ");
      assert " " + "" == " ";
    }
  }

  lemma NoiseIsSkipped(line: string, exts: seq<string>, requireLevel: bool)
    requires LacksFilePrefix(line, exts)
    ensures ParseOne(line, exts, requireLevel).None?
  {
    forall k | 0 <= k < |exts| ensures Candidate(line, exts[k]).None? {
      FoundStarts(line, exts[k] + ":");
    }
  }

  lemma ChompTrims(line: string)
    ensures Trim(Chomp(line)) == Trim(line)
  {
    if EndsWithChar(line, '\r') {
      assert line == Chomp(line) + "\r";
      TrimPaddedEnd(Chomp(line), "\r");
    }
  }

  lemma {:induction false} ReportParses(d: Diagnostic, shape: Shape, exts: seq<string>, requireLevel: bool)
    requires Reportable(d, shape, exts)
    ensures '\n' !in d.rendered
    ensures ParseOne(Trim(d.rendered), exts, requireLevel) ==
            if shape.token.Some? || !requireLevel then Some(d) else None
  {
    RenderedIsOneTrimmedLine(d, shape, exts);
    TrimIsTrimmed(d.rendered);
    PrintedParses(d, shape, exts, requireLevel);
  }

  lemma {:induction false} UnplacedParses(dots: nat, file: string, after: string, exts: seq<string>,
                                          requireLevel: bool)
    requires IsSourceFile(file, exts) && LacksLineNumber(after) && '\n' !in after
    requires IsTrimmed(Dots(dots) + file + ":" + after)
    ensures '\n' !in Dots(dots) + file + ":" + after
    ensures ParseOne(Trim(Dots(dots) + file + ":" + after), exts, requireLevel).None?
  {
    PathIsPlain(dots, file, exts);
    TrimIsTrimmed(Dots(dots) + file + ":" + after);
    UnplacedIsSkipped(dots, file, after, exts, requireLevel);
  }

  /** One line of the log, white space around it gone. */
  lemma {:induction false} LineParses(item: Item, exts: seq<string>, requireLevel: bool)
    requires WellFormed([item], exts)
    ensures '\n' !in ItemLine(item)
    ensures ParseOne(Trim(ItemLine(item)), exts, requireLevel) ==
            if item.Report? && (item.shape.token.Some? || !requireLevel) then Some(item.d) else None
  {
    assert item in [item];
    match item
    case Report(d, shape) => ReportParses(d, shape, exts, requireLevel);
    case Unplaced(dots, file, after) => UnplacedParses(dots, file, after, exts, requireLevel);
    case Noise(text) =>
      NoiseIsSkipped(Trim(text), exts, requireLevel);
  }

  /** Build output made of printed diagnostics and lines of the two other kinds, in any order, parses back
      to exactly the diagnostics that are to be found. */
  lemma {:induction false} LogRoundTrip(items: seq<Item>, exts: seq<string>, requireLevel: bool)
    requires WellFormed(items, exts)
    ensures ParseColonDiagnostics(Log(items), exts, requireLevel) == Reports(items, requireLevel)
    decreases |items|
  {
    if items != [] {
      var item, rest := items[0], items[1..];
      assert item in items && forall x :: x in rest ==> x in items;
      var line := ItemLine(item);
      LineParses(item, exts, requireLevel);
      LinesCons(line, Log(rest));
      ChompTrims(line);
      LogRoundTrip(rest, exts, requireLevel);
      var lines := Lines(Log(items));
      assert lines[0] == Chomp(line) && lines[1..] == Lines(Log(rest));
    }
  }
}
