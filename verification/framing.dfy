/** Content-Length framing over a byte stream (crates/aide-proto/src/framing.rs), as the LSP base
    protocol has it in its section "Header Part". */
module Framing {
  import opened Common
  import opened Wrappers
  import opened Strings
  import opened TextPositions
  import opened Utf8

  const USIZE_MAX: nat := 0xFFFF_FFFF_FFFF_FFFF
  const CONTENT_LENGTH := "Content-Length"

  /** Io stands for both a line that is not UTF-8 and a body cut short by the end of the stream. */
  datatype FramingError =
    | Io
    | Eof
    | BadHeader(line: string)
    | NoContentLength
    | BadContentLength(value: string)

  // ---------------------------------------------------------------- writing

  function Frame(payload: seq<Byte>): seq<Byte> {
    Encode(CONTENT_LENGTH + ": " + PrintNat(|payload|) + "\r\n\r\n") + payload
  }

  class Writer {
    var output: seq<Byte>

    constructor ()
      ensures output == []
    {
      output := [];
    }

    method WriteMessage(bytes: seq<Byte>)
      modifies this
      ensures output == old(output) + Frame(bytes)
      ensures output == old(output) + (Encode("Content-Length" + ": " + PrintNat(|bytes|) + "\r\n\r\n") + bytes)
    {
      var header := CONTENT_LENGTH + ": " + PrintNat(|bytes|) + "\r\n\r\n";
      output := output + Encode(header);
      output := output + bytes;
      Regroup(old(output), Encode(header), bytes);
    }
  }

  // ---------------------------------------------------------------- reading

  /** How many bytes the next line takes, its newline included. */
  function LineLength(input: seq<Byte>): (n: nat)
    ensures n <= |input|
    ensures input != [] ==> n > 0
  {
    if input == [] then 0 else if input[0] == NEWLINE then 1 else 1 + LineLength(input[1..])
  }

  function TrimEol(s: string): (r: string)
    ensures r <= s
    ensures forall i :: |r| <= i < |s| ==> s[i] == '\r' || s[i] == '\n'
  {
    if s != "" && (s[|s| - 1] == '\r' || s[|s| - 1] == '\n') then TrimEol(s[..|s| - 1]) else s
  }

  function ToLower(c: char): char {
    if 'A' <= c <= 'Z' then (c as int + 32) as char else c
  }

  predicate EqIgnoreAsciiCase(a: string, b: string) {
    |a| == |b| && forall i :: 0 <= i < |a| ==> ToLower(a[i]) == ToLower(b[i])
  }

  predicate NamesLength(name: string) {
    EqIgnoreAsciiCase(name, CONTENT_LENGTH)
  }

  /** What one header does to the length found so far. */
  function Field(name: string, value: string, found: Option<nat>): Result<Option<nat>, FramingError> {
    if !NamesLength(name) then Ok(found)
    else
      var parsed := ParseUnsigned(Trim(value), USIZE_MAX);
      if parsed.None? then Err(BadContentLength(Trim(value))) else Ok(parsed)
  }

  /** The same letter, capital or not, of the ASCII alphabet, or the same character. */
  predicate SameLetter(a: char, b: char) {
    || a == b
    || ('A' <= a <= 'Z' && b as int == a as int - 'A' as int + 'a' as int)
    || ('A' <= b <= 'Z' && a as int == b as int - 'A' as int + 'a' as int)
  }

  /** A header announces the length if its name is that of LSP but for the case of ASCII letters; it then counts
      if its value, trimmed, spells a number of 64 bits. */
  lemma {:induction false} FieldIs(name: string, value: string, found: Option<nat>, n: nat)
    ensures var announces := |name| == 14 && forall i :: 0 <= i < 14 ==> SameLetter(name[i], "Content-Length"[i]);
            var r := Field(name, value, found);
            && (!announces ==> r == Ok(found))
            && (announces && r.Ok? ==> r.value.Some?)
            && (announces && r.Err? ==> r.error == BadContentLength(Trim(value)))
            && (announces ==> (r == Ok(Some(n)) <==>
                                 n < 0x1_0000_0000_0000_0000 &&
                                 exists plus: bool, zeros: nat :: Spells(Trim(value), n, plus, zeros)))
  {
    ParsesIff(Trim(value), USIZE_MAX, n);
    LettersFold(name, CONTENT_LENGTH);
  }

  lemma {:induction false} LettersFold(a: string, b: string)
    ensures EqIgnoreAsciiCase(a, b) <==> |a| == |b| && forall i :: 0 <= i < |a| ==> SameLetter(a[i], b[i])
  {
    if |a| == |b| {
      forall i | 0 <= i < |a| ensures ToLower(a[i]) == ToLower(b[i]) <==> SameLetter(a[i], b[i]) {
        LetterFolds(a[i], b[i]);
      }
    }
  }

  lemma LetterFolds(a: char, b: char)
    ensures ToLower(a) == ToLower(b) <==> SameLetter(a, b)
  {
  }

  function HeaderLine(line: string, found: Option<nat>): Result<Option<nat>, FramingError> {
    var parts := SplitOnce(line, ':');
    if parts.None? then Err(BadHeader(line)) else Field(parts.value.0, parts.value.1, found)
  }

  /** The announced length and what follows the headers. */
  function ReadHeaders(input: seq<Byte>, found: Option<nat>): (r: (Result<nat, FramingError>, seq<Byte>))
    ensures |r.1| <= |input| && r.1 == input[|input| - |r.1|..]
    ensures r.0.Ok? ==> |r.1| < |input|
    decreases |input|
  {
    if input == [] then (Err(Eof), [])
    else
      var n := LineLength(input);
      var text := Decode(input[..n]);
      var rest := input[n..];
      if text.None? then (Err(Io), rest)
      else
        var line := TrimEol(text.value);
        if line == "" then (if found.None? then Err(NoContentLength) else Ok(found.value), rest)
        else
          var next := HeaderLine(line, found);
          if next.Err? then (Err(next.error), rest) else ReadHeaders(rest, next.value)
  }

  function Received(input: seq<Byte>): (r: (Result<seq<Byte>, FramingError>, seq<Byte>))
    ensures |r.1| <= |input| && r.1 == input[|input| - |r.1|..]
    ensures r.0.Ok? ==> |r.1| < |input|
  {
    var (length, rest) := ReadHeaders(input, None);
    if length.Err? then (Err(length.error), rest)
    else if length.value > |rest| then (Err(Io), [])
    else (Ok(rest[..length.value]), rest[length.value..])
  }

  class Reader {
    var input: seq<Byte>

    constructor (bytes: seq<Byte>)
      ensures input == bytes
    {
      input := bytes;
    }

    method ReadLine() returns (line: seq<Byte>)
      modifies this
      ensures line == old(input)[..LineLength(old(input))]
      ensures input == old(input)[LineLength(old(input))..]
    {
      var n := LineLength(input);
      line := input[..n];
      input := input[n..];
    }

    method ReadMessage() returns (r: Result<seq<Byte>, FramingError>)
      modifies this
      ensures (r, input) == Received(old(input))
    {
      var contentLength: Option<nat> := None;
      while true
        invariant ReadHeaders(input, contentLength) == ReadHeaders(old(input), None)
        decreases |input|
      {
        if input == [] {
          return Err(Eof);
        }
        var bytes := ReadLine();
        var text := Decode(bytes);
        if text.None? {
          return Err(Io);
        }
        var line := TrimEol(text.value);
        if line == "" {
          break;
        }
        var parts := SplitOnce(line, ':');
        if parts.None? {
          return Err(BadHeader(line));
        }
        if NamesLength(parts.value.0) {
          var value := Trim(parts.value.1);
          var parsed := ParseUnsigned(value, USIZE_MAX);
          if parsed.None? {
            return Err(BadContentLength(value));
          }
          contentLength := parsed;
        }
      }
      if contentLength.None? {
        return Err(NoContentLength);
      }
      var length := contentLength.value;
      if length > |input| {
        input := [];
        return Err(Io);
      }
      r := Ok(input[..length]);
      input := input[length..];
    }
  }

  // ------------------------------------------------- well-formed header blocks

  /** A header as sent. A carriage return before the line feed, if any, ends the value. */
  datatype Header = Header(name: string, value: string)

  predicate WellFormed(h: Header) {
    ':' !in h.name && '\n' !in h.name && '\n' !in h.value
  }

  function Line(h: Header): string {
    h.name + [':'] + h.value
  }

  function Block(headers: seq<Header>): seq<Byte> {
    if headers == [] then [] else Encode(Line(headers[0])) + [NEWLINE] + Block(headers[1..])
  }

  /** The blank line that ends a block: carriage returns at most, and a line feed. */
  predicate IsBlank(s: string) {
    |s| > 0 && s[|s| - 1] == '\n' && forall i :: 0 <= i < |s| - 1 ==> s[i] == '\r'
  }

  function LastLength(headers: seq<Header>, found: Option<nat>): Result<Option<nat>, FramingError> {
    if headers == [] then Ok(found)
    else
      var next := Field(headers[0].name, headers[0].value, found);
      if next.Err? then next else LastLength(headers[1..], next.value)
  }

  lemma {:induction false} LineEndsAtNewline(line: seq<Byte>, rest: seq<Byte>)
    requires NEWLINE !in line
    ensures LineLength(line + [NEWLINE] + rest) == |line| + 1
  {
    var input := line + [NEWLINE] + rest;
    if line != [] {
      assert input[0] == line[0] && input[0] in line;
      assert input[1..] == line[1..] + [NEWLINE] + rest;
      LineEndsAtNewline(line[1..], rest);
    }
  }

  /** The line read back from an encoded one-line text. */
  lemma LineDecodes(line: string, rest: seq<Byte>)
    requires '\n' !in line
    ensures var input := Encode(line) + [NEWLINE] + rest;
            var n := LineLength(input);
            Decode(input[..n]) == Some(line + "\n") && input[n..] == rest
  {
    var input := Encode(line) + [NEWLINE] + rest;
    NoNewlineEncoded(line);
    LineEndsAtNewline(Encode(line), rest);
    assert (line + "\n")[..|line|] == line;
    assert Encode(line + "\n") == Encode(line) + [NEWLINE];
    assert input[..|Encode(line)| + 1] == Encode(line) + [NEWLINE];
    assert input[|Encode(line)| + 1..] == rest;
    DecodesEncoded(line + "\n");
  }

  lemma {:induction false} TrimEolOf(before: string, c: char, value: string)
    requires c != '\r' && c != '\n'
    ensures TrimEol(before + [c] + value) == before + [c] + TrimEol(value)
    decreases |value|
  {
    var s := before + [c] + value;
    if value == "" {
      assert s[|s| - 1] == c;
    } else {
      var init := value[..|value| - 1];
      assert s[|s| - 1] == value[|value| - 1];
      if value[|value| - 1] == '\r' || value[|value| - 1] == '\n' {
        assert s[..|s| - 1] == before + [c] + init;
        TrimEolOf(before, c, init);
      }
    }
  }

  lemma TrimAfterTrimEol(value: string)
    ensures Trim(TrimEol(value + "\n")) == Trim(value)
  {
    var init := value + "\n";
    assert init[..|init| - 1] == value;
    var kept := TrimEol(value);
    assert value == kept + value[|kept|..];
    TrimPaddedEnd(kept, value[|kept|..]);
  }

  lemma HeaderLineReads(h: Header, found: Option<nat>)
    requires WellFormed(h)
    ensures TrimEol(Line(h) + "\n") != ""
    ensures HeaderLine(TrimEol(Line(h) + "\n"), found) == Field(h.name, h.value, found)
  {
    LineTrims(h);
    SplitOnceFirst(h.name, ':', TrimEol(h.value + "\n"));
    TrimAfterTrimEol(h.value);
  }

  lemma LineTrims(h: Header)
    ensures TrimEol(Line(h) + "\n") == h.name + [':'] + TrimEol(h.value + "\n")
  {
    Regroup(h.name + [':'], h.value, "\n");
    TrimEolOf(h.name, ':', h.value + "\n");
  }

  lemma OneLine(h: Header)
    requires WellFormed(h)
    ensures '\n' !in Line(h)
  {
  }

  lemma {:induction false} BlankIsEmpty(blank: string)
    requires IsBlank(blank)
    ensures TrimEol(blank) == ""
    ensures blank == blank[..|blank| - 1] + "\n" && '\n' !in blank[..|blank| - 1]
  {
    var kept := TrimEol(blank);
    TrimmedLast(blank);
  }

  lemma TrimmedLast(s: string)
    ensures TrimEol(s) == "" || (TrimEol(s)[|TrimEol(s)| - 1] != '\r' && TrimEol(s)[|TrimEol(s)| - 1] != '\n')
  {
  }

  lemma BlankReads(blank: string, rest: seq<Byte>, found: Option<nat>)
    requires IsBlank(blank)
    ensures ReadHeaders(Encode(blank) + rest, found) ==
            (if found.None? then Err(NoContentLength) else Ok(found.value), rest)
  {
    var line := blank[..|blank| - 1];
    BlankIsEmpty(blank);
    LineDecodes(line, rest);
    assert Encode(blank) == Encode(line) + [NEWLINE];
  }

  lemma HeaderThen(h: Header, rest: seq<Byte>, found: Option<nat>)
    requires WellFormed(h)
    ensures var next := Field(h.name, h.value, found);
            var r := ReadHeaders(Encode(Line(h)) + [NEWLINE] + rest, found);
            if next.Err? then r.0 == Err(next.error) else r == ReadHeaders(rest, next.value)
  {
    OneLine(h);
    LineDecodes(Line(h), rest);
    HeaderLineReads(h, found);
  }

  /** Reading any block of well-formed headers: the last Content-Length decides, a bad one or the
      lack of one is the error reported. */
  lemma {:induction false} BlockReads(headers: seq<Header>, blank: string, rest: seq<Byte>, found: Option<nat>)
    requires (forall h :: h in headers ==> WellFormed(h)) && IsBlank(blank)
    ensures var r := ReadHeaders(Block(headers) + Encode(blank) + rest, found);
            var length := LastLength(headers, found);
            if length.Err? then r.0 == Err(length.error)
            else if length.value.None? then r == (Err(NoContentLength), rest)
            else r == (Ok(length.value.value), rest)
  {
    if headers == [] {
      assert Block(headers) + Encode(blank) == Encode(blank);
      BlankReads(blank, rest, found);
    } else {
      var tail := Block(headers[1..]) + Encode(blank) + rest;
      RegroupFour(Encode(Line(headers[0])) + [NEWLINE], Block(headers[1..]), Encode(blank), rest);
      assert headers[0] in headers;
      HeaderThen(headers[0], tail, found);
      var next := Field(headers[0].name, headers[0].value, found);
      if next.Ok? {
        BlockReads(headers[1..], blank, rest, next.value);
      }
    }
  }

  lemma RegroupFour<T>(a: seq<T>, b: seq<T>, c: seq<T>, d: seq<T>)
    ensures a + b + c + d == a + (b + c + d)
  {
  }

  /** A body behind any well-formed headers that announce its length is delivered whole, and the
      reader stands right after it. */
  lemma MessageReads(headers: seq<Header>, blank: string, payload: seq<Byte>, rest: seq<Byte>)
    requires (forall h :: h in headers ==> WellFormed(h)) && IsBlank(blank)
    requires LastLength(headers, None) == Ok(Some(|payload|))
    ensures Received(Block(headers) + Encode(blank) + (payload + rest)) == (Ok(payload), rest)
  {
    BlockReads(headers, blank, payload + rest, None);
    assert (payload + rest)[..|payload|] == payload && (payload + rest)[|payload|..] == rest;
  }

  // ------------------------------------------------------------- round trips

  function WrittenHeader(n: nat): Header {
    Header(CONTENT_LENGTH, " " + PrintNat(n) + "\r")
  }

  lemma WrittenHeaderIs(n: nat)
    ensures WellFormed(WrittenHeader(n))
    ensures CONTENT_LENGTH + ": " + PrintNat(n) + "\r\n\r\n" == Line(WrittenHeader(n)) + "\n" + "\r\n"
  {
    assert forall c :: c in PrintNat(n) ==> IsDigit(c);
    var name, digits := CONTENT_LENGTH, PrintNat(n);
    assert ": " == ":" + " " && "\r\n\r\n" == "\r" + "\n" + "\r\n";
    RegroupHeader(name, ":", " ", digits, "\r", "\n", "\r\n");
  }

  lemma RegroupHeader(a: string, b: string, c: string, d: string, e: string, f: string, g: string)
    ensures a + (b + c) + d + (e + f + g) == a + b + (c + d + e) + f + g
  {
  }

  lemma DigitsAreTrimmed(n: nat)
    ensures Trim(" " + PrintNat(n) + "\r") == PrintNat(n)
  {
    TrimPadded(" ", PrintNat(n), "\r");
    DigitsNeedNoTrim(PrintNat(n));
  }

  lemma DigitsNeedNoTrim(digits: string)
    requires AllDigits(digits) && digits != ""
    ensures Trim(digits) == digits
  {
    assert IsDigit(digits[0]) && IsDigit(digits[|digits| - 1]);
    TrimIsTrimmed(digits);
  }

  /** The length as it is announced, parsed. */
  lemma WrittenLength(n: nat)
    requires n < 0x1_0000_0000_0000_0000
    ensures LastLength([WrittenHeader(n)], None) == Ok(Some(n))
  {
    DigitsAreTrimmed(n);
    ParsePrinted(n, USIZE_MAX);
    assert [WrittenHeader(n)][1..] == [];
  }

  lemma FrameIsBlock(payload: seq<Byte>, rest: seq<Byte>)
    ensures Frame(payload) + rest ==
            Block([WrittenHeader(|payload|)]) + Encode("\r\n") + (payload + rest)
  {
    var h := WrittenHeader(|payload|);
    WrittenHeaderIs(|payload|);
    EncodeConcat(Line(h) + "\n", "\r\n");
    assert (Line(h) + "\n")[..|Line(h)|] == Line(h);
    assert Encode(Line(h) + "\n") == Encode(Line(h)) + [NEWLINE];
    assert [h][1..] == [] && Block([]) == [];
    assert Block([h]) == Encode(Line(h)) + [NEWLINE];
    Regroup(Block([h]) + Encode("\r\n"), payload, rest);
  }

  /** What one call writes, the next call reads: the same payload, and nothing of what follows. */
  lemma FrameRoundTrip(payload: seq<Byte>, rest: seq<Byte>)
    requires |payload| < 0x1_0000_0000_0000_0000
    ensures Received(Frame(payload) + rest) == (Ok(payload), rest)
  {
    FrameIsBlock(payload, rest);
    WrittenHeaderIs(|payload|);
    WrittenLength(|payload|);
    MessageReads([WrittenHeader(|payload|)], "\r\n", payload, rest);
  }

  function Stream(payloads: seq<seq<Byte>>): seq<Byte> {
    if payloads == [] then [] else Frame(payloads[0]) + Stream(payloads[1..])
  }

  /** Reading until the first error. */
  function ReadAll(input: seq<Byte>): (seq<seq<Byte>>, FramingError)
    decreases |input|
  {
    var (r, rest) := Received(input);
    if r.Err? then ([], r.error)
    else
      var (payloads, error) := ReadAll(rest);
      ([r.value] + payloads, error)
  }

  lemma ReadAllFrame(payload: seq<Byte>, rest: seq<Byte>, more: (seq<seq<Byte>>, FramingError))
    requires |payload| < 0x1_0000_0000_0000_0000 && ReadAll(rest) == more
    ensures ReadAll(Frame(payload) + rest) == ([payload] + more.0, more.1)
  {
    FrameRoundTrip(payload, rest);
    ReadAllStep(Frame(payload) + rest, payload, rest);
  }

  lemma ReadAllNothing()
    ensures ReadAll([]) == ([], Eof)
  {
  }

  /** Any list of messages written one after the other is read back one by one, and then the end. */
  lemma {:induction false} StreamRoundTrip(payloads: seq<seq<Byte>>)
    requires forall p :: p in payloads ==> |p| < 0x1_0000_0000_0000_0000
    ensures ReadAll(Stream(payloads)) == (payloads, Eof)
  {
    if payloads == [] {
      ReadAllNothing();
    } else {
      assert payloads[0] in payloads;
      StreamRoundTrip(payloads[1..]);
      StreamStep(payloads);
    }
  }

  lemma StreamStep(payloads: seq<seq<Byte>>)
    requires payloads != [] && |payloads[0]| < 0x1_0000_0000_0000_0000
    requires ReadAll(Stream(payloads[1..])) == (payloads[1..], Eof)
    ensures ReadAll(Stream(payloads)) == (payloads, Eof)
  {
    ReadAllFrame(payloads[0], Stream(payloads[1..]), (payloads[1..], Eof));
    assert payloads == [payloads[0]] + payloads[1..];
  }

  lemma ReadAllStep(input: seq<Byte>, payload: seq<Byte>, rest: seq<Byte>)
    requires Received(input) == (Ok(payload), rest)
    ensures ReadAll(input) == ([payload] + ReadAll(rest).0, ReadAll(rest).1)
  {
  }

  // ------------------------------------------------------------- cut frames

  lemma {:induction false} NoNewlineNoEnd(input: seq<Byte>)
    requires NEWLINE !in input
    ensures LineLength(input) == |input|
  {
    if input != [] {
      assert input[0] in input;
      NoNewlineNoEnd(input[1..]);
    }
  }

  /** A stream that ends within its first header is never a message. */
  lemma CutHeaderFails(input: seq<Byte>, found: Option<nat>)
    requires NEWLINE !in input && (input != [] ==> input[0] != 13)
    ensures ReadHeaders(input, found).0.Err?
  {
    NoNewlineNoEnd(input);
    if input != [] {
      assert input[..|input|] == input && input[|input|..] == [];
      var text := Decode(input);
      if text.Some? {
        var c := text.value[0];
        assert EncodeChar(c)[0] == input[0] && input[0] in input;
        assert EncodeChar('\r') == [13] && EncodeChar('\n') == [NEWLINE];
        assert TrimEol(text.value) != "";
      }
    }
  }

  lemma AfterHeader(n: nat, end: seq<Byte>)
    requires n < 0x1_0000_0000_0000_0000
    ensures ReadHeaders(Encode(Line(WrittenHeader(n))) + [NEWLINE] + end, None) == ReadHeaders(end, Some(n))
  {
    WrittenHeaderIs(n);
    HeaderThen(WrittenHeader(n), end, None);
    DigitsAreTrimmed(n);
    ParsePrinted(n, USIZE_MAX);
  }

  lemma EndOfHeaders(payload: seq<Byte>, end: seq<Byte>)
    requires end < Encode("\r\n") + payload
    ensures var (length, rest) := ReadHeaders(end, Some(|payload|));
            length.Ok? && length.value <= |rest| <==> payload == [] && end == Encode("\r")
  {
    CrLf();
    if |end| >= 2 {
      var part := end[2..];
      assert end == Encode("\r\n") + part;
      BlankReads("\r\n", part, Some(|payload|));
    } else if |end| == 1 {
      assert end == [13];
      CrAtEnd(|payload|);
    }
  }

  lemma {:induction false} CutAfterHeader(payload: seq<Byte>, end: seq<Byte>)
    requires |payload| < 0x1_0000_0000_0000_0000
    requires end < Encode("\r\n") + payload
    ensures Received(Encode(Line(WrittenHeader(|payload|))) + [NEWLINE] + end).0.Ok? <==>
              payload == [] && end == Encode("\r")
  {
    AfterHeader(|payload|, end);
    EndOfHeaders(payload, end);
  }

  lemma CrLf()
    ensures Encode("\r") == [13] && Encode("\r\n") == [13, NEWLINE]
  {
    assert "\r"[..0] == "" && "\r\n"[..1] == "\r";
  }

  /** A carriage return at the very end of the stream is taken for the blank line. */
  lemma CrAtEnd(n: nat)
    ensures ReadHeaders([13], Some(n)) == (Ok(n), [])
  {
    CrLf();
    DecodesEncoded("\r");
    assert [13 as Byte][1..] == [];
    assert LineLength([13]) == 1;
    assert [13 as Byte][..1] == [13];
    assert TrimEol("\r") == "" by {
      assert "\r"[..0] == "";
    }
  }

  lemma {:induction false} CutInHeader(line: seq<Byte>, rest: seq<Byte>, k: nat)
    requires NEWLINE !in line && |line| > 0 && line[0] != 13 && k <= |line|
    ensures Received((line + rest)[..k]).0.Err?
  {
    var cut := (line + rest)[..k];
    assert cut == line[..k];
    assert forall b :: b in cut ==> b in line;
    CutHeaderFails(cut, None);
  }

  /** A frame cut anywhere is an error, with one exception: the empty message is complete without
      the last byte of its header. */
  lemma {:induction false} CutFrame(payload: seq<Byte>, k: nat)
    requires |payload| < 0x1_0000_0000_0000_0000 && k < |Frame(payload)|
    ensures Received(Frame(payload)[..k]).0.Ok? <==> payload == [] && k == |Frame(payload)| - 1
  {
    var line := Encode(Line(WrittenHeader(|payload|)));
    FrameParts(payload);
    CrLf();
    if k <= |line| {
      CutBeforeEnd(line, Encode("\r\n") + payload, k);
    } else {
      CutPastLine(line, payload, k);
    }
  }

  lemma {:induction false} CutBeforeEnd(line: seq<Byte>, tail: seq<Byte>, k: nat)
    requires NEWLINE !in line && |line| > 0 && line[0] != 13 && k <= |line|
    ensures Received((line + [NEWLINE] + tail)[..k]).0.Err?
  {
    Regroup(line, [NEWLINE], tail);
    CutInHeader(line, [NEWLINE] + tail, k);
  }

  lemma {:induction false} CutPastLine(line: seq<Byte>, payload: seq<Byte>, k: nat)
    requires |payload| < 0x1_0000_0000_0000_0000 && line == Encode(Line(WrittenHeader(|payload|)))
    requires |line| < k < |line| + 1 + |Encode("\r\n") + payload|
    ensures Received((line + [NEWLINE] + (Encode("\r\n") + payload))[..k]).0.Ok? <==>
            payload == [] && k == |line| + 2
  {
    var tail, n := Encode("\r\n") + payload, k - |line| - 1;
    CrLf();
    CutTail(line, NEWLINE, tail, k);
    CutAfterHeader(payload, tail[..n]);
    OneByteLeft(payload, n);
  }

  lemma {:induction false} OneByteLeft(payload: seq<Byte>, n: nat)
    requires n < 2 + |payload|
    ensures |Encode("\r\n")| == 2
    ensures payload == [] ==> ((Encode("\r\n") + payload)[..n] == Encode("\r") <==> n == 1)
  {
    CrLf();
    var tail := Encode("\r\n") + payload;
    if n == 1 {
      assert tail[..1] == [13];
    }
  }

  lemma CutTail<T>(a: seq<T>, x: T, b: seq<T>, k: nat)
    requires |a| < k < |a| + 1 + |b|
    ensures (a + [x] + b)[..k] == a + [x] + b[..k - |a| - 1]
  {
  }

  lemma FrameParts(payload: seq<Byte>)
    ensures var line := Encode(Line(WrittenHeader(|payload|)));
            Frame(payload) == line + [NEWLINE] + (Encode("\r\n") + payload) &&
            NEWLINE !in line && |line| > 0 && line[0] != 13
  {
    var h := WrittenHeader(|payload|);
    var line := Encode(Line(h));
    WrittenHeaderIs(|payload|);
    OneLine(h);
    NoNewlineEncoded(Line(h));
    FrameIsBlock(payload, []);
    assert Frame(payload) + [] == Frame(payload) && payload + [] == payload;
    assert [h][1..] == [] && Block([]) == [];
    assert Block([h]) == line + [NEWLINE];
    Regroup(line + [NEWLINE], Encode("\r\n"), payload);
    assert Line(h) == ['C'] + Line(h)[1..];
    EncodeFirst('C', Line(h)[1..]);
  }

  // ------------------------------------------- what does not change a message

  lemma {:induction false} LastLengthConcat(a: seq<Header>, b: seq<Header>, found: Option<nat>)
    ensures var first := LastLength(a, found);
            LastLength(a + b, found) == if first.Err? then first else LastLength(b, first.value)
  {
    if a == [] {
      assert a + b == b;
    } else {
      assert (a + b)[1..] == a[1..] + b;
      var next := Field(a[0].name, a[0].value, found);
      if next.Ok? {
        LastLengthConcat(a[1..], b, next.value);
      }
    }
  }

  /** A header of another name changes nothing, wherever it stands, nor does the letter case of the
      one that counts. */
  lemma OtherHeadersDoNotMatter(a: seq<Header>, h: Header, b: seq<Header>, found: Option<nat>)
    requires !NamesLength(h.name)
    ensures LastLength(a + [h] + b, found) == LastLength(a + b, found)
  {
    LastLengthConcat(a + [h], b, found);
    LastLengthConcat(a, [h], found);
    LastLengthConcat(a, b, found);
    var first := LastLength(a, found);
    assert [h][1..] == [];
    assert first.Ok? ==> LastLength([h], first.value) == first;
  }

  lemma CaseDoesNotMatter(a: seq<Header>, name: string, other: string, value: string, b: seq<Header>,
                          found: Option<nat>)
    requires EqIgnoreAsciiCase(name, other)
    ensures LastLength(a + [Header(name, value)] + b, found) == LastLength(a + [Header(other, value)] + b, found)
  {
    var h, g := Header(name, value), Header(other, value);
    LastLengthConcat(a + [h], b, found);
    LastLengthConcat(a + [g], b, found);
    LastLengthConcat(a, [h], found);
    LastLengthConcat(a, [g], found);
    var first := LastLength(a, found);
    assert NamesLength(name) <==> NamesLength(other);
    assert [h][1..] == [] && [g][1..] == [];
    assert first.Ok? ==> LastLength([h], first.value) == LastLength([g], first.value);
  }
}
