/** The per-project memory store of crates/aide-mcp/src/memory.rs: a printer and a parser for
    files with front matter, and a directory of such files that refines a plain map. */
module MemoryFiles {
  import opened Common
  import opened Wrappers
  import opened Strings

  datatype Memory = Memory(name: string, description: Option<string>, content: string)

  const NAME_KEY := "name:"
  const DESCRIPTION_KEY := "description:"

  // ---------------------------------------------------------------- printing

  function NameLine(name: string): string {
    NAME_KEY + " " + name
  }

  function DescriptionLine(description: string): string {
    DESCRIPTION_KEY + " " + description
  }

  function Header(name: string, description: Option<string>): string {
    "---\n" + NameLine(name) + "\n" +
    (if description.Some? then DescriptionLine(description.value) + "\n" else "") + "---\n"
  }

  /** The body as it is written: a blank line before it, a final newline after it. */
  function Body(content: string): string {
    (if StartsWith(content, "\n") then "" else "\n") + content +
    (if EndsWithChar(content, '\n') then "" else "\n")
  }

  function Rendered(name: string, description: Option<string>, content: string): string {
    Header(name, description) + Body(content)
  }

  method Render(name: string, description: Option<string>, content: string) returns (out: string)
    ensures out == Rendered(name, description, content)
    ensures StartsWith(out, "---\nname: " + name + "\n" +
                            if description.Some? then "description: " + description.value + "\n---\n" else "---\n")
  {
    out := "---\n";
    out := out + NameLine(name) + "\n";
    if description.Some? {
      out := out + (DescriptionLine(description.value) + "\n");
    } else {
      AppendNothing(out);
    }
    out := out + "---\n";
    ghost var header := out;
    if !StartsWith(content, "\n") {
      out := out + "\n";
    } else {
      AppendNothing(out);
    }
    out := out + content;
    if !EndsWithChar(content, '\n') {
      out := out + "\n";
    } else {
      AppendNothing(out);
    }
    RegroupBody(header, if StartsWith(content, "\n") then "" else "\n", content,
            if EndsWithChar(content, '\n') then "" else "\n");
    OpensWith(name, description, content);
  }

  lemma {:induction false} OpensWith(name: string, description: Option<string>, content: string)
    ensures StartsWith(Rendered(name, description, content), "---\nname: " + name + "\n" +
                            if description.Some? then "description: " + description.value + "\n---\n" else "---\n")
  {
    var start := "---\nname: " + name + "\n" +
                 if description.Some? then "description: " + description.value + "\n---\n" else "---\n";
    assert NAME_KEY + " " == "name: " && "---\n" + "name: " == "---\nname: ";
    if description.Some? {
      assert DESCRIPTION_KEY + " " == "description: " && "\n" + "---\n" == "\n---\n";
    }
    assert Header(name, description) == start;
  }

  lemma AppendNothing(s: string)
    ensures s + "" == s
  {
  }

  lemma RegroupBody(a: string, b: string, c: string, d: string)
    ensures a + b + c + d == a + (b + c + d)
  {
  }

  // ----------------------------------------------------------------- parsing

  function TrimNewlines(s: string): (r: string)
    ensures |r| <= |s| && r == s[|s| - |r|..]
    ensures r == [] || (r[0] != '\r' && r[0] != '\n')
  {
    if s != [] && (s[0] == '\r' || s[0] == '\n') then TrimNewlines(s[1..]) else s
  }

  /** The delimiters around the front matter: LF, or CRLF if the file opens that way. */
  function Delimiters(raw: string): (string, string) {
    if StartsWith(raw, "---\r\n") then ("---\r\n", "\r\n---\r\n") else ("---\n", "\n---\n")
  }

  /** One header line's effect on what has been read so far. */
  function ReadField(line: string, name: string, description: Option<string>): (string, Option<string>) {
    if StartsWith(line, NAME_KEY) then (Trim(line[|NAME_KEY|..]), description)
    else if StartsWith(line, DESCRIPTION_KEY) then
      var v := Trim(line[|DESCRIPTION_KEY|..]);
      (name, if v == "" then description else Some(v))
    else (name, description)
  }

  function ReadFields(lines: seq<string>, name: string, description: Option<string>): (string, Option<string>) {
    if lines == [] then (name, description)
    else
      var (n, d) := ReadField(lines[0], name, description);
      ReadFields(lines[1..], n, d)
  }

  lemma ReadFieldsStep(lines: seq<string>, i: nat, name: string, description: Option<string>)
    requires i < |lines|
    ensures var (n, d) := ReadField(lines[i], name, description);
            ReadFields(lines[i..], name, description) == ReadFields(lines[i + 1..], n, d)
  {
    assert lines[i..][0] == lines[i] && lines[i..][1..] == lines[i + 1..];
  }

  /** Where the fields and the body lie, if there is front matter. */
  function FrontMatter(raw: string): (r: Option<(string, nat)>)
    ensures r.Some? ==> r.value.1 <= |raw|
  {
    var open, close := Delimiters(raw).0, Delimiters(raw).1;
    var rest := StripPrefix(raw, open);
    var end := if rest.Some? then Find(rest.value, close) else None;
    if end.None? then None else Some((rest.value[..end.value], |open| + end.value + |close|))
  }

  function Parsed(defaultName: string, raw: string): Memory {
    var front := FrontMatter(raw);
    if front.None? then Memory(defaultName, None, TrimNewlines(raw))
    else
      var (name, description) := ReadFields(Lines(front.value.0), defaultName, None);
      Memory(name, description, TrimNewlines(raw[front.value.1..]))
  }

  method ParseHeader(defaultName: string, header: string) returns (name: string, description: Option<string>)
    ensures (name, description) == ReadFields(Lines(header), defaultName, None)
  {
    name, description := defaultName, None;
    var lines := Lines(header);
    for i := 0 to |lines|
      invariant ReadFields(lines[i..], name, description) == ReadFields(lines, defaultName, None)
    {
      ReadFieldsStep(lines, i, name, description);
      if StartsWith(lines[i], NAME_KEY) {
        name := Trim(lines[i][|NAME_KEY|..]);
      } else if StartsWith(lines[i], DESCRIPTION_KEY) {
        var trimmed := Trim(lines[i][|DESCRIPTION_KEY|..]);
        if trimmed != "" {
          description := Some(trimmed);
        }
      }
    }
  }

  method Parse(defaultName: string, raw: string) returns (m: Memory)
    ensures m == Parsed(defaultName, raw)
  {
    var name, description, bodyStart := defaultName, None, 0;
    var front := FrontMatter(raw);
    if front.Some? {
      name, description := ParseHeader(defaultName, front.value.0);
      bodyStart := front.value.1;
    }
    DropNothing(raw);
    m := Memory(name, description, TrimNewlines(raw[bodyStart..]));
  }

  lemma DropNothing(s: string)
    ensures s[0..] == s
  {
  }

  // -------------------------------------------------------------- round trip

  /** What a body becomes by being written and read: leading line breaks are gone and the last
      line is ended. */
  function Normalised(content: string): string {
    TrimNewlines(if EndsWithChar(content, '\n') then content else content + "\n")
  }

  function NormalisedDescription(description: Option<string>): Option<string> {
    if description.Some? && Trim(description.value) != "" then Some(Trim(description.value)) else None
  }

  predicate OneLine(s: string) {
    '\n' !in s
  }

  lemma TrimNewlinesSkips(s: string)
    ensures TrimNewlines("\n" + s) == TrimNewlines(s)
  {
    assert ("\n" + s)[1..] == s;
  }

  lemma BodyNormalises(content: string)
    ensures TrimNewlines(Body(content)) == Normalised(content)
  {
    var tail := if EndsWithChar(content, '\n') then "" else "\n";
    var text := content + tail;
    assert text == if EndsWithChar(content, '\n') then content else content + "\n";
    if StartsWith(content, "\n") {
      assert Body(content) == text;
    } else {
      assert Body(content) == "\n" + text;
      TrimNewlinesSkips(text);
    }
  }

  /** The lines between the delimiters. */
  function Fields(name: string, description: Option<string>): string {
    NameLine(name) + (if description.Some? then "\n" + DescriptionLine(description.value) else "")
  }

  /** A one-line key and value make one line, in which the key can be found again. */
  lemma Keyed(key: string, value: string)
    ensures StartsWith(key + " " + value, key)
    ensures Trim((key + " " + value)[|key|..]) == Trim(value)
    ensures OneLine(key) && OneLine(value) ==> OneLine(key + " " + value)
  {
    var line := key + " " + value;
    assert line[..|key|] == key && line[|key|..] == " " + value + "";
    TrimPadded(" ", value, "");
  }

  lemma StartsAlike(s: string, p: string, i: nat)
    requires i < |p|
    ensures StartsWith(s, p) ==> i < |s| && s[i] == p[i]
  {
    assert StartsWith(s, p) ==> s[..|p|][i] == p[i];
  }

  lemma KeysDiffer(key: string, other: string, s: string)
    requires |key| > 0 && |other| > 0 && key[0] != other[0]
    ensures !StartsWith(key + s, other)
  {
    StartsAlike(key + s, other, 0);
  }

  /** A line that ends in a carriage return loses it, and the value read does not change. */
  lemma KeyedChomped(key: string, value: string)
    ensures StartsWith(Chomp(key + " " + value), key)
    ensures Trim(Chomp(key + " " + value)[|key|..]) == Trim(value)
  {
    if EndsWithChar(value, '\r') {
      var init := value[..|value| - 1];
      assert value == init + "\r";
      ChompedEnd(key + " ", init);
      TrimPaddedEnd(init, "\r");
      Keyed(key, init);
    } else {
      NotChomped(key, value);
      Keyed(key, value);
    }
  }

  lemma NotChomped(key: string, value: string)
    requires !EndsWithChar(value, '\r')
    ensures Chomp(key + " " + value) == key + " " + value
  {
    var line := key + " " + value;
    if value != "" {
      assert line[|line| - 1] == value[|value| - 1];
    } else {
      assert line[|line| - 1] == ' ';
    }
  }

  lemma ChompedEnd(before: string, init: string)
    ensures Chomp(before + (init + "\r")) == before + init
  {
    var line := before + (init + "\r");
    assert line[|line| - 1] == '\r';
    assert line[..|line| - 1] == before + init;
  }

  lemma HeaderIsFields(name: string, description: Option<string>)
    ensures Header(name, description) == "---\n" + (Fields(name, description) + "\n---\n")
  {
    if description.Some? {
      RegroupTwo("---\n", NameLine(name), "\n", DescriptionLine(description.value), "---\n");
    } else {
      RegroupOne("---\n", NameLine(name), "\n", "---\n");
    }
    assert "\n" + "---\n" == "\n---\n";
  }

  lemma RegroupOne(a: string, b: string, c: string, d: string)
    ensures a + b + c + "" + d == a + (b + "" + (c + d))
  {
  }

  lemma RegroupTwo(a: string, b: string, c: string, d: string, e: string)
    ensures a + b + c + (d + c) + e == a + (b + (c + d) + (c + e))
  {
  }

  lemma KeysAreOneLine()
    ensures OneLine(NAME_KEY) && OneLine(DESCRIPTION_KEY)
    ensures |NAME_KEY| > 0 && NAME_KEY[0] == 'n'
    ensures |DESCRIPTION_KEY| > 0 && DESCRIPTION_KEY[0] == 'd'
    ensures OneLine(" ")
  {
  }

  /** No line but the first starts with a dash, so that no closing delimiter starts inside. */
  predicate Undashed(fields: string) {
    forall i :: 0 <= i < |fields| && fields[i] == '\n' ==> i + 1 < |fields| && fields[i + 1] != '-'
  }

  lemma {:induction false} UndashedLine(fields: string, line: string)
    requires Undashed(fields) && OneLine(line) && line != "" && line[0] != '-'
    ensures Undashed(fields + "\n" + line)
  {
  }

  lemma {:induction false} OneLineUndashed(line: string)
    requires OneLine(line)
    ensures Undashed(line)
  {
  }

  lemma {:induction false} ClosesAfter(fields: string, body: string)
    requires Undashed(fields)
    ensures Find(fields + "\n---\n" + body, "\n---\n") == Some(|fields|)
  {
    var close := "\n---\n";
    var s := fields + close + body;
    assert s[|fields|..|fields| + |close|] == close;
    forall i | 0 <= i < |fields| ensures !StartsWith(s[i..], close) {
      StartsAlike(s[i..], close, 0);
      StartsAlike(s[i..], close, 1);
      assert s[i] == fields[i];
    }
    FindIs(s, close, |fields|);
  }

  lemma OneLineField(name: string, description: Option<string>)
    requires OneLine(name) && (description.Some? ==> OneLine(description.value))
    ensures OneLine(NameLine(name)) && NameLine(name) != ""
    ensures description.Some? ==>
              var line := DescriptionLine(description.value); OneLine(line) && |line| > 0 && line[0] == 'd'
  {
    KeysAreOneLine();
    Keyed(NAME_KEY, name);
    if description.Some? {
      Keyed(DESCRIPTION_KEY, description.value);
      StartsAlike(DescriptionLine(description.value), DESCRIPTION_KEY, 0);
    }
  }

  lemma {:induction false} FieldsUndashed(name: string, description: Option<string>)
    requires OneLine(name) && (description.Some? ==> OneLine(description.value))
    ensures Undashed(Fields(name, description))
  {
    OneLineField(name, description);
    OneLineUndashed(NameLine(name));
    if description.Some? {
      UndashedLine(NameLine(name), DescriptionLine(description.value));
      Regroup(NameLine(name), "\n", DescriptionLine(description.value));
    } else {
      AppendNothing(NameLine(name));
    }
  }

  lemma OneLineLines(line: string)
    requires OneLine(line) && line != ""
    ensures Lines(line) == [line]
  {
  }

  lemma TwoLines(first: string, second: string)
    requires OneLine(first) && OneLine(second) && second != ""
    ensures Lines(first + ("\n" + second)) == [Chomp(first), second]
  {
    Regroup(first, "\n", second);
    LinesCons(first, second);
    OneLineLines(second);
  }

  lemma FieldLines(name: string, description: Option<string>)
    requires OneLine(name) && (description.Some? ==> OneLine(description.value))
    ensures Lines(Fields(name, description)) ==
            if description.Some? then [Chomp(NameLine(name)), DescriptionLine(description.value)]
            else [NameLine(name)]
  {
    OneLineField(name, description);
    if description.Some? {
      var second := DescriptionLine(description.value);
      TwoLines(NameLine(name), second);
    } else {
      AppendNothing(NameLine(name));
      OneLineLines(NameLine(name));
    }
  }

  lemma NameField(name: string, otherName: string, description: Option<string>)
    ensures ReadField(NameLine(name), otherName, description) == (Trim(name), description)
    ensures ReadField(Chomp(NameLine(name)), otherName, description) == (Trim(name), description)
  {
    KeysAreOneLine();
    Keyed(NAME_KEY, name);
    KeyedChomped(NAME_KEY, name);
  }

  lemma DescriptionField(name: string, value: string)
    ensures ReadField(DescriptionLine(value), name, None) == (name, NormalisedDescription(Some(value)))
  {
    KeysAreOneLine();
    Keyed(DESCRIPTION_KEY, value);
    KeysDiffer(DESCRIPTION_KEY + " ", NAME_KEY, value);
  }

  lemma OneField(line: string, name: string, description: Option<string>)
    ensures ReadFields([line], name, description) == ReadField(line, name, description)
  {
    var (n, d) := ReadField(line, name, description);
    assert [line][1..] == [];
    assert ReadFields([], n, d) == (n, d);
  }

  lemma TwoFields(first: string, second: string, name: string)
    ensures ReadFields([first], name, None) == ReadField(first, name, None)
    ensures var (n, d) := ReadField(first, name, None);
            ReadFields([first, second], name, None) == ReadField(second, n, d)
  {
    var (n, d) := ReadField(first, name, None);
    OneField(first, name, None);
    OneField(second, n, d);
    assert [first, second][1..] == [second];
  }

  lemma FieldsRead(name: string, description: Option<string>, defaultName: string)
    requires OneLine(name) && (description.Some? ==> OneLine(description.value))
    ensures ReadFields(Lines(Fields(name, description)), defaultName, None) ==
            (Trim(name), NormalisedDescription(description))
  {
    FieldLines(name, description);
    NameField(name, defaultName, None);
    if description.Some? {
      DescriptionField(Trim(name), description.value);
      TwoFields(Chomp(NameLine(name)), DescriptionLine(description.value), defaultName);
    } else {
      TwoFields(NameLine(name), "", defaultName);
    }
  }

  /** Reading back what was written, for a one-line name and description and any content at all,
      gives their trimmed forms and the normalised body; a trimmed name comes back unchanged. */
  lemma RoundTrip(defaultName: string, name: string, description: Option<string>, content: string)
    requires OneLine(name) && (description.Some? ==> OneLine(description.value))
    ensures Parsed(defaultName, Rendered(name, description, content)) ==
            Memory(Trim(name), NormalisedDescription(description), Normalised(content))
  {
    HeaderIsFields(name, description);
    FieldsUndashed(name, description);
    ParsedWithFields(defaultName, Fields(name, description), Body(content));
    FieldsRead(name, description, defaultName);
    BodyNormalises(content);
  }

  /** What is read from a file with these header lines and this body. */
  lemma {:induction false} ParsedWithFields(defaultName: string, fields: string, body: string)
    requires Undashed(fields)
    ensures var (name, description) := ReadFields(Lines(fields), defaultName, None);
            Parsed(defaultName, "---\n" + (fields + "\n---\n") + body) ==
            Memory(name, description, TrimNewlines(body))
  {
    ClosesAfter(fields, body);
    OpensAndCloses("---\n", fields, "\n---\n", body);
    NotCrLf("---\n" + (fields + "\n---\n") + body);
  }

  lemma OpensAndCloses(open: string, fields: string, close: string, body: string)
    ensures var raw, rest := open + (fields + close) + body, fields + close + body;
            StripPrefix(raw, open) == Some(rest) &&
            rest[..|fields|] == fields && raw[|open| + |fields| + |close|..] == body
  {
    var raw, rest := open + (fields + close) + body, fields + close + body;
    assert raw == open + rest;
    assert raw[..|open|] == open && raw[|open|..] == rest;
  }

  lemma NotCrLf(raw: string)
    requires StartsWith(raw, "---\n")
    ensures Delimiters(raw) == ("---\n", "\n---\n")
  {
    StartsAlike(raw, "---\n", 3);
    StartsAlike(raw, "---\r\n", 3);
  }

  lemma TrimNewlinesKeepsEnd(s: string)
    ensures TrimNewlines(s) == [] || EndsWithChar(s, TrimNewlines(s)[|TrimNewlines(s)| - 1])
    ensures TrimNewlines(TrimNewlines(s)) == TrimNewlines(s)
  {
  }

  lemma NormalisedIsTidy(content: string)
    ensures TrimNewlines(Normalised(content)) == Normalised(content)
    ensures Normalised(content) == "" || EndsWithChar(Normalised(content), '\n')
  {
    var text := if EndsWithChar(content, '\n') then content else content + "\n";
    assert EndsWithChar(text, '\n');
    TrimNewlinesKeepsEnd(text);
  }

  predicate IsTidy(content: string) {
    TrimNewlines(content) == content && (content == "" || EndsWithChar(content, '\n'))
  }

  lemma TidyIsNormalised(content: string)
    requires IsTidy(content)
    ensures Normalised(content) == content
  {
    if content == "" {
      NothingBecomesNothing();
    }
  }

  lemma NothingBecomesNothing()
    ensures Normalised("") == ""
  {
    TrimNewlinesSkips("");
    AppendNothing("\n");
    assert "" + "\n" == "\n";
  }

  /** A second round changes nothing: the bodies that come back unchanged are those that start
      with no line break and, unless empty, end with one. */
  lemma NormalisedIsStable(content: string)
    ensures Normalised(Normalised(content)) == Normalised(content)
    ensures Normalised(content) == content <==> IsTidy(content)
  {
    NormalisedIsTidy(content);
    TidyIsNormalised(Normalised(content));
    if IsTidy(content) {
      TidyIsNormalised(content);
    }
  }

  // ------------------------------------------------------------ the directory

  datatype MemoryError = InvalidName | NotFound | AlreadyExists | BadRegex

  predicate ContainsDotDot(s: string) {
    exists i :: 0 <= i < |s| - 1 && s[i] == '.' && s[i + 1] == '.'
  }

  predicate ValidName(name: string) {
    name != "" && name[0] != '.' && '/' !in name && '\\' !in name && !ContainsDotDot(name)
  }

  /** The names that are accepted: not empty, with no separator and no two dots in a row anywhere, and no dot
      in front. */
  lemma {:induction false} ValidNameIff(name: string)
    ensures ValidName(name) <==>
              && name != ""
              && (forall before, after :: name != before + "/" + after)
              && (forall before, after :: name != before + "\\" + after)
              && (forall before, after :: name != before + ".." + after)
              && (forall after :: name != "." + after)
  {
    if i :| 0 <= i < |name| && name[i] == '/' {
      assert name == name[..i] + "/" + name[i + 1..];
    } else if i :| 0 <= i < |name| && name[i] == '\\' {
      assert name == name[..i] + "\\" + name[i + 1..];
    } else if i :| 0 <= i < |name| - 1 && name[i] == '.' && name[i + 1] == '.' {
      assert name == name[..i] + ".." + name[i + 2..];
    } else if name != "" && name[0] == '.' {
      assert name == "." + name[1..];
    }
    forall before: string, after: string
      ensures ValidName(name) ==> name != before + "/" + after && name != before + "\\" + after
      ensures ValidName(name) ==> name != before + ".." + after
    {
      Occurs(before, "/", after);
      Occurs(before, "\\", after);
      DotsOccur(before, after);
    }
  }

  lemma {:induction false} DotsOccur(before: string, after: string)
    ensures ContainsDotDot(before + ".." + after)
  {
    var name, i := before + ".." + after, |before|;
    Occurs(before, "..", after);
    assert name[i + 0] == '.' && name[i + 1] == '.' && 0 <= i < |name| - 1;
  }

  lemma {:induction false} Occurs(before: string, p: string, after: string)
    ensures |before + p + after| >= |before| + |p|
    ensures forall i :: 0 <= i < |p| ==> (before + p + after)[|before| + i] == p[i]
    ensures |p| == 1 ==> p[0] in before + p + after
  {
    assert |p| == 1 ==> (before + p + after)[|before|] == p[0];
  }

  function FileName(name: string): string {
    name + ".md"
  }

  /** The file of an accepted name lies in the directory itself and is hidden from no listing. */
  lemma {:induction false} FileStaysInside(name: string)
    requires ValidName(name)
    ensures var file := FileName(name);
            |file| > 3 && '/' !in file && '\\' !in file && file[0] != '.' && file[|file| - 3..] == ".md"
            && !ContainsDotDot(name)
  {
    assert '/' !in ".md" && '\\' !in ".md";
  }

  lemma FileNamesDiffer(a: string, b: string)
    requires a != b
    ensures FileName(a) != FileName(b)
  {
    assert a == FileName(a)[..|FileName(a)| - 3];
    assert b == FileName(b)[..|FileName(b)| - 3];
  }

  /** What the store keeps about one name. */
  datatype Note = Note(description: Option<string>, body: string)

  /** The abstract map the directory stands for. */
  function View(files: map<string, string>, name: string): Option<Note> {
    if FileName(name) !in files then None
    else
      var m := Parsed(name, files[FileName(name)]);
      Some(Note(m.description, m.content))
  }

  ghost predicate SameElsewhere(a: map<string, string>, b: map<string, string>, name: string) {
    forall x :: x != name ==> View(b, x) == View(a, x)
  }

  lemma OneFileChanged(files: map<string, string>, name: string, raw: string)
    ensures SameElsewhere(files, files[FileName(name) := raw], name)
    ensures SameElsewhere(files, files - {FileName(name)}, name)
  {
    forall x | x != name ensures FileName(x) != FileName(name) {
      FileNamesDiffer(x, name);
    }
  }

  lemma {:induction false} LinesAreOneLine(s: string)
    ensures forall line :: line in Lines(s) ==> OneLine(line)
    decreases |s|
  {
    if s != [] {
      var i := IndexOf(s, '\n');
      if i.Some? {
        LinesAreOneLine(s[i.value + 1..]);
      }
    }
  }

  lemma TrimKeepsOneLine(s: string)
    requires OneLine(s)
    ensures OneLine(Trim(s))
  {
  }

  predicate CleanDescription(d: Option<string>) {
    d.Some? ==> OneLine(d.value) && d.value != "" && IsTrimmed(d.value)
  }

  lemma {:induction false} FieldsAreClean(lines: seq<string>, name: string, d: Option<string>)
    requires (forall line :: line in lines ==> OneLine(line)) && CleanDescription(d)
    ensures CleanDescription(ReadFields(lines, name, d).1)
    decreases |lines|
  {
    if lines != [] {
      var line := lines[0];
      assert line in lines;
      if StartsWith(line, DESCRIPTION_KEY) {
        var value := line[|DESCRIPTION_KEY|..];
        assert OneLine(value);
        TrimKeepsOneLine(value);
        TrimIsTrimmed(value);
      }
      FieldsAreClean(lines[1..], ReadField(line, name, d).0, ReadField(line, name, d).1);
    }
  }

  /** A parsed description can be written again and read back unchanged. */
  lemma ParsedIsClean(name: string, raw: string)
    ensures CleanDescription(Parsed(name, raw).description)
    ensures NormalisedDescription(Parsed(name, raw).description) == Parsed(name, raw).description
  {
    var front := FrontMatter(raw);
    if front.Some? {
      LinesAreOneLine(front.value.0);
      FieldsAreClean(Lines(front.value.0), name, None);
      var d := Parsed(name, raw).description;
      if d.Some? {
        TrimIsTrimmed(d.value);
      }
    }
  }

  /** Every file ends its last line, as all files do that this program has written. */
  predicate Written(files: map<string, string>) {
    forall f :: f in files ==> EndsWithChar(files[f], '\n')
  }

  lemma RenderedEnds(name: string, description: Option<string>, content: string)
    ensures EndsWithChar(Rendered(name, description, content), '\n')
  {
    var header, body := Header(name, description), Body(content);
    assert body[|body| - 1] == '\n';
    assert (header + body)[|header| + |body| - 1] == body[|body| - 1];
  }

  /** What is read from such a file can be written and read again without change. */
  lemma WrittenIsTidy(name: string, raw: string)
    requires EndsWithChar(raw, '\n')
    ensures IsTidy(Parsed(name, raw).content)
  {
    var front := FrontMatter(raw);
    if front.Some? {
      TailKeepsEnd(raw, front.value.1);
      TrimmedIsTidy(raw[front.value.1..]);
    } else {
      TrimmedIsTidy(raw);
    }
  }

  lemma TailKeepsEnd(s: string, k: nat)
    requires EndsWithChar(s, '\n') && k <= |s|
    ensures s[k..] == "" || EndsWithChar(s[k..], '\n')
  {
  }

  lemma TrimmedIsTidy(body: string)
    requires body == "" || EndsWithChar(body, '\n')
    ensures IsTidy(TrimNewlines(body))
  {
    TrimNewlinesKeepsEnd(body);
  }

  lemma WrittenBodyStays(name: string, raw: string)
    requires EndsWithChar(raw, '\n')
    ensures Normalised(Parsed(name, raw).content) == Parsed(name, raw).content
  {
    WrittenIsTidy(name, raw);
    NormalisedIsStable(Parsed(name, raw).content);
  }

  class Directory {
    var files: map<string, string>

    constructor ()
      ensures files == map[]
    {
      files := map[];
    }

    method Write(name: string, description: Option<string>, content: string) returns (r: Result<(), MemoryError>)
      modifies this
      ensures r.Err? <==> !ValidName(name)
      ensures r.Err? ==> r.error == InvalidName && files == old(files)
      ensures r.Ok? ==> files == old(files)[FileName(name) := Rendered(name, description, content)]
      ensures r.Ok? ==> SameElsewhere(old(files), files, name)
      ensures r.Ok? && OneLine(name) && (description.Some? ==> OneLine(description.value)) ==>
                View(files, name) == Some(Note(NormalisedDescription(description), Normalised(content)))
      ensures Written(old(files)) ==> Written(files)
    {
      if !ValidName(name) {
        return Err(InvalidName);
      }
      var payload := Render(name, description, content);
      RenderedEnds(name, description, content);
      OneFileChanged(files, name, payload);
      files := files[FileName(name) := payload];
      if OneLine(name) && (description.Some? ==> OneLine(description.value)) {
        RoundTrip(name, name, description, content);
      }
      return Ok(());
    }

    method Read(name: string) returns (r: Result<Memory, MemoryError>)
      ensures !ValidName(name) ==> r == Err(InvalidName)
      ensures ValidName(name) && View(files, name).None? ==> r == Err(NotFound)
      ensures ValidName(name) && View(files, name).Some? ==>
                r.Ok? && Note(r.value.description, r.value.content) == View(files, name).value
      ensures r.Ok? ==> r.value == Parsed(name, files[FileName(name)])
    {
      if !ValidName(name) {
        return Err(InvalidName);
      }
      if FileName(name) !in files {
        return Err(NotFound);
      }
      var m := Parse(name, files[FileName(name)]);
      return Ok(m);
    }

    method Delete(name: string) returns (r: Result<(), MemoryError>)
      modifies this
      ensures !ValidName(name) ==> r == Err(InvalidName)
      ensures ValidName(name) && View(old(files), name).None? ==> r == Err(NotFound)
      ensures r.Err? ==> files == old(files)
      ensures ValidName(name) && View(old(files), name).Some? ==>
                r == Ok(()) && View(files, name).None? && SameElsewhere(old(files), files, name)
      ensures Written(old(files)) ==> Written(files)
    {
      if !ValidName(name) {
        return Err(InvalidName);
      }
      if FileName(name) !in files {
        return Err(NotFound);
      }
      OneFileChanged(files, name, "");
      files := files - {FileName(name)};
      return Ok(());
    }

    /** Renaming moves the note to the new key, its body normalised; in a directory this program has
        written it is the same note. */
    method Rename(oldName: string, newName: string) returns (r: Result<(), MemoryError>)
      modifies this
      ensures !(ValidName(oldName) && ValidName(newName)) ==> r == Err(InvalidName)
      ensures ValidName(oldName) && ValidName(newName) ==>
                r == if View(old(files), oldName).None? then Err(NotFound)
                     else if View(old(files), newName).Some? then Err(AlreadyExists)
                     else Ok(())
      ensures r.Err? ==> files == old(files)
      ensures r.Ok? ==> var m := Parsed(newName, old(files)[FileName(oldName)]);
                        files == (old(files) - {FileName(oldName)})
                                 [FileName(newName) := Rendered(newName, m.description, m.content)]
      ensures r.Ok? ==> oldName != newName && View(files, oldName).None?
      ensures r.Ok? ==> forall x :: x != oldName && x != newName ==> View(files, x) == View(old(files), x)
      ensures r.Ok? && OneLine(newName) ==>
                var note := View(old(files), oldName).value;
                View(files, newName) == Some(note.(body := Normalised(note.body)))
      ensures r.Ok? && OneLine(newName) && Written(old(files)) ==> View(files, newName) == View(old(files), oldName)
      ensures Written(old(files)) ==> Written(files)
    {
      if !ValidName(oldName) || !ValidName(newName) {
        return Err(InvalidName);
      }
      if FileName(oldName) !in files {
        return Err(NotFound);
      }
      if FileName(newName) in files {
        return Err(AlreadyExists);
      }
      assert oldName != newName;
      FileNamesDiffer(oldName, newName);
      var raw := files[FileName(oldName)];
      ghost var before := files;
      OneFileChanged(files, oldName, raw);
      files := files - {FileName(oldName)};
      var parsed := Parse(newName, raw);
      SameNote(oldName, newName, raw);
      var payload := Render(newName, parsed.description, parsed.content);
      OneFileChanged(files, newName, payload);
      files := files[FileName(newName) := payload];
      RenderedEnds(newName, parsed.description, parsed.content);
      ParsedIsClean(newName, raw);
      if OneLine(newName) {
        RoundTrip(newName, newName, parsed.description, parsed.content);
        if EndsWithChar(raw, '\n') {
          WrittenBodyStays(newName, raw);
        }
      }
      return Ok(());
    }

    /** `replace` stands for the regex substitution; None is a pattern that does not compile. */
    method Edit(name: string, replace: Option<string -> string>) returns (r: Result<(), MemoryError>)
      modifies this
      ensures !ValidName(name) ==> r == Err(InvalidName)
      ensures ValidName(name) ==>
                r == if View(old(files), name).None? then Err(NotFound)
                     else if replace.None? then Err(BadRegex)
                     else Ok(())
      ensures r.Err? ==> files == old(files)
      ensures r.Ok? ==> SameElsewhere(old(files), files, name)
      ensures r.Ok? ==> var m := Parsed(name, old(files)[FileName(name)]);
                        files == old(files)
                                 [FileName(name) := Rendered(name, m.description, replace.value(m.content))]
      ensures r.Ok? && OneLine(name) ==>
                var note := View(old(files), name).value;
                View(files, name) == Some(note.(body := Normalised(replace.value(note.body))))
      ensures Written(old(files)) ==> Written(files)
    {
      if !ValidName(name) {
        return Err(InvalidName);
      }
      if FileName(name) !in files {
        return Err(NotFound);
      }
      var raw := files[FileName(name)];
      var parsed := Parse(name, raw);
      if replace.None? {
        return Err(BadRegex);
      }
      var newBody := replace.value(parsed.content);
      var payload := Render(name, parsed.description, newBody);
      RenderedEnds(name, parsed.description, newBody);
      OneFileChanged(files, name, payload);
      files := files[FileName(name) := payload];
      ParsedIsClean(name, raw);
      if OneLine(name) {
        RoundTrip(name, name, parsed.description, newBody);
      }
      return Ok(());
    }
  }

  /** The name a file is parsed under affects neither its description nor its body. */
  lemma SameNote(a: string, b: string, raw: string)
    ensures Parsed(a, raw).description == Parsed(b, raw).description
    ensures Parsed(a, raw).content == Parsed(b, raw).content
  {
    var front := FrontMatter(raw);
    if front.Some? {
      SameDescription(Lines(front.value.0), a, b, None);
    }
  }

  lemma {:induction false} SameDescription(lines: seq<string>, a: string, b: string, d: Option<string>)
    ensures ReadFields(lines, a, d).1 == ReadFields(lines, b, d).1
    decreases |lines|
  {
    if lines != [] {
      var fa, fb := ReadField(lines[0], a, d), ReadField(lines[0], b, d);
      SameDescription(lines[1..], fa.0, fb.0, fa.1);
    }
  }
}
