/** Which notes come back from a memory file as they were written, for every name, description and
    content that the store accepts. */
module MemorySurvival {
  import opened Wrappers
  import opened Strings
  import opened MemoryFiles

  // ----------------------------------------- whatever is read has a clean name

  predicate CleanName(name: string) {
    OneLine(name) && IsTrimmed(name)
  }

  lemma {:induction false} NamesAreClean(lines: seq<string>, name: string, d: Option<string>)
    requires forall line :: line in lines ==> OneLine(line)
    requires CleanName(name) || (lines != [] && StartsWith(lines[0], NAME_KEY))
    ensures CleanName(ReadFields(lines, name, d).0)
    decreases |lines|
  {
    if lines != [] {
      var line := lines[0];
      assert line in lines;
      if StartsWith(line, NAME_KEY) {
        var value := line[|NAME_KEY|..];
        assert OneLine(value);
        TrimKeepsOneLine(value);
        TrimIsTrimmed(value);
      }
      NamesAreClean(lines[1..], ReadField(line, name, d).0, ReadField(line, name, d).1);
    }
  }

  /** The first line of a header that begins with the name key does too. */
  lemma {:induction false} FirstLineIsName(header: string)
    requires StartsWith(header, "name: ")
    ensures Lines(header) != [] && StartsWith(Lines(header)[0], NAME_KEY)
  {
    var i := IndexOf(header, '\n');
    var key := "name: ";
    assert header[..6] == key && forall k :: 0 <= k < 6 ==> header[k] == key[k];
    assert header[..5] == NAME_KEY;
    if i.Some? {
      var line := header[..i.value];
      assert i.value >= 6 && line[5] == ' ';
      assert Chomp(line)[..5] == header[..5];
    }
  }

  /** Where the header of a written file is taken to end, it holds at least the name key. */
  lemma {:induction false} HeaderStartsWithName(rest: string)
    requires StartsWith(rest, "name: ") && Find(rest, "\n---\n").Some?
    ensures StartsWith(rest[..Find(rest, "\n---\n").value], "name: ")
  {
    var end, key := Find(rest, "\n---\n").value, "name: ";
    assert rest[..6] == key && forall k :: 0 <= k < 6 ==> rest[k] == key[k];
    assert rest[end] == rest[end..end + 5][0] == '\n';
    assert end >= 6;
    assert rest[..end][..6] == rest[..6];
  }

  /** What every written file looks like after its first line. */
  lemma {:induction false} RenderedShape(name: string, description: Option<string>, content: string)
    returns (tail: string)
    ensures Rendered(name, description, content) == "---\n" + ("name: " + tail)
    ensures Find("name: " + tail, "\n---\n").Some?
  {
    var fields, body := Fields(name, description), Body(content);
    HeaderIsFields(name, description);
    var more := if description.Some? then "\n" + DescriptionLine(description.value) else "";
    assert fields == "name: " + (name + more);
    tail := name + more + "\n---\n" + body;
    var rest := "name: " + tail;
    assert rest == fields + "\n---\n" + body;
    assert Rendered(name, description, content) == "---\n" + rest;
    assert rest[|fields|..][..5] == "\n---\n";
    assert StartsWith(rest[|fields|..], "\n---\n");
  }

  /** Whatever is written, the name that comes back is one trimmed line. */
  lemma {:induction false} ParsedNameIsClean(defaultName: string, name: string, description: Option<string>,
                                             content: string)
    ensures CleanName(Parsed(defaultName, Rendered(name, description, content)).name)
  {
    var raw := Rendered(name, description, content);
    var tail := RenderedShape(name, description, content);
    var rest := "name: " + tail;
    assert raw[..4] == "---\n" && raw[4..] == rest;
    NotCrLf(raw);
    assert rest[..6] == "name: ";
    HeaderStartsWithName(rest);
    var header := rest[..Find(rest, "\n---\n").value];
    FirstLineIsName(header);
    LinesAreOneLine(header);
    NamesAreClean(Lines(header), defaultName, None);
  }

  // ----------------------------------------------------------- what survives

  /** A whole note comes back as it was written if and only if its name is one trimmed line, its
      description is absent or one non-empty trimmed line, and its body starts with no line break and is
      empty or ends with one. */
  lemma {:induction false} NoteSurvivesIff(name: string, description: Option<string>, content: string)
    ensures Parsed(name, Rendered(name, description, content)) == Memory(name, description, content) <==>
            CleanName(name) && CleanDescription(description) && IsTidy(content)
  {
    ParsedNameIsClean(name, name, description, content);
    ParsedIsClean(name, Rendered(name, description, content));
    if CleanName(name) && CleanDescription(description) {
      RoundTrip(name, name, description, content);
      NormalisedIsStable(content);
      TrimIsTrimmed(name);
      CleanIsNormalised(description);
    }
  }

  lemma {:induction false} CleanIsNormalised(description: Option<string>)
    requires CleanDescription(description)
    ensures NormalisedDescription(description) == description
  {
    if description.Some? {
      TrimIsTrimmed(description.value);
    }
  }

  /** A name that comes back is one trimmed line, and such a name does come back unless a description of
      several lines replaces it. */
  lemma {:induction false} NameSurvivesIff(name: string, description: Option<string>, content: string)
    ensures Parsed(name, Rendered(name, description, content)).name == name ==> CleanName(name)
    ensures (description.Some? ==> OneLine(description.value)) ==>
              (Parsed(name, Rendered(name, description, content)).name == name <==> CleanName(name))
  {
    ParsedNameIsClean(name, name, description, content);
    if CleanName(name) && (description.Some? ==> OneLine(description.value)) {
      RoundTrip(name, name, description, content);
      TrimIsTrimmed(name);
    }
  }

  /** A description that comes back is absent or one non-empty trimmed line, and under a name of one line
      each of these does. */
  lemma {:induction false} DescriptionSurvivesIff(name: string, description: Option<string>, content: string)
    ensures Parsed(name, Rendered(name, description, content)).description == description ==>
              CleanDescription(description)
    ensures OneLine(name) ==>
              (Parsed(name, Rendered(name, description, content)).description == description <==>
               CleanDescription(description))
  {
    ParsedIsClean(name, Rendered(name, description, content));
    if OneLine(name) && CleanDescription(description) {
      RoundTrip(name, name, description, content);
      CleanIsNormalised(description);
    }
  }

  // ------------------------------------------------- what several lines do

  lemma {:induction false} ChompedDescriptionField(name: string, value: string)
    ensures ReadField(Chomp(DescriptionLine(value)), name, None) == (name, NormalisedDescription(Some(value)))
  {
    KeysAreOneLine();
    KeyedChomped(DESCRIPTION_KEY, value);
    StartsAlike(Chomp(DescriptionLine(value)), DESCRIPTION_KEY, 0);
    StartsAlike(Chomp(DescriptionLine(value)), NAME_KEY, 0);
  }

  lemma {:induction false} ThreeLines(a: string, b: string, c: string)
    requires OneLine(a) && OneLine(b) && OneLine(c) && c != ""
    ensures Lines(a + "\n" + (b + "\n" + c)) == [Chomp(a)] + ([Chomp(b)] + [c])
  {
    LinesCons(a, b + "\n" + c);
    LinesCons(b, c);
    OneLineLines(c);
  }

  lemma {:induction false} FieldThen(line: string, rest: seq<string>, name: string, d: Option<string>)
    ensures ReadFields([line] + rest, name, d) ==
            ReadFields(rest, ReadField(line, name, d).0, ReadField(line, name, d).1)
  {
    assert ([line] + rest)[1..] == rest;
  }

  lemma {:induction false} ThreeFieldsRead(name: string, first: string, other: string, defaultName: string)
    requires OneLine(name) && OneLine(first) && OneLine(other)
    ensures ReadFields(Lines(NameLine(name) + "\n" + (DescriptionLine(first) + "\n" + NameLine(other))),
                       defaultName, None) ==
            (Trim(other), NormalisedDescription(Some(first)))
  {
    var a, b, c := NameLine(name), DescriptionLine(first), NameLine(other);
    OneLineField(name, Some(first));
    OneLineField(other, None);
    ThreeLines(a, b, c);
    FieldThen(Chomp(a), [Chomp(b)] + [c], defaultName, None);
    NameField(name, defaultName, None);
    FieldThen(Chomp(b), [c], Trim(name), None);
    ChompedDescriptionField(Trim(name), first);
    OneField(c, Trim(name), NormalisedDescription(Some(first)));
    NameField(other, Trim(name), NormalisedDescription(Some(first)));
  }

  lemma {:induction false} ThreeLinesUndashed(name: string, first: string, other: string)
    requires OneLine(name) && OneLine(first) && OneLine(other)
    ensures Undashed(NameLine(name) + "\n" + (DescriptionLine(first) + "\n" + NameLine(other)))
  {
    var a, b, c := NameLine(name), DescriptionLine(first), NameLine(other);
    OneLineField(name, Some(first));
    OneLineField(other, None);
    StartsAlike(c, NAME_KEY, 0);
    Keyed(NAME_KEY, other);
    OneLineUndashed(a);
    UndashedLine(a, b);
    UndashedLine(a + "\n" + b, c);
    Lengthen(a + "\n", b, "\n", c);
  }

  lemma {:induction false} Lengthen(a: string, b: string, c: string, d: string)
    ensures a + (b + c + d) == a + b + c + d
  {
  }

  /** A line of the description that looks like a name replaces the name. */
  lemma {:induction false} DescriptionRenames(name: string, first: string, other: string, content: string)
    requires OneLine(name) && OneLine(first) && OneLine(other)
    ensures Parsed(name, Rendered(name, Some(first + "\n" + NameLine(other)), content)) ==
            Memory(Trim(other), NormalisedDescription(Some(first)), Normalised(content))
  {
    var a, b, c := NameLine(name), DescriptionLine(first), NameLine(other);
    HeaderIsFields(name, Some(first + "\n" + c));
    LinesInDescription(a, DESCRIPTION_KEY + " ", first, "\n", c);
    ThreeLinesUndashed(name, first, other);
    ParsedWithFields(name, a + "\n" + (b + "\n" + c), Body(content));
    ThreeFieldsRead(name, first, other, name);
    BodyNormalises(content);
  }

  lemma {:induction false} LinesInDescription(a: string, key: string, first: string, sep: string, c: string)
    ensures a + ("\n" + (key + (first + sep + c))) == a + "\n" + ((key + first) + sep + c)
  {
  }

  /** A delimiter in the description ends the header, and the rest of the description becomes body. */
  lemma {:induction false} DescriptionBecomesBody(name: string, first: string, more: string, content: string)
    requires OneLine(name) && OneLine(first)
    ensures Parsed(name, Rendered(name, Some(first + "\n---\n" + more), content)) ==
            Memory(Trim(name), NormalisedDescription(Some(first)), TrimNewlines(more + "\n---\n" + Body(content)))
  {
    HeaderIsFields(name, Some(first + "\n---\n" + more));
    SplitInDescription("---\n", NameLine(name) + "\n" + (DESCRIPTION_KEY + " "), first, "\n---\n", more,
                       Body(content));
    FieldsUndashed(name, Some(first));
    FieldsSplit(NameLine(name), DESCRIPTION_KEY + " ", first);
    FieldsSplit(NameLine(name), DESCRIPTION_KEY + " ", first + "\n---\n" + more);
    ParsedWithFields(name, Fields(name, Some(first)), more + "\n---\n" + Body(content));
    FieldsRead(name, Some(first), name);
  }

  lemma {:induction false} FieldsSplit(a: string, key: string, value: string)
    ensures a + ("\n" + (key + value)) == a + "\n" + key + value
  {
  }

  lemma {:induction false} SplitInDescription(open: string, a: string, first: string, close: string, more: string,
                                              body: string)
    ensures open + (a + (first + close + more) + close) + body ==
            open + (a + first + close) + (more + close + body)
  {
  }
}
