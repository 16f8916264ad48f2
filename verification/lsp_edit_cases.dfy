/** Legal lists of edits that share a start: any number of insertions at one place, and insertions
    followed by a replacement; and two such lists on which `apply_text_edits` goes wrong. */
module LspEditCases {
  import opened Wrappers
  import opened TextPositions
  import opened LspPositions
  import opened TextEdits
  import opened TextEditRuns
  import opened LspEdits

  // --------------------------------------------------- what a group comes to

  /** An edit that shares its start with no other is fine. */
  lemma SingleIsFine(text: string, s: Span)
    requires s.from <= s.upto <= |text|
    ensures FineAt(text, [s])
  {
    CharIndexOfSlice(text, s.from, s.upto, s.upto);
    assert [s][1..] == [] && Joined([]) == "";
    assert s.with + text[s.upto..s.upto] == s.with + "";
  }

  lemma {:induction false} JoinedConcat(a: seq<Span>, b: seq<Span>)
    ensures Joined(a + b) == Joined(a) + Joined(b)
  {
    if a == [] {
      assert a + b == b;
    } else {
      assert (a + b)[1..] == a[1..] + b;
      JoinedConcat(a[1..], b);
    }
  }

  lemma JoinedLast(spans: seq<Span>, s: Span)
    ensures Joined(spans + [s]) == Joined(spans) + s.with
  {
    JoinedConcat(spans, [s]);
    assert [s][1..] == [];
  }

  predicate AreInsertions(text: string, spans: seq<Span>) {
    forall s :: s in spans ==> s.from == s.upto <= |text|
  }

  /** Insertions at one place end up in reverse, before what was there. */
  lemma {:induction false} InsertionsReverse(text: string, spans: seq<Span>, local: string)
    requires AreInsertions(text, spans)
    ensures GroupRun(text, spans, local) == Some(Joined(Reversed(spans)) + local)
    decreases |spans|
  {
    if spans == [] {
      assert "" + local == local;
    } else {
      var s, rest := spans[0], spans[1..];
      DropNothing(local);
      InsertionsReverse(text, rest, s.with + local);
      JoinedLast(Reversed(rest), s);
      Associate(Joined(Reversed(rest)), s.with, local);
    }
  }

  lemma {:induction false} GroupRunLast(text: string, spans: seq<Span>, r: Span, local: string)
    requires AreInsertions(text, spans) && r.from <= r.upto <= |text|
    ensures AllOrdered(text, spans + [r])
    ensures GroupRun(text, spans + [r], local) == GroupRun(text, [r], Joined(Reversed(spans)) + local)
    decreases |spans|
  {
    if spans == [] {
      assert spans + [r] == [r] && "" + local == local;
    } else {
      var s, rest := spans[0], spans[1..];
      assert (spans + [r])[0] == s && (spans + [r])[1..] == rest + [r];
      DropNothing(local);
      GroupRunLast(text, rest, r, s.with + local);
      JoinedLast(Reversed(rest), s);
      Associate(Joined(Reversed(rest)), s.with, local);
    }
  }

  /** Any number of insertions at one place is fine exactly if their texts read the same in either
      order. */
  lemma InsertionsFineIff(text: string, spans: seq<Span>)
    requires AreInsertions(text, spans)
    ensures FineAt(text, spans) <==> Joined(Reversed(spans)) == Joined(spans)
  {
    InsertionsReverse(text, spans, "");
    AppendNothing(Joined(Reversed(spans)));
    if spans != [] {
      var last := spans[|spans| - 1];
      assert last in spans;
      assert text[last.from..last.upto] == "";
    }
  }

  /** Insertions and then a replacement at the same place: the replacement takes away as many bytes as
      it was meant to, but from the front of the inserted texts. It is fine exactly if that does not
      panic and leaves what LSP asks for. */
  lemma {:induction false} ReplacementFineIff(text: string, insertions: seq<Span>, r: Span)
    requires AreInsertions(text, insertions) && r.from <= r.upto <= |text|
    ensures var local := Joined(Reversed(insertions)) + text[r.from..r.upto];
            var i := CharIndex(local, Spanned(text, r));
            FineAt(text, insertions + [r]) <==>
            i.Some? && r.with + local[i.value..] == Joined(insertions) + r.with
  {
    var group, was := insertions + [r], text[r.from..r.upto];
    assert group[|group| - 1] == r;
    GroupRunLast(text, insertions, r, was);
    JoinedLast(insertions, r);
    assert [r][1..] == [];
  }

  // ------------------------------------------------------- whole lists

  /** The last edit of a group, applied to what the insertions before it have left, takes its bytes from
      the front of their texts, the last one's first. What then stands there is what LSP asks for. */
  predicate ComesOutRight(text: string, group: seq<Span>)
    requires AllOrdered(text, group)
  {
    group == [] ||
    (var insertions, last := group[..|group| - 1], group[|group| - 1];
     var local := Joined(Reversed(insertions)) + text[last.from..last.upto];
     var i := CharIndex(local, Spanned(text, last));
     i.Some? && last.with + local[i.value..] == Joined(insertions) + last.with)
  }

  predicate InsertionsButLast(group: seq<Span>) {
    forall i :: 0 <= i < |group| - 1 ==> group[i].from == group[i].upto
  }

  lemma {:induction false} FineIffRight(text: string, group: seq<Span>)
    requires AllOrdered(text, group)
    requires InsertionsButLast(group)
    ensures FineAt(text, group) <==> ComesOutRight(text, group)
  {
    if group != [] {
      assert AreInsertions(text, group[..|group| - 1]) by {
        assert forall i :: 0 <= i < |group| - 1 ==> group[i] in group;
      }
      ReplacementFineIff(text, group[..|group| - 1], group[|group| - 1]);
      AllButLast(group);
    }
  }

  lemma {:induction false} GroupMembers(spans: seq<Span>, x: nat)
    ensures forall s :: s in StartingAt(spans, x) ==> s in spans && s.from == x
  {
    if spans != [] {
      GroupMembers(spans[1..], x);
    }
  }

  /** In a legal list all but the last of the edits that start at one place are insertions. */
  lemma {:induction false} InsertionsFirst(spans: seq<Span>, x: nat)
    requires AllPairs(spans)
    ensures InsertionsButLast(StartingAt(spans, x))
  {
    if spans != [] {
      var rest := StartingAt(spans[1..], x);
      InsertionsFirst(spans[1..], x);
      if spans[0].from == x && rest != [] {
        GroupMembers(spans[1..], x);
        assert rest[0] in rest;
        assert Compatible(spans[0], rest[0]);
        InsertionBefore(spans[0], rest);
      }
    }
  }

  lemma {:induction false} InsertionBefore(s: Span, rest: seq<Span>)
    requires s.from == s.upto && InsertionsButLast(rest)
    ensures InsertionsButLast([s] + rest)
  {
  }

  ghost predicate AllComeOutRight(text: string, spans: seq<Span>) {
    forall x: nat :: AllOrdered(text, StartingAt(spans, x)) && ComesOutRight(text, StartingAt(spans, x))
  }

  lemma {:induction false} FineEverywhereIff(text: string, spans: seq<Span>)
    requires AllOrdered(text, spans) && AllPairs(spans)
    ensures FineEverywhere(text, spans) <==> AllComeOutRight(text, spans)
  {
    forall x: nat
      ensures AllOrdered(text, StartingAt(spans, x))
      ensures FineAt(text, StartingAt(spans, x)) <==> ComesOutRight(text, StartingAt(spans, x))
    {
      PlaceIsFineIff(text, spans, x);
    }
  }

  lemma {:induction false} PlaceIsFineIff(text: string, spans: seq<Span>, x: nat)
    requires AllOrdered(text, spans) && AllPairs(spans)
    ensures AllOrdered(text, StartingAt(spans, x))
    ensures FineAt(text, StartingAt(spans, x)) <==> ComesOutRight(text, StartingAt(spans, x))
  {
    GroupMembers(spans, x);
    InsertionsFirst(spans, x);
    FineIffRight(text, StartingAt(spans, x));
  }

  /** When the code does what LSP asks for, in terms of the list alone. */
  lemma {:induction false} FollowsLspWhenRight(text: string, edits: seq<TextEdit>)
    requires Faithful(text, edits) && Legal(text, edits)
    ensures ApplyTextEdits(text, edits) == Some(LspResult(text, LspSpans(text, edits))) <==>
            AllComeOutRight(text, LspSpans(text, edits))
  {
    SpansAreOrdered(text, edits);
    FineEverywhereIff(text, LspSpans(text, edits));
    FollowsLspIff(text, edits);
  }

  lemma {:induction false} AtMostOne(spans: seq<Span>, x: nat)
    requires forall i, j :: 0 <= i < j < |spans| ==> spans[i].from != spans[j].from
    ensures |StartingAt(spans, x)| <= 1
    ensures forall s :: s in StartingAt(spans, x) ==> s in spans
  {
    if spans != [] {
      AtMostOne(spans[1..], x);
      if spans[0].from == x {
        NothingStartsAt(spans[1..], x);
      }
    }
  }

  /** A legal list in which no two edits start at one place is applied as LSP asks, in any order. */
  lemma DistinctStartsFollowLsp(text: string, edits: seq<TextEdit>)
    requires Faithful(text, edits) && Legal(text, edits)
    requires forall i, j :: 0 <= i < j < |edits| ==>
                              LspSpans(text, edits)[i].from != LspSpans(text, edits)[j].from
    ensures ApplyTextEdits(text, edits) == Some(LspResult(text, LspSpans(text, edits)))
  {
    var spans := LspSpans(text, edits);
    SpansAreOrdered(text, edits);
    forall x: nat ensures FineAt(text, StartingAt(spans, x)) {
      AtMostOne(spans, x);
      var group := StartingAt(spans, x);
      if group != [] {
        assert group == [group[0]];
        SingleIsFine(text, group[0]);
      }
    }
    FollowsLspIff(text, edits);
  }

  function InsertionsAt(p: Position, texts: seq<string>): (edits: seq<TextEdit>)
    ensures |edits| == |texts| && forall i :: 0 <= i < |texts| ==> edits[i] == Insertion(p, texts[i])
  {
    seq(|texts|, i requires 0 <= i < |texts| => Insertion(p, texts[i]))
  }

  function Concatenated(texts: seq<string>): string {
    if texts == [] then "" else texts[0] + Concatenated(texts[1..])
  }

  lemma {:induction false} ConcatenatedLast(texts: seq<string>, t: string)
    ensures Concatenated(texts + [t]) == Concatenated(texts) + t
  {
    if texts == [] {
      assert [t][1..] == [];
    } else {
      assert (texts + [t])[1..] == texts[1..] + [t];
      ConcatenatedLast(texts[1..], t);
    }
  }

  lemma {:induction false} SortKeepsEqualStarts(p: Position, texts: seq<string>)
    ensures LatestStartFirst(InsertionsAt(p, texts)) == InsertionsAt(p, texts)
    decreases |texts|
  {
    if texts != [] {
      var init, last := texts[..|texts| - 1], Insertion(p, texts[|texts| - 1]);
      InsertionsSplit(p, texts);
      SortKeepsEqualStarts(p, init);
      GoesLast(InsertionsAt(p, init), last);
      SortOfAppended(InsertionsAt(p, init), last);
    }
  }

  lemma {:induction false} InsertionsSplit(p: Position, texts: seq<string>)
    requires texts != []
    ensures InsertionsAt(p, texts) ==
            InsertionsAt(p, texts[..|texts| - 1]) + [Insertion(p, texts[|texts| - 1])]
  {
  }

  lemma {:induction false} GoesLast(sorted: seq<TextEdit>, e: TextEdit)
    requires forall f :: f in sorted ==> f.range.start == e.range.start
    ensures InsertByStart(sorted, e) == sorted + [e]
    decreases |sorted|
  {
    if sorted != [] {
      GoesLast(sorted[1..], e);
      assert sorted == [sorted[0]] + sorted[1..];
    }
  }

  lemma {:induction false} InsertsAll(text: string, p: Position, texts: seq<string>, tail: string)
    requires InLine(text, p) && PositionIndex(text, p).Some?
    ensures var i := PositionIndex(text, p).value;
            ApplyInOrder(text, text[..i] + tail, InsertionsAt(p, texts)) ==
            Some(text[..i] + (Concatenated(Reversed(texts)) + tail))
    decreases |texts|
  {
    if texts == [] {
      assert "" + tail == tail;
    } else {
      Inserts(text, p, tail, texts[0]);
      assert InsertionsAt(p, texts)[1..] == InsertionsAt(p, texts[1..]);
      InsertsAll(text, p, texts[1..], texts[0] + tail);
      ConcatenatedLast(Reversed(texts[1..]), texts[0]);
      Associate(Concatenated(Reversed(texts[1..])), texts[0], tail);
    }
  }

  /** Any number of insertions at one position comes out in reverse list order; that is what LSP asks
      for exactly if the texts read the same in either order. */
  lemma SameStartIsReversed(text: string, p: Position, texts: seq<string>)
    requires InLine(text, p)
    ensures PositionIndex(text, p).Some?
    ensures var i := PositionIndex(text, p).value;
            var out := ApplyTextEdits(text, InsertionsAt(p, texts));
            && out == Some(text[..i] + (Concatenated(Reversed(texts)) + text[i..]))
            && (out == Some(text[..i] + (Concatenated(texts) + text[i..])) <==>
                Concatenated(Reversed(texts)) == Concatenated(texts))
  {
    InLineIndex(text, p);
    var i := PositionIndex(text, p).value;
    assert text == text[..i] + text[i..];
    SortKeepsEqualStarts(p, texts);
    InsertsAll(text, p, texts, text[i..]);
    SameMiddle(text[..i], Concatenated(Reversed(texts)), Concatenated(texts), text[i..]);
  }

  lemma {:induction false} SameMiddle(l: string, a: string, b: string, r: string)
    ensures l + (a + r) == l + (b + r) ==> a == b
  {
    if l + (a + r) == l + (b + r) {
      assert (l + (a + r))[|l|..] == a + r && (l + (b + r))[|l|..] == b + r;
      assert |a| == |b|;
      assert (a + r)[..|a|] == a && (b + r)[..|b|] == b;
    }
  }

  // ----------------------------------------------------------- legal lists that fail

  function Replacement(from: Position, upto: Position, text: string): TextEdit {
    TextEdit(Range(from, upto), text)
  }

  lemma PositionsInAb()
    ensures LineEnd("ab", 0) == 2 && Width("ab", 0, 2) == 2
    ensures PositionIndex("ab", Position(0, 0)) == Some(0)
    ensures PositionIndex("ab", Position(0, 1)) == Some(1)
    ensures PositionIndex("ab", Position(0, 2)) == Some(2)
  {
    assert LineEnd("ab", 2) == 2;
    assert LineEnd("ab", 1) == 2;
    assert Width("ab", 1, 2) == 1;
    assert Advance("ab", 2, 0, 2) == 2;
    assert Advance("ab", 1, 1, 2) == 2;
    assert Advance("ab", 1, 0, 2) == 1;
  }

  /** Where the code puts an insertion at the start of "ab" and edits of its first characters. */
  lemma {:induction false} WalkedInAb(n: nat, x: string)
    requires n <= 2
    ensures InLine("ab", Position(0, 0)) && InLine("ab", Position(0, n))
    ensures Walked("ab", Replacement(Position(0, 0), Position(0, n), x)) == Some(Span(0, n, x))
    ensures Offset("ab", n) == n
  {
    PositionsInAb();
    InLineIndex("ab", Position(0, 0));
    InLineIndex("ab", Position(0, n));
    assert Offset("ab", 1) == 1 && Offset("ab", 2) == 2;
  }

  lemma ReplacesInserted(b: TextEdit)
    requires b == Replacement(Position(0, 0), Position(0, 1), "Y")
    ensures ApplyEdit("ab", "Xab", b) == Some("Yab")
  {
    WalkedInAb(1, "Y");
    var out := "Xab";
    assert Offset(out, 0) == 0 && Offset(out, 1) == 1 && Offset(out, 2) == 2 && Offset(out, 3) == 3;
    CharIndexOfOffset(out, 0);
    CharIndexOfOffset(out, 1);
    assert out[..0] + "Y" + out[1..] == "Yab";
  }

  /** "X" is inserted before "ab" and "a" replaced by "Y". LSP asks for "XYb"; the code replaces the "X"
      it has just inserted and keeps the "a". */
  lemma {:induction false} InsertionIsLost()
    ensures var edits := [Insertion(Position(0, 0), "X"), Replacement(Position(0, 0), Position(0, 1), "Y")];
            && Legal("ab", edits) && LspResult("ab", LspSpans("ab", edits)) == "XYb"
            && ApplyTextEdits("ab", edits) == Some("Yab")
  {
    var a, b := Insertion(Position(0, 0), "X"), Replacement(Position(0, 0), Position(0, 1), "Y");
    LegalInAb("X");
    SortsPair(a, b);
    InsertsX();
    ReplacesInserted(b);
    AppliesPair("ab", "ab", a, b, "Xab", "Yab");
    LspKeepsInsertion();
  }

  /** LSP allows an insertion at the start of "ab" followed by a replacement of the "a". */
  lemma {:induction false} LegalInAb(x: string)
    ensures var edits := [Insertion(Position(0, 0), x), Replacement(Position(0, 0), Position(0, 1), "Y")];
            Legal("ab", edits) && LspSpans("ab", edits) == [Span(0, 0, x), Span(0, 1, "Y")]
  {
    var edits := [Insertion(Position(0, 0), x), Replacement(Position(0, 0), Position(0, 1), "Y")];
    LspPositionsInAb();
    assert edits[1..] == [edits[1]] && edits[1..][1..] == [];
    assert LspSpans("ab", edits) == [Span(0, 0, x), Span(0, 1, "Y")];
    var spans := [Span(0, 0, x), Span(0, 1, "Y")];
    assert spans[1..] == [spans[1]] && spans[1..][1..] == [];
  }

  lemma {:induction false} LspPositionsInAb()
    ensures LspIndex("ab", Position(0, 0)) == Some(0) && LspIndex("ab", Position(0, 1)) == Some(1)
  {
    assert LspLineEnd("ab", 2) == 2;
    assert LspLineEnd("ab", 1) == 2;
    assert LspLineEnd("ab", 0) == 2;
    assert Advance("ab", 1, 0, 2) == 1;
  }

  lemma {:induction false} InsertsX()
    ensures ApplyEdit("ab", "ab", Insertion(Position(0, 0), "X")) == Some("Xab")
  {
    WalkedInAb(0, "X");
    PositionsInAb();
    Inserts("ab", Position(0, 0), "ab", "X");
    assert "ab"[..0] + "ab" == "ab" && "ab"[..0] + ("X" + "ab") == "Xab";
  }

  lemma {:induction false} AppliesPair(text: string, out: string, a: TextEdit, b: TextEdit, once: string,
                                       twice: string)
    requires ApplyEdit(text, out, a) == Some(once) && ApplyEdit(text, once, b) == Some(twice)
    ensures ApplyInOrder(text, out, [a, b]) == Some(twice)
  {
    assert [a, b][1..] == [b] && [b][1..] == [];
    assert ApplyInOrder(text, once, [b]) == Some(twice);
  }

  lemma LspKeepsInsertion()
    ensures var spans := [Span(0, 0, "X"), Span(0, 1, "Y")];
            AllPairs(spans) && LspResult("ab", spans) == "XYb"
  {
    var spans := [Span(0, 0, "X"), Span(0, 1, "Y")];
    assert spans[1..] == [Span(0, 1, "Y")] && spans[1..][1..] == [];
    assert StartingAt(spans, 0) == spans;
    NothingStartsAt(spans, 1);
    NothingStartsAt(spans, 2);
    assert Joined(spans[1..]) == "Y" && Joined(spans) == "X" + "Y";
    assert spans[1].from <= 0 < spans[1].upto;
    assert Deleted(spans, 0) && !Deleted(spans, 1);
    assert LspUpTo("ab", spans, 1) == "" + ("X" + "Y") + "";
    assert LspUpTo("ab", spans, 2) == LspUpTo("ab", spans, 1) + "" + ["ab"[1]];
  }

  /** With a two-byte character for "X" the same legal list makes the code panic. */
  lemma {:induction false} LegalListPanics()
    ensures var edits := [Insertion(Position(0, 0), "\U{E9}"), Replacement(Position(0, 0), Position(0, 1), "Y")];
            Legal("ab", edits) && ApplyTextEdits("ab", edits) == None
  {
    var e := "\U{E9}";
    LegalInAb(e);
    var a, b := Insertion(Position(0, 0), e), Replacement(Position(0, 0), Position(0, 1), "Y");
    WalkedInAb(0, e);
    WalkedInAb(1, "Y");
    EndsInsideFirst("ab", e, 0, "Y");
    PairPanicsIff("ab", a, b);
  }

  /** A replacement of the first character ends inside the two-byte text that replaced the first `n`. */
  lemma {:induction false} EndsInsideFirst(text: string, e: string, n: nat, y: string)
    requires e == "\U{E9}" && 1 <= |text| && n <= |text| && Offset(text, 1) == 1
    ensures EndsInside(text, Span(0, n, e), Span(0, 1, y))
  {
    InsideTwoBytes(e, text[n..]);
  }

  lemma {:induction false} InsideTwoBytes(e: string, rest: string)
    requires e == "\U{E9}"
    ensures CharIndex(e + rest, 1) == None && 1 <= Bytes(e + rest)
  {
    assert Offset(e, 0) == 0 && Offset(e, 1) == 2;
    assert CharIndex(e, 1) == None;
    CharIndexInHead(e, rest, 1);
    BytesOfConcat(e, rest);
  }

  /** Overlapping edits, which LSP rules out, can panic too, although every range is valid in the text:
      the second range ends inside a character that the first edit put there. */
  lemma {:induction false} OverlapPanics()
    ensures var whole, first := Range(Position(0, 0), Position(0, 2)), Range(Position(0, 0), Position(0, 1));
            && InLine("ab", whole.end) && InLine("ab", first.end)
            && ApplyTextEdits("ab", [TextEdit(whole, "\U{E9}"), TextEdit(first, "")]) == None
  {
    var e := "\U{E9}";
    var a, b := Replacement(Position(0, 0), Position(0, 2), e), Replacement(Position(0, 0), Position(0, 1), "");
    WalkedInAb(2, e);
    WalkedInAb(1, "");
    EndsInsideFirst("ab", e, 2, "");
    PairPanicsIff("ab", a, b);
  }

  /** An insertion whose column is past the end of its line, which LSP puts at the end of the line. The
      code walks on into the next line, and panics inside the character that an edit has put there. */
  lemma {:induction false} PastItsLinePanics()
    ensures var edits := [Replacement(Position(1, 0), Position(1, 1), "\U{E9}"), Insertion(Position(0, 9), "Z")];
            && LspIndex("a\nb", Position(0, 9)) == Some(1) && UnclampedIndex("a\nb", Position(0, 9)) == Some(3)
            && Legal("a\nb", edits) && ApplyTextEdits("a\nb", edits) == None
  {
    var text, e := "a\nb", "\U{E9}";
    var a, b := Replacement(Position(1, 0), Position(1, 1), e), Insertion(Position(0, 9), "Z");
    WalkedInTwoLines();
    LegalInTwoLines(e);
    assert e + text[3..] == e && Bytes(e) == 2 by {
      assert Offset(e, 0) == 0 && Offset(e, 1) == 2;
    }
    InsideTwoBytes(e, "");
    assert e + "" == e;
    assert Offset(text, 3) == Offset(text, 2) + 1;
    PairPanicsIff(text, a, b);
  }

  lemma {:induction false} WalkedInTwoLines()
    ensures UnclampedIndex("a\nb", Position(1, 0)) == Some(2) && UnclampedIndex("a\nb", Position(1, 1)) == Some(3)
    ensures UnclampedIndex("a\nb", Position(0, 9)) == Some(3)
  {
    var text := "a\nb";
    assert LineEnd(text, 1) == 1;
    assert LineEnd(text, 0) == 1;
    assert LineStart(text, 1) == Some(2);
    assert Advance(text, 3, 0, 3) == 3;
    assert Advance(text, 2, 7, 3) == Advance(text, 3, 6, 3) == 3;
    assert Advance(text, 1, 8, 3) == 3;
  }

  lemma {:induction false} LegalInTwoLines(e: string)
    ensures LspIndex("a\nb", Position(0, 9)) == Some(1)
    ensures Legal("a\nb", [Replacement(Position(1, 0), Position(1, 1), e), Insertion(Position(0, 9), "Z")])
  {
    var text := "a\nb";
    var edits := [Replacement(Position(1, 0), Position(1, 1), e), Insertion(Position(0, 9), "Z")];
    assert LspLineEnd(text, 1) == 1;
    assert LspLineEnd(text, 0) == 1;
    assert LspLineEnd(text, 3) == 3;
    assert LspLineEnd(text, 2) == 3;
    assert LspLineStart(text, 1) == Some(2);
    assert Advance(text, 3, 0, 3) == 3;
    assert Advance(text, 1, 8, 1) == 1;
    assert edits[1..] == [edits[1]] && edits[1..][1..] == [];
    assert LspSpans(text, edits) == [Span(2, 3, e), Span(1, 1, "Z")];
    var spans := [Span(2, 3, e), Span(1, 1, "Z")];
    assert spans[1..] == [spans[1]] && spans[1..][1..] == [];
  }
}
