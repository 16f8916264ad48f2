/** What `apply_text_edits` does with any list of edits, overlapping ones included: when it panics,
    when it skips, and when it does neither. */
module TextEditRuns {
  import opened Wrappers
  import opened TextPositions
  import opened TextEdits

  // ------------------------------------------------------- bytes of two parts

  /** The length of a text in bytes. */
  function Bytes(text: string): nat {
    Offset(text, |text|)
  }

  lemma {:induction false} OffsetOfConcat(a: string, b: string, i: nat)
    requires i <= |b|
    ensures Offset(a + b, |a| + i) == Bytes(a) + Offset(b, i)
  {
    if i == 0 {
      OffsetOfPrefix(a, a + b, |a|);
    } else {
      OffsetOfConcat(a, b, i - 1);
      assert (a + b)[|a| + i - 1] == b[i - 1];
    }
  }

  lemma BytesOfConcat(a: string, b: string)
    ensures Bytes(a + b) == Bytes(a) + Bytes(b)
  {
    OffsetOfConcat(a, b, |b|);
  }

  lemma BytesOfSlice(text: string, i: nat, j: nat)
    requires i <= j <= |text|
    ensures Bytes(text[i..j]) == Offset(text, j) - Offset(text, i)
  {
    var head, mid := text[..i], text[i..j];
    BytesOfConcat(head, mid);
    assert head + mid == text[..j];
    OffsetOfPrefix(head, text, i);
    OffsetOfPrefix(text[..j], text, j);
  }

  /** Looking for a byte behind `a` is looking for it in `b`. */
  lemma CharIndexInTail(a: string, b: string, d: nat)
    ensures CharIndex(a + b, Bytes(a) + d) ==
            match CharIndex(b, d) case None => None case Some(i) => Some(|a| + i)
  {
    var r := CharIndex(b, d);
    if r.Some? {
      OffsetOfConcat(a, b, r.value);
      CharIndexOfOffset(a + b, |a| + r.value);
    } else {
      NoCharInTail(a, b, d);
    }
  }

  lemma NoCharInTail(a: string, b: string, d: nat)
    requires CharIndex(b, d).None?
    ensures CharIndex(a + b, Bytes(a) + d).None?
  {
    var r := CharIndex(a + b, Bytes(a) + d);
    if r.Some? {
      OffsetOfConcat(a, b, 0);
      if r.value < |a| {
        OffsetsGrow(a + b, r.value, |a|);
      } else {
        OffsetOfConcat(a, b, r.value - |a|);
      }
    }
  }

  // ---------------------------------------------------------- one edit's fate

  /** The text under edit: `text[..upto]` untouched, and then `tail`. */
  datatype Progress = Progress(upto: nat, tail: string)

  function Out(text: string, pr: Progress): string
    requires pr.upto <= |text|
  {
    text[..pr.upto] + pr.tail
  }

  /** The characters between which `byte_offset` puts the edit. */
  function Walked(text: string, e: TextEdit): (r: Option<Span>)
    ensures r.Some? ==> r.value.from <= |text| && r.value.upto <= |text|
  {
    var i, j := UnclampedIndex(text, e.range.start), UnclampedIndex(text, e.range.end);
    if i.Some? && j.Some? then Some(Span(i.value, j.value, e.newText)) else None
  }

  datatype Fate = Skipped | Panics | Applied(next: Progress)

  /** What becomes of an edit. In the untouched part it is applied. An end that lies behind it is as many
      bytes into the new text as it was into the old one: the edit is skipped if that is past the end,
      and panics if an end is inside a character. */
  function FateOf(text: string, pr: Progress, s: Span): (f: Fate)
    requires pr.upto <= |text| && s.from <= |text| && s.upto <= |text|
    ensures f.Applied? ==> f.next.upto == if s.from <= pr.upto then s.from else pr.upto
  {
    if s.from > s.upto then Skipped
    else if s.upto <= pr.upto then Applied(Progress(s.from, s.with + (text[s.upto..pr.upto] + pr.tail)))
    else
      OffsetsInOrder(text, pr.upto, s.upto);
      var past := Offset(text, s.upto) - Offset(text, pr.upto);
      if past > Bytes(pr.tail) then Skipped
      else
        var j := CharIndex(pr.tail, past);
        if s.from <= pr.upto then
          if j.None? then Panics else Applied(Progress(s.from, s.with + pr.tail[j.value..]))
        else
          OffsetsInOrder(text, pr.upto, s.from);
          var i := CharIndex(pr.tail, Offset(text, s.from) - Offset(text, pr.upto));
          if i.None? || j.None? || j.value < i.value then Panics
          else Applied(Progress(pr.upto, pr.tail[..i.value] + (s.with + pr.tail[j.value..])))
  }

  lemma FateInPrefix(text: string, pr: Progress, e: TextEdit)
    requires pr.upto <= |text| && Walked(text, e).Some?
    requires Walked(text, e).value.from <= Walked(text, e).value.upto <= pr.upto
    ensures ApplyEdit(text, Out(text, pr), e) == Some(Out(text, FateOf(text, pr, Walked(text, e).value).next))
  {
    var s := Walked(text, e).value;
    ReplaceInPrefix(text, pr.upto, pr.tail, s.from, s.upto, s.with);
    assert s.with + text[s.upto..pr.upto] + pr.tail == s.with + (text[s.upto..pr.upto] + pr.tail);
  }

  /** Replacing from inside `a` to `d` bytes into `b`. */
  lemma ReplaceAcross(a: string, b: string, i: nat, d: nat, with: string)
    requires i <= |a|
    ensures ReplaceRange(a + b, Offset(a, i), Bytes(a) + d, with) ==
            match CharIndex(b, d) case None => None case Some(k) => Some(a[..i] + (with + b[k..]))
  {
    var out := a + b;
    assert a == out[..|a|];
    OffsetOfPrefix(a, out, i);
    CharIndexOfOffset(out, i);
    CharIndexInTail(a, b, d);
    var k := CharIndex(b, d);
    if k.Some? {
      Across(a, b, i, k.value, with);
    }
  }

  lemma Across(a: string, b: string, i: nat, k: nat, with: string)
    requires i <= |a| && k <= |b|
    ensures (a + b)[..i] + with + (a + b)[|a| + k..] == a[..i] + (with + b[k..])
  {
    assert (a + b)[..i] == a[..i] && (a + b)[|a| + k..] == b[k..];
  }

  lemma BytesOfPrefix(text: string, i: nat, j: nat)
    requires i <= j <= |text|
    ensures Offset(text[..j], i) == Offset(text, i) && text[..j][..i] == text[..i]
  {
    OffsetOfPrefix(text[..j], text, i);
  }

  /** An edit that starts before character `i` of the head and ends `d` bytes into the tail. */
  lemma {:induction false} EditsAcross(text: string, e: TextEdit, head: string, tail: string, i: nat, d: nat)
    requires i <= |head| && Walked(text, e).Some?
    requires Offset(text, Walked(text, e).value.from) == Offset(head, i) <= Bytes(head)
    requires Offset(text, Walked(text, e).value.upto) == Bytes(head) + d
    ensures ApplyEdit(text, head + tail, e) ==
            if d > Bytes(tail) then Some(head + tail)
            else
              match CharIndex(tail, d)
              case None => None
              case Some(k) => Some(head[..i] + (e.newText + tail[k..]))
  {
    BytesOfConcat(head, tail);
    ReplaceAcross(head, tail, i, d, e.newText);
  }

  lemma {:induction false} FatePastPrefix(text: string, pr: Progress, e: TextEdit)
    requires pr.upto <= |text| && Walked(text, e).Some?
    requires Walked(text, e).value.from <= pr.upto < Walked(text, e).value.upto
    ensures ApplyEdit(text, Out(text, pr), e) ==
            match FateOf(text, pr, Walked(text, e).value)
            case Skipped => Some(Out(text, pr))
            case Panics => None
            case Applied(next) => Some(Out(text, next))
  {
    var s, head := Walked(text, e).value, text[..pr.upto];
    OffsetsInOrder(text, s.from, pr.upto);
    OffsetsInOrder(text, pr.upto, s.upto);
    BytesOfPrefix(text, s.from, pr.upto);
    BytesOfPrefix(text, pr.upto, pr.upto);
    EditsAcross(text, e, head, pr.tail, s.from, Offset(text, s.upto) - Offset(text, pr.upto));
  }

  /** Replacing `b` from `c` bytes on to `d` bytes into it. */
  lemma {:induction false} ReplaceBehind(a: string, b: string, c: nat, d: nat, with: string)
    ensures ReplaceRange(a + b, Bytes(a) + c, Bytes(a) + d, with) ==
            var i, j := CharIndex(b, c), CharIndex(b, d);
            if i.None? || j.None? || j.value < i.value then None
            else Some(a + (b[..i.value] + (with + b[j.value..])))
  {
    CharIndexInTail(a, b, c);
    CharIndexInTail(a, b, d);
    var i, j := CharIndex(b, c), CharIndex(b, d);
    if i.Some? && j.Some? {
      Behind(a, b, i.value, j.value, with);
    }
  }

  lemma {:induction false} Behind(a: string, b: string, i: nat, j: nat, with: string)
    requires i <= |b| && j <= |b|
    ensures (a + b)[..|a| + i] + with + (a + b)[|a| + j..] == a + (b[..i] + (with + b[j..]))
  {
    assert (a + b)[..|a| + i] == a + b[..i] && (a + b)[|a| + j..] == b[j..];
  }

  /** An edit that starts `c` bytes into the tail and ends `d` bytes into it. */
  lemma {:induction false} EditsBehind(text: string, e: TextEdit, head: string, tail: string, c: nat, d: nat)
    requires c <= d && Walked(text, e).Some?
    requires Offset(text, Walked(text, e).value.from) == Bytes(head) + c
    requires Offset(text, Walked(text, e).value.upto) == Bytes(head) + d
    ensures ApplyEdit(text, head + tail, e) ==
            if d > Bytes(tail) then Some(head + tail)
            else
              var i, j := CharIndex(tail, c), CharIndex(tail, d);
              if i.None? || j.None? || j.value < i.value then None
              else Some(head + (tail[..i.value] + (e.newText + tail[j.value..])))
  {
    BytesOfConcat(head, tail);
    ReplaceBehind(head, tail, c, d, e.newText);
  }

  lemma {:induction false} FateBehindPrefix(text: string, pr: Progress, e: TextEdit)
    requires pr.upto <= |text| && Walked(text, e).Some?
    requires pr.upto < Walked(text, e).value.from <= Walked(text, e).value.upto
    ensures ApplyEdit(text, Out(text, pr), e) ==
            match FateOf(text, pr, Walked(text, e).value)
            case Skipped => Some(Out(text, pr))
            case Panics => None
            case Applied(next) => Some(Out(text, next))
  {
    var s := Walked(text, e).value;
    OffsetsInOrder(text, pr.upto, s.from);
    OffsetsInOrder(text, s.from, s.upto);
    BytesOfPrefix(text, pr.upto, pr.upto);
    var c, d := Offset(text, s.from) - Offset(text, pr.upto), Offset(text, s.upto) - Offset(text, pr.upto);
    FateOfBehind(text, pr, s, c, d);
    EditsBehind(text, e, text[..pr.upto], pr.tail, c, d);
  }

  lemma {:induction false} FateOfBehind(text: string, pr: Progress, s: Span, c: nat, d: nat)
    requires pr.upto < s.from <= s.upto <= |text|
    requires c == Offset(text, s.from) - Offset(text, pr.upto) && d == Offset(text, s.upto) - Offset(text, pr.upto)
    ensures FateOf(text, pr, s) ==
            if d > Bytes(pr.tail) then Skipped
            else
              var i, j := CharIndex(pr.tail, c), CharIndex(pr.tail, d);
              if i.None? || j.None? || j.value < i.value then Panics
              else Applied(Progress(pr.upto, pr.tail[..i.value] + (s.with + pr.tail[j.value..])))
  {
  }

  /** The code treats an edit as its fate says. */
  lemma FateIs(text: string, pr: Progress, e: TextEdit)
    requires pr.upto <= |text| && Walked(text, e).Some?
    ensures ApplyEdit(text, Out(text, pr), e) ==
            match FateOf(text, pr, Walked(text, e).value)
            case Skipped => Some(Out(text, pr))
            case Panics => None
            case Applied(next) => Some(Out(text, next))
  {
    var s := Walked(text, e).value;
    if s.from > s.upto {
      OffsetsGrow(text, s.upto, s.from);
    } else if s.upto <= pr.upto {
      FateInPrefix(text, pr, e);
    } else if s.from <= pr.upto {
      FatePastPrefix(text, pr, e);
    } else {
      FateBehindPrefix(text, pr, e);
    }
  }

  // ------------------------------------------------------------------- lists

  /** Some edit, applied in this order, has an end inside a character of what earlier ones have left. */
  predicate SomePanics(text: string, pr: Progress, edits: seq<TextEdit>)
    requires pr.upto <= |text|
    decreases |edits|
  {
    edits != [] &&
    (var w := Walked(text, edits[0]);
     if w.None? then SomePanics(text, pr, edits[1..])
     else
       match FateOf(text, pr, w.value)
       case Skipped => SomePanics(text, pr, edits[1..])
       case Panics => true
       case Applied(next) => SomePanics(text, next, edits[1..]))
  }

  lemma {:induction false} PanicsInOrder(text: string, pr: Progress, edits: seq<TextEdit>)
    requires pr.upto <= |text|
    ensures ApplyInOrder(text, Out(text, pr), edits) == None <==> SomePanics(text, pr, edits)
    decreases |edits|
  {
    if edits != [] {
      var w := Walked(text, edits[0]);
      if w.None? {
        PanicsInOrder(text, pr, edits[1..]);
      } else {
        FateIs(text, pr, edits[0]);
        match FateOf(text, pr, w.value)
        case Skipped => PanicsInOrder(text, pr, edits[1..]);
        case Panics =>
        case Applied(next) => PanicsInOrder(text, next, edits[1..]);
      }
    }
  }

  /** Exactly when the code panics, for every list of edits: it takes an edit with an end behind the start
      of one applied before it that, counted in bytes, falls inside a character. */
  lemma PanicsIff(text: string, edits: seq<TextEdit>)
    ensures ApplyTextEdits(text, edits) == None <==>
            SomePanics(text, Progress(|text|, ""), LatestStartFirst(edits))
  {
    assert Out(text, Progress(|text|, "")) == text;
    PanicsInOrder(text, Progress(|text|, ""), LatestStartFirst(edits));
  }

  /** The second of two edits panics: of its ends that lie behind the first one's start, the later one is
      not past the end of the text, and one is inside a character. */
  predicate EndsInside(text: string, first: Span, second: Span)
    requires first.from <= |text| && first.upto <= |text| && second.from <= |text| && second.upto <= |text|
  {
    var at, tail := Offset(text, first.from), first.with + text[first.upto..];
    && second.upto > first.from
    && 0 <= Offset(text, second.upto) - at <= Bytes(tail)
    && (|| CharIndex(tail, Offset(text, second.upto) - at).None?
        || (&& second.from > first.from
            && 0 <= Offset(text, second.from) - at && CharIndex(tail, Offset(text, second.from) - at).None?))
  }

  lemma FirstFate(text: string, s: Span)
    requires s.from <= s.upto <= |text|
    ensures FateOf(text, Progress(|text|, ""), s) == Applied(Progress(s.from, s.with + text[s.upto..]))
  {
    assert text[s.upto..|text|] + "" == text[s.upto..];
  }

  lemma {:induction false} SecondFate(text: string, first: Span, second: Span)
    requires first.from <= |text| && first.upto <= |text| && second.from <= second.upto <= |text|
    ensures FateOf(text, Progress(first.from, first.with + text[first.upto..]), second).Panics? <==>
            EndsInside(text, first, second)
  {
    if second.upto > first.from {
      OffsetsInOrder(text, first.from, second.upto);
      if second.from > first.from {
        SecondBehind(text, first.from, first.with + text[first.upto..], second);
      }
    }
  }

  lemma {:induction false} SecondBehind(text: string, at: nat, tail: string, second: Span)
    requires at < second.from <= second.upto <= |text|
    ensures Offset(text, at) <= Offset(text, second.from) <= Offset(text, second.upto)
    ensures var c, d := Offset(text, second.from) - Offset(text, at), Offset(text, second.upto) - Offset(text, at);
            FateOf(text, Progress(at, tail), second).Panics? <==>
            d <= Bytes(tail) && (CharIndex(tail, d).None? || CharIndex(tail, c).None?)
  {
    OffsetsInOrder(text, at, second.from);
    OffsetsInOrder(text, second.from, second.upto);
    CharIndexInOrder(tail, Offset(text, second.from) - Offset(text, at), Offset(text, second.upto) - Offset(text, at));
  }

  lemma {:induction false} CharIndexInOrder(text: string, a: nat, b: nat)
    requires a <= b
    ensures CharIndex(text, a).Some? && CharIndex(text, b).Some? ==>
              CharIndex(text, a).value <= CharIndex(text, b).value
  {
    var i, j := CharIndex(text, a), CharIndex(text, b);
    if i.Some? && j.Some? && j.value < i.value {
      OffsetsGrow(text, j.value, i.value);
    }
  }

  lemma LastPanics(text: string, pr: Progress, e: TextEdit)
    requires pr.upto <= |text| && Walked(text, e).Some?
    ensures SomePanics(text, pr, [e]) <==> FateOf(text, pr, Walked(text, e).value).Panics?
  {
    assert [e][1..] == [];
  }

  lemma PairSteps(text: string, a: TextEdit, b: TextEdit, pr: Progress)
    requires pr.upto <= |text| && Walked(text, a).Some? && FateOf(text, pr, Walked(text, a).value).Applied?
    ensures var next := FateOf(text, pr, Walked(text, a).value).next;
            SomePanics(text, pr, [a, b]) <==> SomePanics(text, next, [b])
  {
    assert [a, b][1..] == [b];
  }

  /** Two edits, `a` applied first: the code panics exactly if an end of the second one lies behind the
      first one's start, and inside a character of the first one's text or of what follows it. */
  lemma {:induction false} PairPanicsIff(text: string, a: TextEdit, b: TextEdit)
    requires AtMost(b.range.start, a.range.start)
    requires Walked(text, a).Some? && Walked(text, a).value.from <= Walked(text, a).value.upto
    requires Walked(text, b).Some? && Walked(text, b).value.from <= Walked(text, b).value.upto
    ensures ApplyTextEdits(text, [a, b]) == None <==> EndsInside(text, Walked(text, a).value, Walked(text, b).value)
  {
    var first, second := Walked(text, a).value, Walked(text, b).value;
    var pr := Progress(|text|, "");
    SortsPair(a, b);
    PanicsIff(text, [a, b]);
    FirstFate(text, first);
    PairSteps(text, a, b, pr);
    LastPanics(text, FateOf(text, pr, first).next, b);
    SecondFate(text, first, second);
  }

  // -------------------------------------------------- edits that cannot panic

  function WalkedSpans(text: string, edits: seq<TextEdit>): (r: seq<Span>)
    requires forall e :: e in edits ==> Walked(text, e).Some?
    ensures |r| == |edits| && forall i :: 0 <= i < |edits| ==> r[i] == Walked(text, edits[i]).value
  {
    if edits == [] then [] else [Walked(text, edits[0]).value] + WalkedSpans(text, edits[1..])
  }

  lemma {:induction false} AppliesFromRight(text: string, pr: Progress, edits: seq<TextEdit>)
    requires pr.upto <= |text| && forall e :: e in edits ==> Walked(text, e).Some?
    requires RightToLeft(WalkedSpans(text, edits), pr.upto)
    ensures LeftToRight(Reversed(WalkedSpans(text, edits)), 0, pr.upto)
    ensures ApplyInOrder(text, Out(text, pr), edits) ==
            Some(Substitute(text, Reversed(WalkedSpans(text, edits)), 0, pr.upto) + pr.tail)
    decreases |edits|
  {
    var spans := WalkedSpans(text, edits);
    if edits != [] {
      assert spans[1..] == WalkedSpans(text, edits[1..]);
      FateInPrefix(text, pr, edits[0]);
      AppliesFromRight(text, FateOf(text, pr, spans[0]).next, edits[1..]);
      SubstitutesOneMore(text, pr, spans);
    }
  }

  lemma SubstitutesOneMore(text: string, pr: Progress, spans: seq<Span>)
    requires pr.upto <= |text| && spans != [] && spans[0].from <= spans[0].upto <= pr.upto
    requires LeftToRight(Reversed(spans[1..]), 0, spans[0].from)
    ensures LeftToRight(Reversed(spans), 0, pr.upto)
    ensures Substitute(text, Reversed(spans), 0, pr.upto) + pr.tail ==
            Substitute(text, Reversed(spans[1..]), 0, spans[0].from) + FateOf(text, pr, spans[0]).next.tail
  {
    var s, init := spans[0], Reversed(spans[1..]);
    SubstituteLast(text, init, s, 0, pr.upto);
    assert Reversed(spans) == init + [s];
    GroupRight(Substitute(text, init, 0, s.from), s.with, text[s.upto..pr.upto], pr.tail);
  }

  lemma GroupRight<T>(a: seq<T>, b: seq<T>, c: seq<T>, d: seq<T>)
    ensures a + b + c + d == a + (b + (c + d))
  {
  }

  /** If no edit ends past the start of one applied before it, nothing panics and nothing is skipped:
      every edit replaces its own span of the original text. Edits may share a start, if all but the
      first of them in the list are insertions; those come out in reverse order before it. */
  lemma NeverPanics(text: string, edits: seq<TextEdit>)
    requires forall e :: e in LatestStartFirst(edits) ==> Walked(text, e).Some?
    requires RightToLeft(WalkedSpans(text, LatestStartFirst(edits)), |text|)
    ensures var spans := Reversed(WalkedSpans(text, LatestStartFirst(edits)));
            && LeftToRight(spans, 0, |text|)
            && ApplyTextEdits(text, edits) == Some(Substitute(text, spans, 0, |text|))
  {
    var sorted := LatestStartFirst(edits);
    assert Out(text, Progress(|text|, "")) == text;
    AppliesFromRight(text, Progress(|text|, ""), sorted);
    AppendNothing(Substitute(text, Reversed(WalkedSpans(text, sorted)), 0, |text|));
  }
}
