/** What a list of edits means by the section "TextEdit[]" of LSP 3.17, and exactly when
    `apply_text_edits` of crates/aide-lsp/src/ops.rs does that. LSP lets edits share a start: any number
    of insertions, whose texts then stand in list order, followed by at most one replacement. */
module LspEdits {
  import opened Wrappers
  import opened TextPositions
  import opened LspPositions
  import opened TextEdits
  import opened TextEditRuns

  // ------------------------------------------------------------- the meaning

  function LspSpan(text: string, e: TextEdit): (r: Option<Span>)
    ensures r.Some? ==> r.value.from <= |text| && r.value.upto <= |text|
  {
    var i, j := LspIndex(text, e.range.start), LspIndex(text, e.range.end);
    if i.Some? && j.Some? then Some(Span(i.value, j.value, e.newText)) else None
  }

  function LspSpans(text: string, edits: seq<TextEdit>): (r: seq<Span>)
    requires forall e :: e in edits ==> LspSpan(text, e).Some?
    ensures |r| == |edits| && forall i :: 0 <= i < |edits| ==> r[i] == LspSpan(text, edits[i]).value
  {
    if edits == [] then [] else [LspSpan(text, edits[0]).value] + LspSpans(text, edits[1..])
  }

  /** `a` may stand before `b` in a list: either they lie apart, or they start together and `a` is an
      insertion. */
  predicate Compatible(a: Span, b: Span) {
    if a.from == b.from then a.upto == a.from else a.upto <= b.from || b.upto <= a.from
  }

  predicate AllPairs(spans: seq<Span>) {
    spans == [] || ((forall s :: s in spans[1..] ==> Compatible(spans[0], s)) && AllPairs(spans[1..]))
  }

  /** A list of edits that LSP allows. */
  predicate Legal(text: string, edits: seq<TextEdit>) {
    && (forall e :: e in edits ==> LspSpan(text, e).Some? && AtMost(e.range.start, e.range.end))
    && AllPairs(LspSpans(text, edits))
  }

  function Joined(spans: seq<Span>): string {
    if spans == [] then "" else spans[0].with + Joined(spans[1..])
  }

  /** The spans that start at `x`, in list order. */
  function StartingAt(spans: seq<Span>, x: nat): seq<Span> {
    if spans == [] then []
    else if spans[0].from == x then [spans[0]] + StartingAt(spans[1..], x)
    else StartingAt(spans[1..], x)
  }

  predicate Deleted(spans: seq<Span>, i: nat) {
    exists k :: 0 <= k < |spans| && spans[k].from <= i < spans[k].upto
  }

  /** The new text that stands for `text[..n]`: before each character what is put there, and the
      character itself unless it is deleted. */
  function LspUpTo(text: string, spans: seq<Span>, n: nat): string
    requires n <= |text|
  {
    if n == 0 then ""
    else
      LspUpTo(text, spans, n - 1) + Joined(StartingAt(spans, n - 1)) +
      (if Deleted(spans, n - 1) then "" else [text[n - 1]])
  }

  /** All edits at once, every position read off the original text. */
  function LspResult(text: string, spans: seq<Span>): string {
    LspUpTo(text, spans, |text|) + Joined(StartingAt(spans, |text|))
  }

  // ---------------------------------------------------------- one place at a time

  /** What the code makes of `local`, the text from one start on, by the edits that start there. */
  function GroupRun(text: string, group: seq<Span>, local: string): Option<string>
    requires forall s :: s in group ==> s.from <= s.upto <= |text|
    decreases |group|
  {
    if group == [] then Some(local)
    else
      var s := group[0];
      OffsetsInOrder(text, s.from, s.upto);
      var i := CharIndex(local, Offset(text, s.upto) - Offset(text, s.from));
      if i.None? then None else GroupRun(text, group[1..], s.with + local[i.value..])
  }

  /** The edits that start at one place come out as LSP has it: the code, applying each to what the
      one before has left, ends up with their texts in list order. */
  predicate FineAt(text: string, group: seq<Span>) {
    group == [] ||
    (var last := group[|group| - 1];
     AllOrdered(text, group) && GroupRun(text, group, text[last.from..last.upto]) == Some(Joined(group)))
  }

  predicate AllOrdered(text: string, spans: seq<Span>) {
    forall s :: s in spans ==> s.from <= s.upto <= |text|
  }

  ghost predicate FineEverywhere(text: string, spans: seq<Span>) {
    forall x: nat :: FineAt(text, StartingAt(spans, x))
  }

  /** A list in the order in which the code applies it. */
  predicate Stacked(text: string, spans: seq<Span>) {
    && (forall i :: 0 <= i < |spans| ==> spans[i].from <= spans[i].upto <= |text|)
    && (forall i, j :: 0 <= i < j < |spans| ==> spans[j].from <= spans[i].from)
    && (forall i, j :: 0 <= i < j < |spans| ==>
          if spans[j].from == spans[i].from then spans[i].upto == spans[i].from
          else spans[j].upto <= spans[i].from)
  }

  /** How many spans at the front start at the same place. */
  function GroupLen(spans: seq<Span>): (n: nat)
    ensures n <= |spans| && (spans != [] ==> n > 0)
  {
    if |spans| <= 1 then |spans|
    else if spans[1].from == spans[0].from then 1 + GroupLen(spans[1..])
    else 1
  }

  lemma {:induction false} GroupIs(text: string, spans: seq<Span>)
    requires spans != [] && Stacked(text, spans)
    ensures var n := GroupLen(spans);
            && (forall i :: 0 <= i < n ==> spans[i].from == spans[0].from)
            && (forall i :: n <= i < |spans| ==> spans[i].from < spans[0].from && spans[i].upto <= spans[0].from)
  {
    if |spans| > 1 && spans[1].from == spans[0].from {
      GroupIs(text, spans[1..]);
      var m := GroupLen(spans[1..]);
      assert forall i :: 1 <= i < 1 + m ==> spans[i] == spans[1..][i - 1];
      assert forall i :: 1 + m <= i < |spans| ==> spans[i] == spans[1..][i - 1];
    }
  }

  /** The top group, whose insertions all come before its last span. */
  predicate IsGroup(text: string, group: seq<Span>, x: nat, upto: nat) {
    && group != [] && group[|group| - 1].upto == upto && x <= upto <= |text|
    && (forall i :: 0 <= i < |group| ==> group[i].from == x)
    && (forall i :: 0 <= i < |group| - 1 ==> group[i].upto == x)
  }

  lemma StackedTail(text: string, spans: seq<Span>, n: nat)
    requires n <= |spans| && Stacked(text, spans)
    ensures Stacked(text, spans[n..])
  {
    var rest := spans[n..];
    assert forall i :: 0 <= i < |rest| ==> rest[i] == spans[n + i];
  }

  lemma FrontIsGroup(text: string, spans: seq<Span>)
    requires spans != [] && Stacked(text, spans)
    ensures IsGroup(text, spans[..GroupLen(spans)], spans[0].from, spans[GroupLen(spans) - 1].upto)
  {
    GroupIs(text, spans);
    var n := GroupLen(spans);
    var group := spans[..n];
    assert group[|group| - 1] == spans[n - 1];
    forall i | 0 <= i < |group| - 1 ensures group[i].upto == spans[0].from {
      assert spans[i].from == spans[i + 1].from;
    }
  }

  lemma OthersAreBelow(text: string, spans: seq<Span>)
    requires spans != [] && Stacked(text, spans)
    ensures forall s :: s in spans[GroupLen(spans)..] ==> s.from < spans[0].from && s.upto <= spans[0].from
  {
    GroupIs(text, spans);
    var n := GroupLen(spans);
    assert forall i :: 0 <= i < |spans| - n ==> spans[n..][i] == spans[n + i];
  }

  lemma TopGroup(text: string, spans: seq<Span>)
    requires spans != [] && Stacked(text, spans)
    ensures var n, x := GroupLen(spans), spans[0].from;
            && IsGroup(text, spans[..n], x, spans[n - 1].upto)
            && Stacked(text, spans[n..])
            && (forall s :: s in spans[n..] ==> s.from < x && s.upto <= x)
            && (forall s :: s in spans[..n] ==> s.from <= s.upto <= |text|)
  {
    FrontIsGroup(text, spans);
    StackedTail(text, spans, GroupLen(spans));
    OthersAreBelow(text, spans);
  }

  // ------------------------------------------------- what the code does with it

  /** Starts that do not increase, from `hi` on. */
  predicate Falls(text: string, spans: seq<Span>, hi: nat) {
    spans == [] ||
    (spans[0].from <= hi && spans[0].upto <= |text| && Falls(text, spans[1..], spans[0].from))
  }

  lemma FallsFromHigher(text: string, spans: seq<Span>, lo: nat, hi: nat)
    requires lo <= hi && Falls(text, spans, lo)
    ensures Falls(text, spans, hi)
  {
  }

  function RunSpans(text: string, pr: Progress, spans: seq<Span>): Option<string>
    requires pr.upto <= |text| && Falls(text, spans, pr.upto)
    decreases |spans|
  {
    if spans == [] then Some(Out(text, pr))
    else
      FallsFromHigher(text, spans[1..], spans[0].from, pr.upto);
      match FateOf(text, pr, spans[0])
      case Skipped => RunSpans(text, pr, spans[1..])
      case Panics => None
      case Applied(next) => RunSpans(text, next, spans[1..])
  }

  lemma {:induction false} StackedFalls(text: string, spans: seq<Span>, hi: nat)
    requires Stacked(text, spans) && (spans != [] ==> spans[0].from <= hi)
    ensures Falls(text, spans, hi)
    decreases |spans|
  {
    if spans != [] {
      assert forall i :: 0 <= i < |spans| - 1 ==> spans[1..][i] == spans[i + 1];
      StackedFalls(text, spans[1..], spans[0].from);
    }
  }

  lemma {:induction false} InOrderIsRun(text: string, pr: Progress, edits: seq<TextEdit>)
    requires pr.upto <= |text| && forall e :: e in edits ==> Walked(text, e).Some?
    requires Falls(text, WalkedSpans(text, edits), pr.upto)
    ensures ApplyInOrder(text, Out(text, pr), edits) == RunSpans(text, pr, WalkedSpans(text, edits))
    decreases |edits|
  {
    if edits != [] {
      var spans := WalkedSpans(text, edits);
      assert spans[1..] == WalkedSpans(text, edits[1..]);
      FallsFromHigher(text, spans[1..], spans[0].from, pr.upto);
      FateIs(text, pr, edits[0]);
      match FateOf(text, pr, spans[0])
      case Skipped => InOrderIsRun(text, pr, edits[1..]);
      case Panics =>
      case Applied(next) => InOrderIsRun(text, next, edits[1..]);
    }
  }

  lemma CharIndexInHead(a: string, b: string, d: nat)
    requires d <= Bytes(a)
    ensures CharIndex(a + b, d) == CharIndex(a, d)
  {
    var r, k := CharIndex(a, d), CharIndex(a + b, d);
    assert a == (a + b)[..|a|];
    if r.Some? {
      OffsetOfPrefix(a, a + b, r.value);
      CharIndexOfOffset(a + b, r.value);
    } else if k.Some? {
      if k.value <= |a| {
        OffsetOfPrefix(a, a + b, k.value);
      } else {
        OffsetOfPrefix(a, a + b, |a|);
        OffsetsGrow(a + b, |a|, k.value);
      }
    }
  }

  /** How many bytes of the original text an edit spans. */
  function Spanned(text: string, s: Span): nat
    requires s.from <= s.upto <= |text|
  {
    OffsetsInOrder(text, s.from, s.upto);
    Offset(text, s.upto) - Offset(text, s.from)
  }

  lemma DropNothing(s: string)
    ensures s[0..] == s
    ensures CharIndex(s, 0) == Some(0)
  {
    CharIndexOfOffset(s, 0);
  }

  lemma InsertInGroup(text: string, s: Span, local: string, rest: string)
    requires s.from == s.upto <= |text|
    ensures CharIndex(local, 0) == Some(0)
    ensures FateOf(text, Progress(s.from, local + rest), s) == Applied(Progress(s.from, s.with + local[0..] + rest))
  {
    DropNothing(local);
    assert text[s.from..s.from] + (local + rest) == local + rest;
    Associate(s.with, local, rest);
  }

  lemma Associate<T>(a: seq<T>, b: seq<T>, c: seq<T>)
    ensures a + (b + c) == a + b + c
  {
  }

  lemma DropFromFirst<T>(a: seq<T>, b: seq<T>, i: nat)
    requires i <= |a|
    ensures (a + b)[i..] == a[i..] + b
  {
  }

  /** An edit at the start of the part already edited. */
  lemma {:induction false} StepInGroup(text: string, s: Span, local: string, rest: string)
    requires s.from <= s.upto <= |text| && Spanned(text, s) <= Bytes(local)
    ensures FateOf(text, Progress(s.from, local + rest), s) ==
            match CharIndex(local, Spanned(text, s))
            case None => Panics
            case Some(i) => Applied(Progress(s.from, s.with + local[i..] + rest))
  {
    if s.from == s.upto {
      InsertInGroup(text, s, local, rest);
    } else {
      BytesOfConcat(local, rest);
      CharIndexInHead(local, rest, Spanned(text, s));
      var i := CharIndex(local, Spanned(text, s));
      if i.Some? {
        DropFromFirst(local, rest, i.value);
        Associate(s.with, local[i.value..], rest);
      }
    }
  }

  /** A character of a slice is as many bytes into it as into the text. */
  lemma {:induction false} CharIndexOfSlice(text: string, i: nat, j: nat, k: nat)
    requires i <= j <= k <= |text|
    ensures 0 <= Offset(text, j) - Offset(text, i) <= Bytes(text[i..k])
    ensures CharIndex(text[i..k], Offset(text, j) - Offset(text, i)) == Some(j - i)
    ensures text[i..k][j - i..] == text[j..k]
  {
    var head := text[i..j];
    BytesOfSlice(text, i, j);
    BytesOfSlice(text, i, k);
    OffsetsInOrder(text, i, j);
    OffsetsInOrder(text, j, k);
    BytesOfPrefix(text[i..k], j - i, j - i);
    assert text[i..k][..j - i] == head;
    CharIndexOfOffset(text[i..k], j - i);
  }

  lemma {:induction false} SplitAt(text: string, a: nat, b: nat, c: nat, with: string, tail: string)
    requires a <= b <= c <= |text|
    ensures with + (text[a..c] + tail) == with + text[a..b] + (text[b..c] + tail)
  {
    assert text[a..c] == text[a..b] + text[b..c];
  }

  /** The first edit of a group leaves the same, whether the text from its start on counts as edited
      already or not. */
  lemma {:induction false} FirstOfGroup(text: string, pr: Progress, s: Span, upto: nat)
    requires s.from <= s.upto <= upto <= pr.upto <= |text|
    ensures FateOf(text, pr, s) ==
            FateOf(text, Progress(s.from, text[s.from..upto] + (text[upto..pr.upto] + pr.tail)), s)
  {
    StepInUntouched(text, s, upto, text[upto..pr.upto] + pr.tail);
    SplitAt(text, s.upto, upto, pr.upto, s.with, pr.tail);
    FateOfUntouched(text, pr, s);
  }

  lemma {:induction false} FateOfUntouched(text: string, pr: Progress, s: Span)
    requires s.from <= s.upto <= pr.upto <= |text|
    ensures FateOf(text, pr, s) == Applied(Progress(s.from, s.with + (text[s.upto..pr.upto] + pr.tail)))
  {
  }

  lemma {:induction false} StepInUntouched(text: string, s: Span, upto: nat, rest: string)
    requires s.from <= s.upto <= upto <= |text|
    ensures FateOf(text, Progress(s.from, text[s.from..upto] + rest), s) ==
            Applied(Progress(s.from, s.with + text[s.upto..upto] + rest))
  {
    CharIndexOfSlice(text, s.from, s.upto, upto);
    var local := text[s.from..upto];
    assert CharIndex(local, Spanned(text, s)) == Some(s.upto - s.from);
    assert local[s.upto - s.from..] == text[s.upto..upto];
    StepInGroup(text, s, local, rest);
  }

  lemma {:induction false} GroupFalls(text: string, group: seq<Span>, x: nat, others: seq<Span>)
    requires (forall i :: 0 <= i < |group| ==> group[i].from == x && group[i].upto <= |text|)
    requires Falls(text, others, x)
    ensures Falls(text, group + others, x)
    decreases |group|
  {
    if group == [] {
      assert group + others == others;
    } else {
      assert (group + others)[1..] == group[1..] + others;
      GroupFalls(text, group[1..], x, others);
    }
  }

  lemma {:induction false} GroupRuns(text: string, group: seq<Span>, x: nat, local: string, rest: string,
                                     others: seq<Span>)
    requires x <= |text| && Falls(text, others, x) && AllOrdered(text, group)
    requires group != [] ==> IsGroup(text, group, x, group[|group| - 1].upto)
    requires group != [] ==> Spanned(text, group[|group| - 1]) <= Bytes(local)
    ensures Falls(text, group + others, x)
    ensures RunSpans(text, Progress(x, local + rest), group + others) ==
            match GroupRun(text, group, local)
            case None => None
            case Some(done) => RunSpans(text, Progress(x, done + rest), others)
    decreases |group|
  {
    GroupFalls(text, group, x, others);
    if group == [] {
      assert group + others == others;
    } else {
      var s, more := group[0], group[1..];
      GroupFalls(text, more, x, others);
      SpansNoMore(text, group, local);
      FirstRuns(text, s, local, rest, more + others);
      HeadFirst(group, others);
      var i := CharIndex(local, Spanned(text, s));
      if i.Some? {
        RestOfGroup(text, group, x, local, i.value);
        GroupRuns(text, more, x, s.with + local[i.value..], rest, others);
      }
    }
  }

  lemma {:induction false} RestOfGroup(text: string, group: seq<Span>, x: nat, local: string, i: nat)
    requires group != [] && AllOrdered(text, group) && IsGroup(text, group, x, group[|group| - 1].upto)
    requires Spanned(text, group[|group| - 1]) <= Bytes(local)
    requires i <= |local| && CharIndex(local, Spanned(text, group[0])) == Some(i)
    ensures var more := group[1..];
            AllOrdered(text, more) &&
            (more != [] ==> IsGroup(text, more, x, more[|more| - 1].upto) &&
                            Spanned(text, more[|more| - 1]) <= Bytes(group[0].with + local[i..]))
  {
    SpansNoMore(text, group, local);
  }

  lemma {:induction false} HeadFirst<T>(a: seq<T>, b: seq<T>)
    requires a != []
    ensures a + b == [a[0]] + (a[1..] + b)
  {
  }

  lemma {:induction false} FirstRuns(text: string, s: Span, local: string, rest: string, others: seq<Span>)
    requires s.from <= s.upto <= |text| && Spanned(text, s) <= Bytes(local) && Falls(text, others, s.from)
    ensures Falls(text, [s] + others, s.from)
    ensures RunSpans(text, Progress(s.from, local + rest), [s] + others) ==
            match CharIndex(local, Spanned(text, s))
            case None => None
            case Some(i) => RunSpans(text, Progress(s.from, s.with + local[i..] + rest), others)
  {
    assert ([s] + others)[1..] == others;
    StepInGroup(text, s, local, rest);
  }

  /** What the last span of a group needs is still there after the others. */
  lemma {:induction false} SpansNoMore(text: string, group: seq<Span>, local: string)
    requires group != [] && AllOrdered(text, group)
    requires IsGroup(text, group, group[0].from, group[|group| - 1].upto)
    requires Spanned(text, group[|group| - 1]) <= Bytes(local)
    ensures Spanned(text, group[0]) <= Bytes(local)
    ensures |group| > 1 ==>
              CharIndex(local, Spanned(text, group[0])) == Some(0) &&
              Spanned(text, group[|group| - 1]) <= Bytes(group[0].with + local[0..])
  {
    if |group| > 1 {
      DropNothing(local);
      BytesOfConcat(group[0].with, local);
    }
  }

  /** A whole group: it edits its own part of the text, whatever has been made of what follows. */
  lemma GroupApplies(text: string, pr: Progress, spans: seq<Span>)
    requires spans != [] && Stacked(text, spans) && spans[0].from <= pr.upto <= |text|
    requires spans[GroupLen(spans) - 1].upto <= pr.upto
    ensures var n, x := GroupLen(spans), spans[0].from;
            var upto := spans[n - 1].upto;
            && x <= upto && Falls(text, spans, pr.upto) && Falls(text, spans[n..], x)
            && AllOrdered(text, spans[..n])
            && RunSpans(text, pr, spans) ==
               match GroupRun(text, spans[..n], text[x..upto])
               case None => None
               case Some(done) => RunSpans(text, Progress(x, done + (text[upto..pr.upto] + pr.tail)), spans[n..])
  {
    TopGroup(text, spans);
    var n, x := GroupLen(spans), spans[0].from;
    var upto := spans[n - 1].upto;
    var rest := text[upto..pr.upto] + pr.tail;
    TakeAndDrop(spans, n);
    StackedFalls(text, spans, pr.upto);
    StackedFalls(text, spans[n..], x);
    CharIndexOfSlice(text, x, upto, upto);
    GroupRuns(text, spans[..n], x, text[x..upto], rest, spans[n..]);
    SameFromFirst(text, pr, Progress(x, text[x..upto] + rest), spans, upto);
  }

  lemma TakeAndDrop<T>(xs: seq<T>, n: nat)
    requires n <= |xs|
    ensures xs[..n] + xs[n..] == xs
  {
  }

  lemma SameFromFirst(text: string, pr: Progress, at: Progress, spans: seq<Span>, upto: nat)
    requires spans != [] && pr.upto <= |text| && Falls(text, spans, pr.upto) && Falls(text, spans, at.upto)
    requires spans[0].from <= spans[0].upto <= upto <= pr.upto
    requires at == Progress(spans[0].from, text[spans[0].from..upto] + (text[upto..pr.upto] + pr.tail))
    ensures RunSpans(text, pr, spans) == RunSpans(text, at, spans)
  {
    var s := spans[0];
    FirstOfGroup(text, pr, s, upto);
    assert FateOf(text, pr, s).Applied?;
  }

  // ------------------------------------------------------ both, group by group

  function Combined(below: Option<string>, here: Option<string>, above: string): Option<string> {
    if below.None? || here.None? then None else Some(below.value + here.value + above)
  }

  /** What the code makes of `text[..x]`; None if it panics. */
  function CodeOut(text: string, spans: seq<Span>, x: nat): Option<string>
    requires x <= |text| && Stacked(text, spans) && forall s :: s in spans ==> s.from <= x && s.upto <= x
    decreases |spans|
  {
    if spans == [] then Some(text[..x])
    else
      TopGroup(text, spans);
      var n, start := GroupLen(spans), spans[0].from;
      var upto := spans[n - 1].upto;
      assert spans[n - 1] in spans;
      Combined(CodeOut(text, spans[n..], start), GroupRun(text, spans[..n], text[start..upto]), text[upto..x])
  }

  /** What LSP makes of it, with what is put before character `x`. */
  function LspOut(text: string, spans: seq<Span>, x: nat): string
    requires x <= |text| && Stacked(text, spans) && forall s :: s in spans ==> s.from <= x && s.upto <= x
    decreases |spans|
  {
    if spans == [] then text[..x]
    else
      TopGroup(text, spans);
      var n, start := GroupLen(spans), spans[0].from;
      assert spans[n - 1] in spans;
      LspOut(text, spans[n..], start) + Joined(spans[..n]) + text[spans[n - 1].upto..x]
  }

  lemma {:induction false} RunIsCodeOut(text: string, pr: Progress, spans: seq<Span>)
    requires pr.upto <= |text| && Stacked(text, spans)
    requires forall s :: s in spans ==> s.from <= pr.upto && s.upto <= pr.upto
    ensures Falls(text, spans, pr.upto)
    ensures RunSpans(text, pr, spans) ==
            match CodeOut(text, spans, pr.upto) case None => None case Some(out) => Some(out + pr.tail)
    decreases |spans|
  {
    StackedFalls(text, spans, pr.upto);
    if spans != [] {
      TopGroup(text, spans);
      var n, x := GroupLen(spans), spans[0].from;
      var upto := spans[n - 1].upto;
      assert spans[n - 1] in spans && spans[0] in spans;
      GroupApplies(text, pr, spans);
      var here := GroupRun(text, spans[..n], text[x..upto]);
      if here.Some? {
        RunIsCodeOut(text, Progress(x, here.value + (text[upto..pr.upto] + pr.tail)), spans[n..]);
        var below := CodeOut(text, spans[n..], x);
        if below.Some? {
          GroupRight(below.value, here.value, text[upto..pr.upto], pr.tail);
        }
      }
    }
  }

  // -- lengths

  lemma BytesKept(text: string, local: string, d: nat, with: string)
    requires CharIndex(local, d).Some?
    ensures Bytes(with + local[CharIndex(local, d).value..]) == Bytes(with) + Bytes(local) - d
  {
    var i := CharIndex(local, d).value;
    var head := local[..i];
    assert head + local[i..] == local;
    BytesOfConcat(head, local[i..]);
    OffsetOfPrefix(head, local, i);
    BytesOfConcat(with, local[i..]);
  }

  lemma {:induction false} GroupRunBytes(text: string, group: seq<Span>, local: string)
    requires AllOrdered(text, group) && GroupRun(text, group, local).Some?
    requires group != [] ==> IsGroup(text, group, group[0].from, group[|group| - 1].upto)
    ensures Bytes(GroupRun(text, group, local).value) ==
            Bytes(Joined(group)) + Bytes(local) - (if group == [] then 0 else Spanned(text, group[|group| - 1]))
    decreases |group|
  {
    if group != [] {
      var s, more := group[0], group[1..];
      BytesKept(text, local, Spanned(text, s), s.with);
      BytesOfConcat(s.with, Joined(more));
      var i := CharIndex(local, Spanned(text, s)).value;
      GroupRunBytes(text, more, s.with + local[i..]);
    }
  }

  /** A group takes up as many bytes either way. */
  lemma SameBytes(text: string, group: seq<Span>, x: nat, upto: nat)
    requires IsGroup(text, group, x, upto) && AllOrdered(text, group)
    requires GroupRun(text, group, text[x..upto]).Some?
    ensures Bytes(GroupRun(text, group, text[x..upto]).value) == Bytes(Joined(group))
  {
    GroupRunBytes(text, group, text[x..upto]);
    BytesOfSlice(text, x, upto);
  }

  /** Equal texts that are cut after equally many bytes have equal parts. */
  lemma SameParts(a: string, b: string, c: string, d: string)
    requires a + b == c + d && Bytes(a) == Bytes(c)
    ensures a == c && b == d
  {
    var s := a + b;
    assert s[..|a|] == a && s[..|c|] == c && s[|a|..] == b && s[|c|..] == d;
    BytesOfPrefix(s, |a|, |a|);
    BytesOfPrefix(s, |c|, |c|);
    if |a| < |c| {
      OffsetsGrow(s, |a|, |c|);
    } else if |c| < |a| {
      OffsetsGrow(s, |c|, |a|);
    }
  }

  /** Every group is fine. */
  predicate AllFine(text: string, spans: seq<Span>)
    requires Stacked(text, spans)
    decreases |spans|
  {
    spans == [] ||
    (TopGroup(text, spans);
     FineAt(text, spans[..GroupLen(spans)]) && AllFine(text, spans[GroupLen(spans)..]))
  }

  lemma BytesOfThree(a: string, b: string, c: string)
    ensures Bytes(a + b + c) == Bytes(a) + Bytes(b) + Bytes(c)
  {
    BytesOfConcat(a, b);
    BytesOfConcat(a + b, c);
  }

  lemma PartsIff(a: string, b: string, m: string, c: string, d: string)
    requires Bytes(a) == Bytes(c) && Bytes(b) == Bytes(d)
    ensures Bytes(a + b + m) == Bytes(c + d + m)
    ensures a + b + m == c + d + m <==> a == c && b == d
  {
    BytesOfThree(a, b, m);
    BytesOfThree(c, d, m);
    if a + b + m == c + d + m {
      BytesOfConcat(a, b);
      BytesOfConcat(c, d);
      SameParts(a + b, m, c + d, m);
      SameParts(a, b, c, d);
    }
  }

  lemma CombineIff(below: Option<string>, lower: string, here: Option<string>, joined: string, above: string)
    requires below.Some? ==> Bytes(below.value) == Bytes(lower)
    requires here.Some? ==> Bytes(here.value) == Bytes(joined)
    ensures var out := Combined(below, here, above);
            && (out.Some? ==> Bytes(out.value) == Bytes(lower + joined + above))
            && (out == Some(lower + joined + above) <==> below == Some(lower) && here == Some(joined))
  {
    if below.Some? && here.Some? {
      PartsIff(below.value, here.value, above, lower, joined);
    }
  }

  lemma {:induction false} OutsAgreeIff(text: string, spans: seq<Span>, x: nat)
    requires x <= |text| && Stacked(text, spans) && forall s :: s in spans ==> s.from <= x && s.upto <= x
    ensures CodeOut(text, spans, x).Some? ==> Bytes(CodeOut(text, spans, x).value) == Bytes(LspOut(text, spans, x))
    ensures CodeOut(text, spans, x) == Some(LspOut(text, spans, x)) <==> AllFine(text, spans)
    decreases |spans|
  {
    if spans != [] {
      TopGroup(text, spans);
      var n, start := GroupLen(spans), spans[0].from;
      var group, upto := spans[..n], spans[n - 1].upto;
      assert spans[n - 1] in spans && group[|group| - 1] == spans[n - 1];
      OutsAgreeIff(text, spans[n..], start);
      var below, here := CodeOut(text, spans[n..], start), GroupRun(text, group, text[start..upto]);
      if here.Some? {
        SameBytes(text, group, start, upto);
      }
      CombineIff(below, LspOut(text, spans[n..], start), here, Joined(group), text[upto..x]);
    }
  }

  // -- the pointwise meaning, group by group

  lemma {:induction false} NothingStartsAt(spans: seq<Span>, x: nat)
    requires forall s :: s in spans ==> s.from != x
    ensures StartingAt(spans, x) == []
  {
    if spans != [] {
      assert spans[0] in spans;
      NothingStartsAt(spans[1..], x);
    }
  }

  lemma {:induction false} StartingAtConcat(a: seq<Span>, b: seq<Span>, x: nat)
    ensures StartingAt(a + b, x) == StartingAt(a, x) + StartingAt(b, x)
  {
    if a == [] {
      assert a + b == b;
    } else {
      assert (a + b)[1..] == a[1..] + b;
      StartingAtConcat(a[1..], b, x);
    }
  }

  lemma {:induction false} AllStartAt(group: seq<Span>, x: nat)
    requires forall i :: 0 <= i < |group| ==> group[i].from == x
    ensures StartingAt(group, x) == group
  {
    if group != [] {
      AllStartAt(group[1..], x);
    }
  }

  /** Who starts where in a stacked list: its top group at its place, the others below. */
  lemma StartsOfGroups(text: string, spans: seq<Span>, x: nat)
    requires spans != [] && Stacked(text, spans)
    ensures var n := GroupLen(spans);
            StartingAt(spans, x) == if x == spans[0].from then spans[..n] else StartingAt(spans[n..], x)
  {
    TopGroup(text, spans);
    var n := GroupLen(spans);
    TakeAndDrop(spans, n);
    StartingAtConcat(spans[..n], spans[n..], x);
    if x == spans[0].from {
      AllStartAt(spans[..n], x);
      NothingStartsAt(spans[n..], x);
    } else {
      NothingStartsAt(spans[..n], x);
    }
  }

  /** Above its top group's start a stacked list deletes what the last of the group spans. */
  lemma DeletedAbove(text: string, spans: seq<Span>, i: nat)
    requires spans != [] && Stacked(text, spans) && spans[0].from <= i
    ensures Deleted(spans, i) <==> i < spans[GroupLen(spans) - 1].upto
  {
    GroupIs(text, spans);
    var n := GroupLen(spans);
    if i < spans[n - 1].upto {
      assert spans[n - 1].from <= i < spans[n - 1].upto;
    }
  }

  lemma DeletedBelow(text: string, spans: seq<Span>, i: nat)
    requires spans != [] && Stacked(text, spans) && i < spans[0].from
    ensures Deleted(spans, i) <==> Deleted(spans[GroupLen(spans)..], i)
  {
    GroupIs(text, spans);
    var n := GroupLen(spans);
    if Deleted(spans, i) {
      var k :| 0 <= k < |spans| && spans[k].from <= i < spans[k].upto;
      assert k >= n && spans[n..][k - n] == spans[k];
    }
  }

  /** Two lists that put and delete the same before `m`. */
  ghost predicate Alike(a: seq<Span>, b: seq<Span>, m: nat) {
    forall i :: 0 <= i < m ==>
                  Joined(StartingAt(a, i)) == Joined(StartingAt(b, i)) && (Deleted(a, i) <==> Deleted(b, i))
  }

  lemma {:induction false} UpToAlike(text: string, a: seq<Span>, b: seq<Span>, m: nat)
    requires m <= |text| && Alike(a, b, m)
    ensures LspUpTo(text, a, m) == LspUpTo(text, b, m)
  {
    if m > 0 {
      UpToAlike(text, a, b, m - 1);
      assert Joined(StartingAt(a, m - 1)) == Joined(StartingAt(b, m - 1));
    }
  }

  lemma UpToBelow(text: string, spans: seq<Span>, m: nat)
    requires spans != [] && Stacked(text, spans) && m <= spans[0].from <= |text|
    ensures LspUpTo(text, spans, m) == LspUpTo(text, spans[GroupLen(spans)..], m)
  {
    var rest := spans[GroupLen(spans)..];
    forall i | 0 <= i < m
      ensures Joined(StartingAt(spans, i)) == Joined(StartingAt(rest, i)) && (Deleted(spans, i) <==> Deleted(rest, i))
    {
      StartsOfGroups(text, spans, i);
      DeletedBelow(text, spans, i);
    }
    UpToAlike(text, spans, rest, m);
  }

  lemma NothingAbove(text: string, spans: seq<Span>, x: nat)
    requires spans != [] && Stacked(text, spans) && spans[0].from < x
    ensures StartingAt(spans, x) == []
  {
    TopGroup(text, spans);
    StartsOfGroups(text, spans, x);
    NothingStartsAt(spans[GroupLen(spans)..], x);
  }

  lemma Suffix(text: string, upto: nat, m: nat)
    requires m < |text|
    ensures upto <= m ==> text[upto..m] + [text[m]] == text[upto..m + 1]
  {
  }

  function From(upto: nat, m: nat): nat {
    if upto < m then upto else m
  }

  lemma OneChar(text: string, upto: nat, x: nat)
    requires x < |text| && x <= upto
    ensures text[From(upto, x + 1)..x + 1] == if x < upto then "" else [text[x]]
  {
  }

  lemma {:induction false} UpToStart(text: string, spans: seq<Span>)
    requires spans != [] && Stacked(text, spans) && spans[0].from < |text|
    ensures var n, x := GroupLen(spans), spans[0].from;
            LspUpTo(text, spans, x + 1) ==
            LspUpTo(text, spans, x) + Joined(spans[..n]) + text[From(spans[n - 1].upto, x + 1)..x + 1]
  {
    var group, x, upto := spans[..GroupLen(spans)], spans[0].from, spans[GroupLen(spans) - 1].upto;
    assert x <= upto && StartingAt(spans, x) == group && (Deleted(spans, x) <==> x < upto) by {
      FrontIsGroup(text, spans);
      StartsOfGroups(text, spans, x);
      DeletedAbove(text, spans, x);
    }
    UpToNext(text, spans, x, group, upto);
  }

  lemma {:induction false} UpToNext(text: string, spans: seq<Span>, x: nat, group: seq<Span>, upto: nat)
    requires x < |text| && x <= upto && StartingAt(spans, x) == group && (Deleted(spans, x) <==> x < upto)
    ensures LspUpTo(text, spans, x + 1) ==
            LspUpTo(text, spans, x) + Joined(group) + text[From(upto, x + 1)..x + 1]
  {
    OneChar(text, upto, x);
  }

  /** Nothing starts between `x` and `m`, and what is deleted there ends at `upto`. */
  ghost predicate Quiet(spans: seq<Span>, x: nat, m: nat, upto: nat) {
    forall i :: x < i < m ==> StartingAt(spans, i) == [] && (Deleted(spans, i) <==> i < upto)
  }

  lemma {:induction false} UpToQuiet(text: string, spans: seq<Span>, x: nat, m: nat, upto: nat, front: string)
    requires x < m <= |text| && Quiet(spans, x, m, upto)
    requires LspUpTo(text, spans, x + 1) == front + text[From(upto, x + 1)..x + 1]
    ensures LspUpTo(text, spans, m) == front + text[From(upto, m)..m]
    decreases m
  {
    if x + 1 < m {
      UpToQuiet(text, spans, x, m - 1, upto, front);
      assert StartingAt(spans, m - 1) == [] && (Deleted(spans, m - 1) <==> m - 1 < upto);
      UpToOneMore(text, front, upto, m - 1);
    }
  }

  lemma {:induction false} UpToAbove(text: string, spans: seq<Span>, m: nat)
    requires spans != [] && Stacked(text, spans) && spans[0].from < m <= |text|
    ensures var n, x := GroupLen(spans), spans[0].from;
            LspUpTo(text, spans, m) ==
            LspUpTo(text, spans, x) + Joined(spans[..n]) + text[From(spans[n - 1].upto, m)..m]
  {
    var n, x := GroupLen(spans), spans[0].from;
    forall i | x < i < m
      ensures StartingAt(spans, i) == [] && (Deleted(spans, i) <==> i < spans[n - 1].upto)
    {
      NothingAbove(text, spans, i);
      DeletedAbove(text, spans, i);
    }
    UpToStart(text, spans);
    UpToQuiet(text, spans, x, m, spans[n - 1].upto, LspUpTo(text, spans, x) + Joined(spans[..n]));
  }

  lemma UpToOneMore(text: string, front: string, upto: nat, m: nat)
    requires m < |text|
    ensures front + text[From(upto, m)..m] + Joined([]) + (if m < upto then "" else [text[m]]) ==
            front + text[From(upto, m + 1)..m + 1]
  {
    if m < upto {
      assert text[m..m] == "" && text[m + 1..m + 1] == "";
    } else {
      Suffix(text, upto, m);
      Associate(front, text[upto..m], [text[m]]);
      assert front + text[upto..m] + "" == front + text[upto..m];
    }
  }

  /** The front of the meaning, given that of the groups below. */
  lemma FrontIsBelow(text: string, spans: seq<Span>, below: string)
    requires spans != [] && Stacked(text, spans) && spans[0].from <= |text|
    requires var rest := spans[GroupLen(spans)..];
             LspUpTo(text, rest, spans[0].from) + Joined(StartingAt(rest, spans[0].from)) == below
    ensures LspUpTo(text, spans, spans[0].from) == below
  {
    var rest, x := spans[GroupLen(spans)..], spans[0].from;
    OthersAreBelow(text, spans);
    NothingStartsAt(rest, x);
    AppendNothing(LspUpTo(text, rest, x));
    UpToBelow(text, spans, x);
  }

  lemma AppendEmptySlice(s: string, text: string, x: nat)
    requires x <= |text|
    ensures s + text[x..x] == s && s + Joined([]) == s
  {
  }

  /** The rest of it. */
  lemma AboveIsGroup(text: string, spans: seq<Span>, x: nat)
    requires spans != [] && Stacked(text, spans) && spans[0].from <= x <= |text|
    requires spans[0].from <= spans[GroupLen(spans) - 1].upto <= x
    ensures var n := GroupLen(spans);
            LspUpTo(text, spans, x) + Joined(StartingAt(spans, x)) ==
            LspUpTo(text, spans, spans[0].from) + Joined(spans[..n]) + text[spans[n - 1].upto..x]
  {
    var n, start := GroupLen(spans), spans[0].from;
    if start < x {
      UpToAbove(text, spans, x);
      NothingAbove(text, spans, x);
      AppendEmptySlice(LspUpTo(text, spans, x), text, x);
    } else {
      StartsOfGroups(text, spans, x);
      AppendEmptySlice(LspUpTo(text, spans, x) + Joined(spans[..n]), text, x);
    }
  }

  /** The pointwise meaning of a stacked list, group by group. */
  lemma {:induction false} MeaningIsLspOut(text: string, spans: seq<Span>, x: nat)
    requires x <= |text| && Stacked(text, spans) && forall s :: s in spans ==> s.from <= x && s.upto <= x
    ensures LspUpTo(text, spans, x) + Joined(StartingAt(spans, x)) == LspOut(text, spans, x)
    decreases |spans|
  {
    if spans == [] {
      UntouchedUpTo(text, x);
      AppendEmptySlice(text[..x], text, x);
    } else {
      TopGroup(text, spans);
      var n, start := GroupLen(spans), spans[0].from;
      assert spans[0] in spans && spans[n - 1] in spans;
      MeaningIsLspOut(text, spans[n..], start);
      FrontIsBelow(text, spans, LspOut(text, spans[n..], start));
      AboveIsGroup(text, spans, x);
    }
  }

  lemma {:induction false} UntouchedUpTo(text: string, x: nat)
    requires x <= |text|
    ensures LspUpTo(text, [], x) == text[..x]
  {
    if x > 0 {
      UntouchedUpTo(text, x - 1);
      Suffix(text, 0, x - 1);
      AppendNothing(text[..x - 1]);
    }
  }

  // --------------------------------------------------------- from edits to spans

  /** The code finds both ends where LSP has them, and edits that start at one place say so with one
      position. Columns that lie on their line, between characters, in a text without lone carriage
      returns, are such. */
  predicate Faithful(text: string, edits: seq<TextEdit>) {
    && (forall e :: e in edits ==>
          && LspSpan(text, e).Some?
          && UnclampedIndex(text, e.range.start) == LspIndex(text, e.range.start)
          && UnclampedIndex(text, e.range.end) == LspIndex(text, e.range.end))
    && (forall a, b :: a in edits && b in edits && LspIndex(text, a.range.start) == LspIndex(text, b.range.start) ==>
          a.range.start == b.range.start)
  }

  lemma {:induction false} SameSpans(text: string, edits: seq<TextEdit>)
    requires Faithful(text, edits)
    ensures forall e :: e in edits ==> Walked(text, e) == LspSpan(text, e)
    ensures LspSpans(text, edits) == WalkedSpans(text, edits)
  {
  }

  /** An insertion into a sorted list: `e` comes after all that start where it does. */
  lemma {:induction false} InsertKeepsStarts(text: string, sorted: seq<TextEdit>, e: TextEdit, x: nat)
    requires Faithful(text, sorted + [e]) && Descending(sorted)
    ensures forall f :: f in InsertByStart(sorted, e) ==> LspSpan(text, f).Some?
    ensures StartingAt(LspSpans(text, InsertByStart(sorted, e)), x) ==
            StartingAt(LspSpans(text, sorted), x) + StartingAt([LspSpan(text, e).value], x)
    decreases |sorted|
  {
    var all := sorted + [e];
    assert e in all && forall f :: f in sorted ==> f in all;
    var s := LspSpan(text, e).value;
    if sorted == [] {
      assert LspSpans(text, [e]) == [s];
      assert [s][1..] == [];
    } else if AtMost(e.range.start, sorted[0].range.start) {
      var rest := sorted[1..];
      assert Faithful(text, rest + [e]) by {
        assert forall f :: f in rest + [e] ==> f in all;
      }
      InsertKeepsStarts(text, rest, e, x);
      ConsSpans(text, sorted[0], InsertByStart(rest, e));
      PassOver(LspSpan(text, sorted[0]).value, LspSpans(text, InsertByStart(rest, e)), LspSpans(text, rest), [s], x);
    } else {
      ConsSpans(text, e, sorted);
      StartingAtConcat([s], LspSpans(text, sorted), x);
      NotStartingWith(text, sorted, e, x);
    }
  }

  lemma PassOver(first: Span, all: seq<Span>, rest: seq<Span>, last: seq<Span>, x: nat)
    requires StartingAt(all, x) == StartingAt(rest, x) + StartingAt(last, x)
    ensures StartingAt([first] + all, x) == StartingAt([first] + rest, x) + StartingAt(last, x)
  {
    StartingAtConcat([first], all, x);
    StartingAtConcat([first], rest, x);
    Associate(StartingAt([first], x), StartingAt(rest, x), StartingAt(last, x));
  }

  lemma ConsSpans(text: string, e: TextEdit, edits: seq<TextEdit>)
    requires LspSpan(text, e).Some? && forall f :: f in edits ==> LspSpan(text, f).Some?
    ensures LspSpans(text, [e] + edits) == [LspSpan(text, e).value] + LspSpans(text, edits)
  {
    assert ([e] + edits)[1..] == edits;
  }

  /** None of the edits sorted after `e` starts where it does. */
  lemma {:induction false} StartElsewhere(text: string, sorted: seq<TextEdit>, e: TextEdit, i: nat)
    requires Faithful(text, sorted + [e]) && Descending(sorted) && i < |sorted|
    requires !AtMost(e.range.start, sorted[0].range.start)
    ensures LspIndex(text, e.range.start) != LspIndex(text, sorted[i].range.start)
  {
    var all := sorted + [e];
    assert e in all && all[i] in all;
    assert i == 0 || AtMost(sorted[i].range.start, sorted[0].range.start);
  }

  lemma Swap<T>(a: seq<T>, b: seq<T>)
    requires a == [] || b == []
    ensures a + b == b + a
  {
  }

  lemma {:induction false} NotStartingWith(text: string, sorted: seq<TextEdit>, e: TextEdit, x: nat)
    requires Faithful(text, sorted + [e]) && Descending(sorted)
    requires sorted != [] && !AtMost(e.range.start, sorted[0].range.start)
    requires LspSpan(text, e).Some? && forall f :: f in sorted ==> LspSpan(text, f).Some?
    ensures StartingAt([LspSpan(text, e).value], x) + StartingAt(LspSpans(text, sorted), x) ==
            StartingAt(LspSpans(text, sorted), x) + StartingAt([LspSpan(text, e).value], x)
  {
    var s, spans := LspSpan(text, e).value, LspSpans(text, sorted);
    if s.from == x {
      forall i | 0 <= i < |spans| ensures spans[i].from != x {
        StartElsewhere(text, sorted, e, i);
      }
      NothingStartsAt(spans, x);
    } else {
      NothingStartsAt([s], x);
    }
    Swap(StartingAt([s], x), StartingAt(spans, x));
  }

  lemma {:induction false} FaithfulSubset(text: string, a: seq<TextEdit>, b: seq<TextEdit>)
    requires Faithful(text, b) && forall e :: e in a ==> e in b
    ensures Faithful(text, a)
  {
  }

  lemma {:induction false} SortKeepsMembers(edits: seq<TextEdit>)
    ensures forall e :: e in LatestStartFirst(edits) <==> e in edits
  {
    forall e ensures e in LatestStartFirst(edits) <==> e in edits {
      assert e in multiset(LatestStartFirst(edits)) <==> e in multiset(edits);
    }
  }

  lemma {:induction false} AllButLast<T>(xs: seq<T>)
    requires xs != []
    ensures xs == xs[..|xs| - 1] + [xs[|xs| - 1]]
  {
  }

  lemma {:induction false} SortOfAppended(init: seq<TextEdit>, last: TextEdit)
    ensures LatestStartFirst(init + [last]) == InsertByStart(LatestStartFirst(init), last)
  {
    assert (init + [last])[..|init|] == init;
  }

  /** The last insertion of the sort. */
  lemma {:induction false} SortsLast(text: string, edits: seq<TextEdit>)
    requires edits != [] && Faithful(text, edits)
    ensures var init, last := edits[..|edits| - 1], edits[|edits| - 1];
            var sorted := LatestStartFirst(init);
            && edits == init + [last] && LatestStartFirst(edits) == InsertByStart(sorted, last)
            && Faithful(text, init) && Faithful(text, sorted + [last]) && Descending(sorted)
            && (forall e :: e in sorted <==> e in init)
  {
    var init, last := edits[..|edits| - 1], edits[|edits| - 1];
    AllButLast(edits);
    SortOfAppended(init, last);
    SortKeepsMembers(init);
    SortIsDescending(init);
    FaithfulSubset(text, init, edits);
    FaithfulSubset(text, LatestStartFirst(init) + [last], edits);
  }

  /** Sorting keeps, at every place, the list order of what starts there. */
  lemma {:induction false} SortKeepsStarts(text: string, edits: seq<TextEdit>, x: nat)
    requires Faithful(text, edits)
    ensures forall e :: e in LatestStartFirst(edits) ==> LspSpan(text, e).Some?
    ensures StartingAt(LspSpans(text, LatestStartFirst(edits)), x) == StartingAt(LspSpans(text, edits), x)
    decreases |edits|
  {
    SortKeepsMembers(edits);
    if edits != [] {
      var init, last := edits[..|edits| - 1], edits[|edits| - 1];
      SortsLast(text, edits);
      SortKeepsStarts(text, init, x);
      InsertKeepsStarts(text, LatestStartFirst(init), last, x);
      SnocStarts(text, init, last, x);
    }
  }

  lemma SnocStarts(text: string, edits: seq<TextEdit>, e: TextEdit, x: nat)
    requires LspSpan(text, e).Some? && forall f :: f in edits ==> LspSpan(text, f).Some?
    ensures StartingAt(LspSpans(text, edits + [e]), x) ==
            StartingAt(LspSpans(text, edits), x) + StartingAt([LspSpan(text, e).value], x)
  {
    SnocSpans(text, edits, e);
    StartingAtConcat(LspSpans(text, edits), [LspSpan(text, e).value], x);
  }

  lemma SnocSpans(text: string, edits: seq<TextEdit>, e: TextEdit)
    requires LspSpan(text, e).Some? && forall f :: f in edits ==> LspSpan(text, f).Some?
    ensures LspSpans(text, edits + [e]) == LspSpans(text, edits) + [LspSpan(text, e).value]
  {
  }

  // ----------------------------------------------------- legal lists are stacked

  /** `AllPairs` for edits. */
  predicate PairsOk(text: string, edits: seq<TextEdit>)
    requires forall e :: e in edits ==> LspSpan(text, e).Some?
  {
    edits == [] ||
    ((forall e :: e in edits[1..] ==> Compatible(LspSpan(text, edits[0]).value, LspSpan(text, e).value)) &&
     PairsOk(text, edits[1..]))
  }

  lemma {:induction false} PairsAreOk(text: string, edits: seq<TextEdit>)
    requires forall e :: e in edits ==> LspSpan(text, e).Some?
    ensures PairsOk(text, edits) <==> AllPairs(LspSpans(text, edits))
  {
    if edits != [] {
      var spans, rest := LspSpans(text, edits), edits[1..];
      assert spans[1..] == LspSpans(text, rest);
      PairsAreOk(text, rest);
      forall i | 0 <= i < |rest| ensures spans[1..][i] == LspSpan(text, rest[i]).value {
      }
      assert (forall s :: s in spans[1..] ==> Compatible(spans[0], s)) ==>
             forall i :: 0 <= i < |rest| ==> Compatible(spans[0], LspSpan(text, rest[i]).value) by {
        assert forall i :: 0 <= i < |rest| ==> spans[1..][i] in spans[1..];
      }
    }
  }

  lemma {:induction false} PairsOfSnoc(text: string, edits: seq<TextEdit>, e: TextEdit)
    requires LspSpan(text, e).Some? && forall f :: f in edits ==> LspSpan(text, f).Some?
    ensures PairsOk(text, edits + [e]) <==>
            PairsOk(text, edits) &&
            forall f :: f in edits ==> Compatible(LspSpan(text, f).value, LspSpan(text, e).value)
  {
    if edits == [] {
      assert [e][1..] == [];
    } else {
      var rest := edits[1..];
      assert (edits + [e])[1..] == rest + [e] && edits == [edits[0]] + rest;
      PairsOfSnoc(text, rest, e);
    }
  }

  lemma {:induction false} InsertKeepsPairs(text: string, sorted: seq<TextEdit>, e: TextEdit)
    requires Faithful(text, sorted + [e]) && Descending(sorted)
    requires forall f :: f in sorted ==> LspSpan(text, f).Some?
    requires LspSpan(text, e).Some? && PairsOk(text, sorted)
    requires forall f :: f in sorted ==> Compatible(LspSpan(text, f).value, LspSpan(text, e).value)
    ensures forall f :: f in InsertByStart(sorted, e) <==> f in sorted || f == e
    ensures PairsOk(text, InsertByStart(sorted, e))
    decreases |sorted|
  {
    MembersOfInsert(sorted, e);
    if sorted == [] {
      assert [e][1..] == [];
    } else if AtMost(e.range.start, sorted[0].range.start) {
      var rest := sorted[1..];
      FaithfulSubset(text, rest + [e], sorted + [e]);
      InsertKeepsPairs(text, rest, e);
      MembersOfInsert(rest, e);
      PairsOfCons(text, sorted[0], InsertByStart(rest, e));
    } else {
      CompatibleFromFront(text, sorted, e);
      PairsOfCons(text, e, sorted);
    }
  }

  lemma {:induction false} CompatibleFromFront(text: string, sorted: seq<TextEdit>, e: TextEdit)
    requires Faithful(text, sorted + [e]) && Descending(sorted)
    requires forall f :: f in sorted ==> LspSpan(text, f).Some?
    requires LspSpan(text, e).Some? && sorted != [] && !AtMost(e.range.start, sorted[0].range.start)
    requires forall f :: f in sorted ==> Compatible(LspSpan(text, f).value, LspSpan(text, e).value)
    ensures forall f :: f in sorted ==> Compatible(LspSpan(text, e).value, LspSpan(text, f).value)
  {
    forall f | f in sorted ensures Compatible(LspSpan(text, e).value, LspSpan(text, f).value) {
      var i :| 0 <= i < |sorted| && sorted[i] == f;
      StartElsewhere(text, sorted, e, i);
    }
  }

  lemma {:induction false} PairsOfCons(text: string, e: TextEdit, edits: seq<TextEdit>)
    requires LspSpan(text, e).Some? && (forall f :: f in edits ==> LspSpan(text, f).Some?) && PairsOk(text, edits)
    requires forall f :: f in edits ==> Compatible(LspSpan(text, e).value, LspSpan(text, f).value)
    ensures PairsOk(text, [e] + edits)
  {
    assert ([e] + edits)[1..] == edits;
  }

  lemma MembersOfInsert(sorted: seq<TextEdit>, e: TextEdit)
    ensures forall f :: f in InsertByStart(sorted, e) <==> f in sorted || f == e
  {
    forall f ensures f in InsertByStart(sorted, e) <==> f in sorted || f == e {
      assert f in multiset(InsertByStart(sorted, e)) <==> f in multiset(sorted) + multiset{e};
    }
  }

  lemma {:induction false} SortKeepsPairs(text: string, edits: seq<TextEdit>)
    requires Faithful(text, edits) && PairsOk(text, edits)
    ensures forall e :: e in LatestStartFirst(edits) ==> LspSpan(text, e).Some?
    ensures PairsOk(text, LatestStartFirst(edits))
    decreases |edits|
  {
    SortKeepsMembers(edits);
    if edits != [] {
      var init, last := edits[..|edits| - 1], edits[|edits| - 1];
      SortsLast(text, edits);
      PairsOfSnoc(text, init, last);
      SortKeepsPairs(text, init);
      InsertKeepsPairs(text, LatestStartFirst(init), last);
    }
  }

  lemma {:induction false} PairAt(spans: seq<Span>, i: nat, j: nat)
    requires AllPairs(spans) && i < j < |spans|
    ensures Compatible(spans[i], spans[j])
  {
    if i == 0 {
      assert spans[1..][j - 1] == spans[j];
    } else {
      PairAt(spans[1..], i - 1, j - 1);
    }
  }

  /** Spans in an order in which starts do not increase. */
  lemma {:induction false} PairsAreStacked(text: string, spans: seq<Span>)
    requires AllOrdered(text, spans) && AllPairs(spans)
    requires forall i, j :: 0 <= i < j < |spans| ==> spans[j].from <= spans[i].from
    ensures Stacked(text, spans)
  {
    assert forall i :: 0 <= i < |spans| ==> spans[i] in spans;
    forall i, j | 0 <= i < j < |spans|
      ensures if spans[j].from == spans[i].from then spans[i].upto == spans[i].from
              else spans[j].upto <= spans[i].from
    {
      PairAt(spans, i, j);
    }
  }

  lemma {:induction false} SpansAreOrdered(text: string, edits: seq<TextEdit>)
    requires forall e :: e in edits ==> LspSpan(text, e).Some? && AtMost(e.range.start, e.range.end)
    ensures AllOrdered(text, LspSpans(text, edits))
  {
    var spans := LspSpans(text, edits);
    forall s | s in spans ensures s.from <= s.upto <= |text| {
      var i :| 0 <= i < |spans| && spans[i] == s;
      assert edits[i] in edits;
      LspIndexInOrder(text, edits[i].range.start, edits[i].range.end);
    }
  }

  lemma {:induction false} SpansDescend(text: string, edits: seq<TextEdit>)
    requires Descending(edits) && forall e :: e in edits ==> LspSpan(text, e).Some?
    ensures forall i, j :: 0 <= i < j < |edits| ==> LspSpans(text, edits)[j].from <= LspSpans(text, edits)[i].from
  {
    forall i, j | 0 <= i < j < |edits|
      ensures LspSpans(text, edits)[j].from <= LspSpans(text, edits)[i].from
    {
      assert edits[i] in edits && edits[j] in edits;
      LspIndexInOrder(text, edits[j].range.start, edits[i].range.start);
    }
  }

  /** A legal list, sorted as the code does, is stacked. */
  lemma LegalIsStacked(text: string, edits: seq<TextEdit>)
    requires Faithful(text, edits) && Legal(text, edits)
    ensures forall e :: e in LatestStartFirst(edits) ==> LspSpan(text, e).Some?
    ensures Stacked(text, LspSpans(text, LatestStartFirst(edits)))
  {
    var sorted := LatestStartFirst(edits);
    SortKeepsMembers(edits);
    PairsAreOk(text, edits);
    SortKeepsPairs(text, edits);
    PairsAreOk(text, sorted);
    SortIsDescending(edits);
    SpansAreOrdered(text, sorted);
    SpansDescend(text, sorted);
    PairsAreStacked(text, LspSpans(text, sorted));
  }

  // ------------------------------------------------------------ the main result

  lemma {:induction false} AllFineIff(text: string, spans: seq<Span>)
    requires Stacked(text, spans)
    ensures AllFine(text, spans) <==> FineEverywhere(text, spans)
    decreases |spans|
  {
    if spans == [] {
      assert forall x: nat :: StartingAt(spans, x) == [];
    } else {
      TopGroup(text, spans);
      AllFineIff(text, spans[GroupLen(spans)..]);
      FineByGroups(text, spans);
    }
  }

  lemma FineByGroups(text: string, spans: seq<Span>)
    requires spans != [] && Stacked(text, spans)
    ensures var n := GroupLen(spans);
            FineEverywhere(text, spans) <==> FineAt(text, spans[..n]) && FineEverywhere(text, spans[n..])
  {
    var n, start := GroupLen(spans), spans[0].from;
    var rest := spans[n..];
    forall x: nat
      ensures FineAt(text, StartingAt(spans, x)) <==>
              if x == start then FineAt(text, spans[..n]) else FineAt(text, StartingAt(rest, x))
    {
      StartsOfGroups(text, spans, x);
    }
    TopGroup(text, spans);
    NothingStartsAt(rest, start);
    assert FineAt(text, StartingAt(rest, start));
    assert FineAt(text, StartingAt(spans, start)) <==> FineAt(text, spans[..n]);
    if FineEverywhere(text, spans) {
      forall x: nat ensures FineAt(text, StartingAt(rest, x)) {
        assert FineAt(text, StartingAt(spans, x));
      }
    }
  }

  lemma {:induction false} SameDeleted(a: seq<Span>, b: seq<Span>, i: nat)
    requires forall s :: s in a <==> s in b
    ensures Deleted(a, i) <==> Deleted(b, i)
  {
    if Deleted(a, i) {
      var k :| 0 <= k < |a| && a[k].from <= i < a[k].upto;
      assert a[k] in b;
    }
    if Deleted(b, i) {
      var k :| 0 <= k < |b| && b[k].from <= i < b[k].upto;
      assert b[k] in a;
    }
  }

  lemma {:induction false} SpanMembers(text: string, a: seq<TextEdit>, b: seq<TextEdit>)
    requires (forall e :: e in a <==> e in b) && forall e :: e in a ==> LspSpan(text, e).Some?
    ensures forall s :: s in LspSpans(text, a) ==> s in LspSpans(text, b)
  {
    forall s | s in LspSpans(text, a) ensures s in LspSpans(text, b) {
      var i :| 0 <= i < |a| && LspSpans(text, a)[i] == s;
      assert a[i] in b;
      var j :| 0 <= j < |b| && b[j] == a[i];
      assert LspSpans(text, b)[j] == s;
    }
  }

  /** The meaning of a list does not depend on the sort. */
  lemma ResultOfSorted(text: string, edits: seq<TextEdit>)
    requires Faithful(text, edits)
    ensures forall e :: e in LatestStartFirst(edits) ==> LspSpan(text, e).Some?
    ensures LspResult(text, LspSpans(text, LatestStartFirst(edits))) == LspResult(text, LspSpans(text, edits))
  {
    var sorted := LatestStartFirst(edits);
    SortKeepsMembers(edits);
    var a, b := LspSpans(text, sorted), LspSpans(text, edits);
    SpanMembers(text, sorted, edits);
    SpanMembers(text, edits, sorted);
    forall i: nat
      ensures StartingAt(a, i) == StartingAt(b, i) && (Deleted(a, i) <==> Deleted(b, i))
    {
      SortKeepsStarts(text, edits, i);
      SameDeleted(a, b, i);
    }
    UpToAlike(text, a, b, |text|);
  }

  /** The code's result on a legal list, group by group. */
  lemma {:induction false} LegalRuns(text: string, edits: seq<TextEdit>)
    requires Faithful(text, edits) && Legal(text, edits)
    ensures forall e :: e in LatestStartFirst(edits) ==> LspSpan(text, e).Some?
    ensures Stacked(text, LspSpans(text, LatestStartFirst(edits)))
    ensures forall s :: s in LspSpans(text, LatestStartFirst(edits)) ==> s.from <= |text| && s.upto <= |text|
    ensures ApplyTextEdits(text, edits) == CodeOut(text, LspSpans(text, LatestStartFirst(edits)), |text|)
  {
    var sorted := LatestStartFirst(edits);
    LegalIsStacked(text, edits);
    SortKeepsMembers(edits);
    FaithfulSubset(text, sorted, edits);
    SameSpans(text, sorted);
    StackedRuns(text, sorted);
  }

  lemma {:induction false} StackedRuns(text: string, sorted: seq<TextEdit>)
    requires forall e :: e in sorted ==> Walked(text, e).Some?
    requires Stacked(text, WalkedSpans(text, sorted))
    ensures forall s :: s in WalkedSpans(text, sorted) ==> s.from <= |text| && s.upto <= |text|
    ensures ApplyInOrder(text, text, sorted) == CodeOut(text, WalkedSpans(text, sorted), |text|)
  {
    var pr, spans := Progress(|text|, ""), WalkedSpans(text, sorted);
    StackedFalls(text, spans, |text|);
    InOrderIsRun(text, pr, sorted);
    AppendNothing(text);
    NothingAfterRun(text, spans);
  }

  lemma {:induction false} NothingAfterRun(text: string, spans: seq<Span>)
    requires Stacked(text, spans) && forall s :: s in spans ==> s.from <= |text| && s.upto <= |text|
    ensures Falls(text, spans, |text|)
    ensures RunSpans(text, Progress(|text|, ""), spans) == CodeOut(text, spans, |text|)
  {
    RunIsCodeOut(text, Progress(|text|, ""), spans);
    var out := CodeOut(text, spans, |text|);
    if out.Some? {
      assert out.value + "" == out.value;
    }
  }

  /** Exactly when the code does what LSP asks for, for every legal list of any length: at every place
      of the text, the edits that start there must be fine by themselves. */
  lemma FollowsLspIff(text: string, edits: seq<TextEdit>)
    requires Faithful(text, edits) && Legal(text, edits)
    ensures ApplyTextEdits(text, edits) == Some(LspResult(text, LspSpans(text, edits))) <==>
            FineEverywhere(text, LspSpans(text, edits))
  {
    LegalRuns(text, edits);
    ResultOfSorted(text, edits);
    var sorted := LspSpans(text, LatestStartFirst(edits));
    MeaningIsLspOut(text, sorted, |text|);
    OutsAgreeIff(text, sorted, |text|);
    AllFineIff(text, sorted);
    FineAfterSort(text, edits);
  }

  lemma FineAfterSort(text: string, edits: seq<TextEdit>)
    requires Faithful(text, edits)
    ensures forall e :: e in LatestStartFirst(edits) ==> LspSpan(text, e).Some?
    ensures FineEverywhere(text, LspSpans(text, LatestStartFirst(edits))) <==>
            FineEverywhere(text, LspSpans(text, edits))
  {
    SortKeepsMembers(edits);
    var a, b := LspSpans(text, LatestStartFirst(edits)), LspSpans(text, edits);
    forall x: nat ensures StartingAt(a, x) == StartingAt(b, x) {
      SortKeepsStarts(text, edits, x);
    }
    if FineEverywhere(text, a) {
      forall x: nat ensures FineAt(text, StartingAt(b, x)) {
        assert FineAt(text, StartingAt(a, x));
      }
    }
    if FineEverywhere(text, b) {
      forall x: nat ensures FineAt(text, StartingAt(a, x)) {
        assert FineAt(text, StartingAt(b, x));
      }
    }
  }
}
