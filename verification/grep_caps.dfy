/** The capping loops of the two searches in crates/aide-search/src/grep.rs. Matching itself is
    the regex engine's: a file is what the engine reports of it, line by line. */
module GrepCaps {
  import opened Common
  import opened Wrappers

  datatype LineKind = Match | Before | After

  datatype LineMatch = LineMatch(line: nat, text: string, kind: LineKind)

  /** What the engine hands to the sink, in file order; Other is a context the sink ignores. The text is
      that of the line with its ending. */
  datatype Event =
    | Matched(line: nat, text: string)
    | ContextBefore(line: nat, text: string)
    | ContextAfter(line: nat, text: string)
    | Other

  /** `events` is None for a blob that cannot be found. */
  datatype File = File(path: string, events: Option<seq<Event>>)

  datatype GrepHit = GrepHit(path: string, lines: seq<LineMatch>)

  datatype GrepOptions = GrepOptions(maxResults: nat, maxResultsPerFile: nat)

  datatype GrepResult = GrepResult(hits: seq<GrepHit>, filesScanned: nat, totalMatches: nat, truncated: bool)

  // ---------------------------------------------------------------- the sink

  predicate EndsIn(text: string, end: string) {
    |end| <= |text| && text[|text| - |end|..] == end
  }

  /** `strip_eol`: a line feed goes, and then a carriage return. */
  function StripEol(text: string): string {
    var line := if EndsIn(text, "\n") then text[..|text| - 1] else text;
    if EndsIn(line, "\r") then line[..|line| - 1] else line
  }

  /** The longest of the line endings at the end of a text goes, and nothing else. */
  lemma {:induction false} StripsOneEnding(text: string)
    ensures exists end :: end in {"\r\n", "\n", "\r", ""} && text == StripEol(text) + end
                          && forall e :: e in {"\r\n", "\n", "\r", ""} && EndsIn(text, e) ==> |e| <= |end|
  {
    EndsInOne(text, '\n');
    EndsInOne(text, '\r');
    EndsInTwo(text);
    if EndsIn(text, "\n") {
      var line := text[..|text| - 1];
      EndsInOne(line, '\r');
      if EndsIn(line, "\r") {
        assert text == StripEol(text) + "\r\n";
      } else {
        assert text == StripEol(text) + "\n";
      }
    } else if EndsIn(text, "\r") {
      assert text == StripEol(text) + "\r";
    } else {
      assert text == StripEol(text) + "";
    }
  }

  lemma {:induction false} EndsInOne(text: string, c: char)
    ensures EndsIn(text, [c]) <==> text != "" && text[|text| - 1] == c
  {
    if text != "" {
      assert text[|text| - 1..] == [text[|text| - 1]];
    }
  }

  lemma {:induction false} EndsInTwo(text: string)
    ensures EndsIn(text, "\r\n") <==> |text| >= 2 && text[|text| - 2] == '\r' && text[|text| - 1] == '\n'
  {
    if |text| >= 2 {
      assert text[|text| - 2..] == [text[|text| - 2], text[|text| - 1]];
    }
  }

  function LinesOf(event: Event): seq<LineMatch> {
    match event
    case Matched(line, text) => [LineMatch(line, StripEol(text), Match)]
    case ContextBefore(line, text) => [LineMatch(line, StripEol(text), Before)]
    case ContextAfter(line, text) => [LineMatch(line, StripEol(text), After)]
    case Other => []
  }

  /** What a sink that has counted `count` matches still collects. */
  function Collected(events: seq<Event>, count: nat, cap: nat): seq<LineMatch> {
    if events == [] then []
    else if events[0].Matched? then
      if count >= cap then [] else LinesOf(events[0]) + Collected(events[1..], count + 1, cap)
    else LinesOf(events[0]) + Collected(events[1..], count, cap)
  }

  class CollectSink {
    var lines: seq<LineMatch>
    var matchCount: nat
    const perFileCap: nat

    constructor (perFileCap: nat)
      ensures lines == [] && matchCount == 0 && this.perFileCap == perFileCap
    {
      lines, matchCount := [], 0;
      this.perFileCap := perFileCap;
    }

    method Accept(event: Event) returns (more: bool)
      modifies this
      ensures more <==> !(event.Matched? && old(matchCount) >= perFileCap)
      ensures matchCount == old(matchCount) + if more && event.Matched? then 1 else 0
      ensures lines == if more then old(lines) + LinesOf(event) else old(lines)
    {
      match event
      case Matched(line, text) =>
        if matchCount >= perFileCap {
          return false;
        }
        lines := lines + [LineMatch(line, StripEol(text), Match)];
        matchCount := matchCount + 1;
        return true;
      case ContextBefore(line, text) =>
        lines := lines + [LineMatch(line, StripEol(text), Before)];
        return true;
      case ContextAfter(line, text) =>
        lines := lines + [LineMatch(line, StripEol(text), After)];
        return true;
      case Other =>
        return true;
    }
  }

  /** The matches among the lines. */
  function MatchLines(lines: seq<LineMatch>): seq<LineMatch> {
    if lines == [] then []
    else if lines[0].kind == Match then [lines[0]] + MatchLines(lines[1..])
    else MatchLines(lines[1..])
  }

  function AllMatches(events: seq<Event>): seq<LineMatch> {
    if events == [] then []
    else if events[0].Matched? then
      [LineMatch(events[0].line, StripEol(events[0].text), Match)] + AllMatches(events[1..])
    else AllMatches(events[1..])
  }

  lemma {:induction false} MatchLinesConcat(a: seq<LineMatch>, b: seq<LineMatch>)
    ensures MatchLines(a + b) == MatchLines(a) + MatchLines(b)
  {
    if a == [] {
      assert a + b == b;
    } else {
      assert (a + b)[1..] == a[1..] + b;
      MatchLinesConcat(a[1..], b);
    }
  }

  lemma TakeCons<T>(x: T, xs: seq<T>, n: nat)
    requires n <= |xs|
    ensures ([x] + xs)[..n + 1] == [x] + xs[..n]
  {
  }

  /** A sink collects the first matches up to its cap, whatever contexts come between them. */
  lemma {:induction false} CollectsFirst(events: seq<Event>, count: nat, cap: nat)
    requires count <= cap
    ensures MatchLines(Collected(events, count, cap)) == AllMatches(events)[..Min(cap - count, |AllMatches(events)|)]
  {
    if events != [] {
      var e, rest := events[0], events[1..];
      MatchesIn(e);
      if e.Matched? {
        if count < cap {
          CollectsFirst(rest, count + 1, cap);
          MatchLinesConcat(LinesOf(e), Collected(rest, count + 1, cap));
          TakeCons(LinesOf(e)[0], AllMatches(rest), Min(cap - count - 1, |AllMatches(rest)|));
        }
      } else {
        CollectsFirst(rest, count, cap);
        MatchLinesConcat(LinesOf(e), Collected(rest, count, cap));
      }
    }
  }

  lemma MatchesIn(event: Event)
    ensures MatchLines(LinesOf(event)) == if event.Matched? then LinesOf(event) else []
  {
  }

  /** The line is what the sink shows of this event. */
  predicate Shows(line: LineMatch, event: Event) {
    match event
    case Matched(n, text) => line == LineMatch(n, StripEol(text), Match)
    case ContextBefore(n, text) => line == LineMatch(n, StripEol(text), Before)
    case ContextAfter(n, text) => line == LineMatch(n, StripEol(text), After)
    case Other => false
  }

  /** The events that are shown. */
  function Visible(events: seq<Event>): seq<Event> {
    if events == [] then []
    else (if events[0].Other? then [] else [events[0]]) + Visible(events[1..])
  }

  function CountMatches(events: seq<Event>): nat {
    if events == [] then 0 else (if events[0].Matched? then 1 else 0) + CountMatches(events[1..])
  }

  /** The lines of a file: matches and contexts alike, in order, each as the engine reported it, up to the
      first match that is over the cap. */
  lemma {:induction false} CollectedShows(events: seq<Event>, count: nat, cap: nat) returns (n: nat)
    requires count <= cap
    ensures n <= |events| && count + CountMatches(events[..n]) <= cap
    ensures n < |events| ==> events[n].Matched? && count + CountMatches(events[..n]) == cap
    ensures ShowsAll(Collected(events, count, cap), Visible(events[..n]))
  {
    n := 0;
    if events != [] && !(events[0].Matched? && count >= cap) {
      var more := if events[0].Matched? then 1 else 0;
      n := CollectedShows(events[1..], count + more, cap);
      TakeOneMore(events, n);
      ShowsOneMore(LinesOf(events[0]), if events[0].Other? then [] else [events[0]],
                   Collected(events[1..], count + more, cap), Visible(events[1..][..n]));
      n := n + 1;
    }
  }

  lemma {:induction false} TakeOneMore(events: seq<Event>, n: nat)
    requires n < |events|
    ensures CountMatches(events[..n + 1]) == (if events[0].Matched? then 1 else 0) + CountMatches(events[1..][..n])
    ensures Visible(events[..n + 1]) == (if events[0].Other? then [] else [events[0]]) + Visible(events[1..][..n])
  {
    assert events[..n + 1][0] == events[0] && events[..n + 1][1..] == events[1..][..n];
  }

  /** The lines show these events, one by one. */
  predicate ShowsAll(lines: seq<LineMatch>, events: seq<Event>) {
    |lines| == |events| && forall i :: 0 <= i < |lines| ==> Shows(lines[i], events[i])
  }

  lemma {:induction false} ShowsOneMore(line: seq<LineMatch>, event: seq<Event>,
                                        lines: seq<LineMatch>, events: seq<Event>)
    requires ShowsAll(line, event) && ShowsAll(lines, events)
    ensures ShowsAll(line + lines, event + events)
  {
  }

  /** The sink's state after the first `i` events: what is still collected comes after it. */
  ghost predicate Fed(events: seq<Event>, i: nat, cap: nat, lines: seq<LineMatch>, count: nat) {
    i <= |events| && count <= cap && count == |MatchLines(lines)| &&
    Collected(events, 0, cap) == lines + Collected(events[i..], count, cap)
  }

  lemma CollectedFrom(events: seq<Event>, i: nat, count: nat, cap: nat)
    requires i < |events|
    ensures Collected(events[i..], count, cap) ==
            if events[i].Matched? && count >= cap then []
            else LinesOf(events[i]) + Collected(events[i + 1..], count + (if events[i].Matched? then 1 else 0), cap)
  {
    assert events[i..][0] == events[i] && events[i..][1..] == events[i + 1..];
  }

  lemma FedOne(events: seq<Event>, i: nat, cap: nat, lines: seq<LineMatch>, count: nat)
    requires i < |events| && Fed(events, i, cap, lines, count)
    requires events[i].Matched? ==> count < cap
    ensures Fed(events, i + 1, cap, lines + LinesOf(events[i]), count + if events[i].Matched? then 1 else 0)
  {
    var now := LinesOf(events[i]);
    var rest := Collected(events[i + 1..], count + (if events[i].Matched? then 1 else 0), cap);
    CollectedFrom(events, i, count, cap);
    MatchesIn(events[i]);
    MatchLinesConcat(lines, now);
    Regroup(lines, now, rest);
  }

  lemma FedUp(events: seq<Event>, i: nat, cap: nat, lines: seq<LineMatch>, count: nat)
    requires Fed(events, i, cap, lines, count)
    requires i == |events| || (events[i].Matched? && count >= cap)
    ensures Collected(events, 0, cap) == lines
  {
    if i < |events| {
      CollectedFrom(events, i, count, cap);
    }
    assert lines + [] == lines;
  }

  /** The engine feeds the sink until it has had enough. */
  method SearchFile(events: seq<Event>, cap: nat) returns (lines: seq<LineMatch>, matchCount: nat)
    ensures lines == Collected(events, 0, cap)
    ensures matchCount == |MatchLines(lines)|
  {
    var sink := new CollectSink(cap);
    var i := 0;
    assert events[0..] == events;
    while i < |events|
      invariant fresh(sink) && sink.perFileCap == cap
      invariant Fed(events, i, cap, sink.lines, sink.matchCount)
    {
      ghost var before, count := sink.lines, sink.matchCount;
      var more := sink.Accept(events[i]);
      if !more {
        break;
      }
      FedOne(events, i, cap, before, count);
      i := i + 1;
    }
    FedUp(events, i, cap, sink.lines, sink.matchCount);
    lines, matchCount := sink.lines, sink.matchCount;
  }

  // ---------------------------------------------------------------- the loop

  /** A match together with its file. */
  type Found = (string, LineMatch)

  function InFile(path: string, lines: seq<LineMatch>): (r: seq<Found>)
    ensures |r| == |lines|
  {
    seq(|lines|, i requires 0 <= i < |lines| => (path, lines[i]))
  }

  function FileMatches(file: File): seq<Found> {
    if file.events.None? then [] else InFile(file.path, AllMatches(file.events.value))
  }

  /** What the per-file cap leaves of a file's matches. */
  function Kept(file: File, cap: nat): (kept: seq<Found>)
    ensures |kept| == Min(cap, |FileMatches(file)|)
  {
    var found := FileMatches(file);
    found[..Min(cap, |found|)]
  }

  /** The first matches of each file from `i` on, one file after the other. */
  function Capped(files: seq<File>, i: nat, cap: nat): seq<Found>
    requires i <= |files|
    decreases |files| - i
  {
    if i == |files| then [] else Kept(files[i], cap) + Capped(files, i + 1, cap)
  }

  /** The matches of a list of hits. */
  function Reported(hits: seq<GrepHit>): seq<Found> {
    if hits == [] then []
    else
      var last := hits[|hits| - 1];
      Reported(hits[..|hits| - 1]) + InFile(last.path, MatchLines(last.lines))
  }

  function Sum(files: seq<File>, i: nat, cap: nat): nat
    requires i <= |files|
    decreases |files| - i
  {
    if i == |files| then 0 else Min(cap, |FileMatches(files[i])|) + Sum(files, i + 1, cap)
  }

  lemma {:induction false} CappedLength(files: seq<File>, i: nat, cap: nat)
    requires i <= |files|
    ensures |Capped(files, i, cap)| == Sum(files, i, cap)
    decreases |files| - i
  {
    if i < |files| {
      CappedLength(files, i + 1, cap);
    }
  }

  lemma ReportOne(hits: seq<GrepHit>, path: string, lines: seq<LineMatch>)
    ensures Reported(hits + [GrepHit(path, lines)]) == Reported(hits) + InFile(path, MatchLines(lines))
  {
    assert (hits + [GrepHit(path, lines)])[..|hits|] == hits;
  }

  /** Searching a file with what is left of the global cap. */
  lemma SearchedFile(file: File, cap: nat, remaining: nat, lines: seq<LineMatch>)
    requires file.events.Some?
    requires lines == Collected(file.events.value, 0, Min(cap, remaining))
    ensures InFile(file.path, MatchLines(lines)) == Kept(file, cap)[..Min(remaining, |Kept(file, cap)|)]
    ensures |MatchLines(lines)| == Min(remaining, |Kept(file, cap)|)
  {
    CollectsFirst(file.events.value, 0, Min(cap, remaining));
  }

  /** What the loop knows before file `i`: all of the earlier files' matches were reported, and
      there is room for more. */
  ghost predicate Underway(files: seq<File>, i: nat, options: GrepOptions, hits: seq<GrepHit>, total: nat) {
    i <= |files| && total == |Reported(hits)| && (i > 0 ==> total < options.maxResults) &&
    Capped(files, 0, options.maxResultsPerFile) == Reported(hits) + Capped(files, i, options.maxResultsPerFile)
  }

  /** The hits from file `i` on, with room for `room` matches: each file is searched with its own cap or
      what is left of the global one, and reported if anything was collected, until there is no room. */
  function HitsFrom(files: seq<File>, i: nat, cap: nat, room: nat): seq<GrepHit>
    requires i <= |files|
    decreases |files| - i
  {
    if i == |files| || room == 0 then []
    else if files[i].events.None? then HitsFrom(files, i + 1, cap, room)
    else
      var lines := Collected(files[i].events.value, 0, Min(cap, room));
      if lines == [] then HitsFrom(files, i + 1, cap, room)
      else
        [GrepHit(files[i].path, lines)] +
        HitsFrom(files, i + 1, cap, if |MatchLines(lines)| <= room then room - |MatchLines(lines)| else 0)
  }

  /** What it promises in the end: the first matches of the per-file-capped sequence, as many as the
      global cap allows. */
  ghost predicate Finished(files: seq<File>, options: GrepOptions, r: GrepResult) {
    var all := Capped(files, 0, options.maxResultsPerFile);
    r.filesScanned == |files| &&
    r.totalMatches == Min(options.maxResults, |all|) &&
    Reported(r.hits) == all[..Min(options.maxResults, |all|)] &&
    (r.truncated <==> files != [] && r.totalMatches == options.maxResults)
  }

  /** Taking of `kept` what there is room for. */
  lemma FillUp<T>(before: seq<T>, kept: seq<T>, more: seq<T>, max: nat)
    requires |before| < max
    ensures var all := before + (kept + more);
            var taken := Min(max - |before|, |kept|);
            var now := before + kept[..taken];
            |now| == |before| + taken &&
            (|now| < max ==> all == now + more) &&
            (|now| >= max ==> |now| == max <= |all| && now == all[..max])
  {
    var taken := Min(max - |before|, |kept|);
    if taken == |kept| {
      assert kept[..taken] == kept;
    }
  }

  lemma {:induction false} OneFile(files: seq<File>, i: nat, options: GrepOptions, hits: seq<GrepHit>, total: nat,
                                   lines: seq<LineMatch>)
    requires i < |files| && Underway(files, i, options, hits, total) && total < options.maxResults
    requires files[i].events.Some?
    requires lines == Collected(files[i].events.value, 0, Min(options.maxResultsPerFile, options.maxResults - total))
    ensures var newHits, newTotal := hits + [GrepHit(files[i].path, lines)], total + |MatchLines(lines)|;
            if newTotal < options.maxResults then Underway(files, i + 1, options, newHits, newTotal)
            else Finished(files, options, GrepResult(newHits, |files|, newTotal, true))
  {
    var cap := options.maxResultsPerFile;
    ReportOne(hits, files[i].path, lines);
    SearchedFile(files[i], cap, options.maxResults - total, lines);
    FillUp(Reported(hits), Kept(files[i], cap), Capped(files, i + 1, cap), options.maxResults);
  }

  lemma NothingFound(files: seq<File>, i: nat, options: GrepOptions, hits: seq<GrepHit>, total: nat)
    requires i < |files| && Underway(files, i, options, hits, total) && total < options.maxResults
    requires files[i].events.Some? ==>
               Collected(files[i].events.value, 0, Min(options.maxResultsPerFile, options.maxResults - total)) == []
    ensures Underway(files, i + 1, options, hits, total)
  {
    var cap := options.maxResultsPerFile;
    if files[i].events.Some? {
      SearchedFile(files[i], cap, options.maxResults - total, []);
    }
    assert |Kept(files[i], cap)| == 0;
    NothingKept(Kept(files[i], cap), Capped(files, i + 1, cap));
  }

  lemma NothingKept<T>(a: seq<T>, b: seq<T>)
    requires |a| == 0
    ensures a + b == b
  {
  }

  lemma AtTheCap(files: seq<File>, options: GrepOptions, hits: seq<GrepHit>, total: nat)
    requires files != [] && Underway(files, 0, options, hits, total) && options.maxResults == 0
    ensures Finished(files, options, GrepResult(hits, |files|, total, true))
  {
    assert |Capped(files, 0, options.maxResultsPerFile)| ==
           |Reported(hits)| + |Capped(files, 0, options.maxResultsPerFile)|;
  }

  lemma AtTheEnd(files: seq<File>, options: GrepOptions, hits: seq<GrepHit>, total: nat)
    requires Underway(files, |files|, options, hits, total)
    ensures Finished(files, options, GrepResult(hits, |files|, total, false))
  {
    var all := Capped(files, 0, options.maxResultsPerFile);
    assert Reported(hits) + [] == Reported(hits);
    assert all[..|all|] == all;
  }

  /** How many matches that makes. */
  lemma MatchesReported(files: seq<File>, options: GrepOptions, r: GrepResult)
    requires Finished(files, options, r)
    ensures |Reported(r.hits)| == r.totalMatches == Min(options.maxResults, Sum(files, 0, options.maxResultsPerFile))
  {
    CappedLength(files, 0, options.maxResultsPerFile);
  }

  /** What the loop knows about the hits themselves. */
  ghost predicate Gathered(files: seq<File>, i: nat, options: GrepOptions, hits: seq<GrepHit>, room: nat) {
    i <= |files| &&
    HitsFrom(files, 0, options.maxResultsPerFile, options.maxResults) ==
    hits + HitsFrom(files, i, options.maxResultsPerFile, room)
  }

  lemma {:induction false} NothingGathered(files: seq<File>, i: nat, options: GrepOptions, hits: seq<GrepHit>,
                                           room: nat)
    requires i < |files| && Gathered(files, i, options, hits, room) && room > 0
    requires files[i].events.Some? ==>
               Collected(files[i].events.value, 0, Min(options.maxResultsPerFile, room)) == []
    ensures Gathered(files, i + 1, options, hits, room)
  {
  }

  lemma {:induction false} OneGathered(files: seq<File>, i: nat, options: GrepOptions, hits: seq<GrepHit>, room: nat,
                                       lines: seq<LineMatch>)
    requires i < |files| && Gathered(files, i, options, hits, room) && room > 0
    requires files[i].events.Some? && lines != [] && |MatchLines(lines)| <= room
    requires lines == Collected(files[i].events.value, 0, Min(options.maxResultsPerFile, room))
    ensures Gathered(files, i + 1, options, hits + [GrepHit(files[i].path, lines)], room - |MatchLines(lines)|)
  {
    Regroup(hits, [GrepHit(files[i].path, lines)],
            HitsFrom(files, i + 1, options.maxResultsPerFile, room - |MatchLines(lines)|));
  }

  lemma {:induction false} AllGathered(files: seq<File>, i: nat, options: GrepOptions, hits: seq<GrepHit>, room: nat)
    requires Gathered(files, i, options, hits, room)
    requires i == |files| || room == 0
    ensures hits == HitsFrom(files, 0, options.maxResultsPerFile, options.maxResults)
  {
    NothingKept([], hits);
    assert hits + [] == hits;
  }

  /** The loop's invariant before file `i`. */
  ghost predicate Looping(files: seq<File>, i: nat, options: GrepOptions, hits: seq<GrepHit>, total: nat) {
    Underway(files, i, options, hits, total) && total <= options.maxResults &&
    Gathered(files, i, options, hits, options.maxResults - total)
  }

  /** The result the loop comes to. */
  ghost predicate Concluded(files: seq<File>, options: GrepOptions, r: GrepResult) {
    Finished(files, options, r) && r.hits == HitsFrom(files, 0, options.maxResultsPerFile, options.maxResults)
  }

  lemma {:induction false} PassOver(files: seq<File>, i: nat, options: GrepOptions, hits: seq<GrepHit>, total: nat)
    requires i < |files| && Looping(files, i, options, hits, total) && total < options.maxResults
    requires files[i].events.Some? ==>
               Collected(files[i].events.value, 0, Min(options.maxResultsPerFile, options.maxResults - total)) == []
    ensures Looping(files, i + 1, options, hits, total)
  {
    NothingFound(files, i, options, hits, total);
    NothingGathered(files, i, options, hits, options.maxResults - total);
  }

  lemma {:induction false} Report(files: seq<File>, i: nat, options: GrepOptions, hits: seq<GrepHit>, total: nat,
                                  lines: seq<LineMatch>, newHits: seq<GrepHit>, newTotal: nat)
    requires i < |files| && Looping(files, i, options, hits, total) && total < options.maxResults
    requires files[i].events.Some? && lines != []
    requires lines == Collected(files[i].events.value, 0, Min(options.maxResultsPerFile, options.maxResults - total))
    requires newHits == hits + [GrepHit(files[i].path, lines)] && newTotal == total + |MatchLines(lines)|
    ensures if newTotal < options.maxResults then Looping(files, i + 1, options, newHits, newTotal)
            else Concluded(files, options, GrepResult(newHits, |files|, newTotal, true))
  {
    OneFile(files, i, options, hits, total, lines);
    ReportHit(files, i, options, hits, total, lines, newHits, newTotal);
    if newTotal == options.maxResults {
      AllGathered(files, i + 1, options, newHits, 0);
    }
  }

  lemma {:induction false} ReportHit(files: seq<File>, i: nat, options: GrepOptions, hits: seq<GrepHit>, total: nat,
                                     lines: seq<LineMatch>, newHits: seq<GrepHit>, newTotal: nat)
    requires i < |files| && total < options.maxResults
    requires Gathered(files, i, options, hits, options.maxResults - total)
    requires files[i].events.Some? && lines != []
    requires lines == Collected(files[i].events.value, 0, Min(options.maxResultsPerFile, options.maxResults - total))
    requires newHits == hits + [GrepHit(files[i].path, lines)] && newTotal == total + |MatchLines(lines)|
    ensures newTotal <= options.maxResults && Gathered(files, i + 1, options, newHits, options.maxResults - newTotal)
  {
    SearchedFile(files[i], options.maxResultsPerFile, options.maxResults - total, lines);
    OneGathered(files, i, options, hits, options.maxResults - total, lines);
  }

  lemma {:induction false} Conclude(files: seq<File>, i: nat, options: GrepOptions, hits: seq<GrepHit>, total: nat)
    requires Looping(files, i, options, hits, total)
    requires i == |files| || total == options.maxResults
    ensures Concluded(files, options, GrepResult(hits, |files|, total, i < |files|))
  {
    AllGathered(files, i, options, hits, options.maxResults - total);
    if i < |files| {
      AtTheCap(files, options, hits, total);
    } else {
      AtTheEnd(files, options, hits, total);
    }
  }

  lemma {:induction false} Start(files: seq<File>, options: GrepOptions)
    ensures Looping(files, 0, options, [], 0)
  {
    NothingKept([], Capped(files, 0, options.maxResultsPerFile));
    NothingKept([], HitsFrom(files, 0, options.maxResultsPerFile, options.maxResults));
  }

  /** The loop of both searches, over the sorted files. */
  method Grep(files: seq<File>, options: GrepOptions) returns (r: GrepResult)
    ensures Finished(files, options, r)
    ensures r.hits == HitsFrom(files, 0, options.maxResultsPerFile, options.maxResults)
  {
    var hits: seq<GrepHit> := [];
    var totalMatches: nat := 0;
    Start(files, options);
    for i := 0 to |files|
      invariant Looping(files, i, options, hits, totalMatches)
    {
      var remaining := if options.maxResults > totalMatches then options.maxResults - totalMatches else 0;
      if remaining == 0 {
        Conclude(files, i, options, hits, totalMatches);
        return GrepResult(hits, |files|, totalMatches, true);
      }
      var effectiveCap := Min(options.maxResultsPerFile, remaining);
      if files[i].events.None? {
        PassOver(files, i, options, hits, totalMatches);
        continue;
      }
      var lines, matchCount := SearchFile(files[i].events.value, effectiveCap);
      if lines == [] {
        PassOver(files, i, options, hits, totalMatches);
        continue;
      }
      ghost var before, found := hits, totalMatches;
      totalMatches := totalMatches + matchCount;
      hits := hits + [GrepHit(files[i].path, lines)];
      Report(files, i, options, before, found, lines, hits, totalMatches);
      if totalMatches >= options.maxResults {
        return GrepResult(hits, |files|, totalMatches, true);
      }
    }
    Conclude(files, |files|, options, hits, totalMatches);
    r := GrepResult(hits, |files|, totalMatches, false);
  }
}
