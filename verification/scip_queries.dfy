/** Queries over a decoded SCIP index (crates/aide-scip/src/lib.rs). */
module ScipQueries {
  import opened Common
  import opened Wrappers

  /** `range` is as the protobuf has it, so nothing makes it non-empty. */
  datatype Occurrence = Occurrence(symbol: string, range: seq<int>, roles: int)

  datatype SymbolInformation = SymbolInformation(symbol: string, displayName: string, kind: string)

  datatype Document = Document(path: string, occurrences: seq<Occurrence>, symbols: seq<SymbolInformation>)

  type Index = seq<Document>

  datatype OccurrenceHit = OccurrenceHit(path: string, range: seq<int>, isDefinition: bool)

  datatype LocatedSymbol =
    LocatedSymbol(symbol: string, displayName: string, kind: string, path: string, line: Option<int>)

  /** The lowest bit of the role mask. */
  predicate IsDefinition(occ: Occurrence) {
    occ.roles % 2 == 1
  }

  function FirstLine(range: seq<int>): Option<int> {
    if range == [] then None else Some(range[0])
  }

  // ------------------------------------------------- the enclosing definition

  /** Occurrence `k` defines something and starts at or before `line`. */
  predicate Candidate(occs: seq<Occurrence>, k: nat, line: int)
    requires k < |occs|
  {
    IsDefinition(occs[k]) && occs[k].range != [] && occs[k].range[0] <= line
  }

  /** The last of the candidates that start latest. */
  predicate IsEnclosing(occs: seq<Occurrence>, line: int, k: nat) {
    k < |occs| && Candidate(occs, k, line) &&
    forall j :: 0 <= j < |occs| && Candidate(occs, j, line) ==>
                  occs[j].range[0] < occs[k].range[0] || (occs[j].range[0] == occs[k].range[0] && j <= k)
  }

  function Enclosing(occs: seq<Occurrence>, line: int): (r: Option<nat>)
    ensures r.Some? ==> IsEnclosing(occs, line, r.value)
    ensures r.None? ==> forall j :: 0 <= j < |occs| ==> !Candidate(occs, j, line)
  {
    if occs == [] then None
    else
      var k := |occs| - 1;
      var init := occs[..k];
      var best := Enclosing(init, line);
      assert forall j :: 0 <= j < k ==> init[j] == occs[j] && (Candidate(init, j, line) <==> Candidate(occs, j, line));
      if Candidate(occs, k, line) && (best.None? || occs[k].range[0] >= occs[best.value].range[0]) then Some(k)
      else best
  }

  function EnclosingId(doc: Document, line: int): Option<string> {
    var k := Enclosing(doc.occurrences, line);
    if k.None? then None else Some(doc.occurrences[k.value].symbol)
  }

  method EnclosingDefinitionSymbolId(doc: Document, line: int) returns (id: Option<string>)
    ensures id == EnclosingId(doc, line)
    ensures id.None? <==> forall j :: 0 <= j < |doc.occurrences| ==> !Candidate(doc.occurrences, j, line)
    ensures id.Some? ==> exists k: nat :: IsEnclosing(doc.occurrences, line, k) && id.value == doc.occurrences[k].symbol
  {
    var best: Option<(int, string)> := None;
    var occs := doc.occurrences;
    for i := 0 to |occs|
      invariant var k := Enclosing(occs[..i], line);
                best == if k.None? then None else Some((occs[k.value].range[0], occs[k.value].symbol))
    {
      var occ := occs[i];
      assert occs[..i + 1][..i] == occs[..i];
      if IsDefinition(occ) && occ.range != [] {
        var startLine := occ.range[0];
        if startLine <= line && (best.None? || startLine >= best.value.0) {
          best := Some((startLine, occ.symbol));
        }
      }
    }
    assert occs[..|occs|] == occs;
    id := if best.None? then None else Some(best.value.1);
  }

  /** The rule leaves no choice. */
  lemma EnclosingIsUnique(occs: seq<Occurrence>, line: int, k: nat)
    ensures IsEnclosing(occs, line, k) <==> Enclosing(occs, line) == Some(k)
  {
    var r := Enclosing(occs, line);
    if IsEnclosing(occs, line, k) {
      assert Candidate(occs, k, line);
      assert r.Some? && IsEnclosing(occs, line, r.value);
    }
  }

  /** No definition encloses what comes before it, and each its own line, unless a later one starts there too. */
  lemma EnclosesItsLine(occs: seq<Occurrence>, j: nat, line: int)
    requires j < |occs| && occs[j].roles % 2 != 0 && occs[j].range != []
    ensures line < occs[j].range[0] ==> Enclosing(occs, line) != Some(j)
    ensures var k := Enclosing(occs, occs[j].range[0]);
            k.Some? && k.value >= j && occs[k.value].roles % 2 != 0 &&
            occs[k.value].range != [] && occs[k.value].range[0] == occs[j].range[0]
  {
    assert Candidate(occs, j, occs[j].range[0]);
  }

  /** Further down a document the enclosing definition starts no earlier; it only changes when a
      definition starts in between. */
  lemma EnclosingIsMonotone(occs: seq<Occurrence>, upper: int, lower: int)
    requires upper <= lower
    ensures Enclosing(occs, upper).Some? ==>
              Enclosing(occs, lower).Some? &&
              occs[Enclosing(occs, upper).value].range[0] <= occs[Enclosing(occs, lower).value].range[0]
    ensures (forall j :: 0 <= j < |occs| && Candidate(occs, j, lower) ==> Candidate(occs, j, upper)) <==>
              Enclosing(occs, upper) == Enclosing(occs, lower)
  {
    var u, l := Enclosing(occs, upper), Enclosing(occs, lower);
    if u.Some? {
      assert Candidate(occs, u.value, lower);
    }
    if forall j :: 0 <= j < |occs| && Candidate(occs, j, lower) ==> Candidate(occs, j, upper) {
      if l.Some? {
        assert IsEnclosing(occs, upper, l.value);
        EnclosingIsUnique(occs, upper, l.value);
      }
    } else {
      var j :| 0 <= j < |occs| && Candidate(occs, j, lower) && !Candidate(occs, j, upper);
      assert occs[j].range[0] > upper;
      assert l.Some? && occs[l.value].range[0] > upper;
    }
  }

  function FindDocument(index: Index, path: string): (r: Option<Document>)
    ensures r.Some? ==> r.value in index && r.value.path == path
    ensures r.None? <==> forall doc :: doc in index ==> doc.path != path
  {
    if index == [] then None else if index[0].path == path then Some(index[0]) else FindDocument(index[1..], path)
  }

  function EnclosingDefinitionId(index: Index, path: string, line: int): Option<string> {
    var doc := FindDocument(index, path);
    if doc.None? then None else EnclosingId(doc.value, line)
  }

  // -------------------------------------------------- references and callers

  /** Hits among the first `n` occurrences of a document. */
  function DocumentHits(doc: Document, n: nat, symbol: string): seq<OccurrenceHit>
    requires n <= |doc.occurrences|
  {
    if n == 0 then []
    else
      WithHit(DocumentHits(doc, n - 1, symbol), doc, doc.occurrences[n - 1], symbol)
  }

  function WithHit(hits: seq<OccurrenceHit>, doc: Document, occ: Occurrence, symbol: string): seq<OccurrenceHit> {
    if occ.symbol == symbol then hits + [OccurrenceHit(doc.path, occ.range, IsDefinition(occ))] else hits
  }

  /** Hits in the first `n` documents. */
  function HitsUpTo(index: Index, n: nat, symbol: string): seq<OccurrenceHit>
    requires n <= |index|
  {
    if n == 0 then []
    else HitsUpTo(index, n - 1, symbol) + DocumentHits(index[n - 1], |index[n - 1].occurrences|, symbol)
  }

  method References(index: Index, symbol: string) returns (out: seq<OccurrenceHit>)
    ensures out == HitsUpTo(index, |index|, symbol)
  {
    out := [];
    for i := 0 to |index|
      invariant out == HitsUpTo(index, i, symbol)
    {
      var doc := index[i];
      ghost var before := out;
      for j := 0 to |doc.occurrences|
        invariant out == before + DocumentHits(doc, j, symbol)
      {
        var occ := doc.occurrences[j];
        if occ.symbol == symbol {
          out := out + [OccurrenceHit(doc.path, occ.range, IsDefinition(occ))];
        }
      }
    }
  }

  /** `hit` is what occurrence `j` of document `i` looks like in a list of hits. */
  predicate IsHit(index: Index, i: nat, j: nat, symbol: string, hit: OccurrenceHit) {
    i < |index| && j < |index[i].occurrences| &&
    var occ := index[i].occurrences[j];
    occ.symbol == symbol && hit == OccurrenceHit(index[i].path, occ.range, occ.roles % 2 != 0)
  }

  lemma {:induction false} DocumentHitsAre(index: Index, i: nat, n: nat, symbol: string, hit: OccurrenceHit)
    requires i < |index| && n <= |index[i].occurrences|
    ensures hit in DocumentHits(index[i], n, symbol) <==> exists j: nat :: j < n && IsHit(index, i, j, symbol, hit)
  {
    if n > 0 {
      DocumentHitsAre(index, i, n - 1, symbol, hit);
      assert IsHit(index, i, n - 1, symbol, hit) <==>
             index[i].occurrences[n - 1].symbol == symbol &&
             hit == OccurrenceHit(index[i].path, index[i].occurrences[n - 1].range,
                                  IsDefinition(index[i].occurrences[n - 1]));
    }
  }

  /** The hits are the occurrences of exactly this symbol, anywhere in the index, and only those. */
  lemma {:induction false} HitsAre(index: Index, n: nat, symbol: string, hit: OccurrenceHit)
    requires n <= |index|
    ensures hit in HitsUpTo(index, n, symbol) <==> exists i: nat, j: nat :: i < n && IsHit(index, i, j, symbol, hit)
  {
    if n > 0 {
      HitsAre(index, n - 1, symbol, hit);
      DocumentHitsAre(index, n - 1, |index[n - 1].occurrences|, symbol, hit);
    }
  }

  /** Callers are the hits that are not definitions. */
  lemma {:induction false} NonDefinitionsAre(hits: seq<OccurrenceHit>, hit: OccurrenceHit)
    ensures hit in NonDefinitions(hits) <==> hit in hits && !hit.isDefinition
  {
    if hits != [] {
      var init, last := hits[..|hits| - 1], hits[|hits| - 1];
      assert hits == init + [last];
      NonDefinitionsAre(init, hit);
    }
  }

  function NonDefinitions(hits: seq<OccurrenceHit>): seq<OccurrenceHit> {
    if hits == [] then []
    else
      var last := hits[|hits| - 1];
      NonDefinitions(hits[..|hits| - 1]) + (if last.isDefinition then [] else [last])
  }

  function Callers(index: Index, symbol: string): seq<OccurrenceHit> {
    NonDefinitions(HitsUpTo(index, |index|, symbol))
  }

  // ------------------------------------------------------- the fused query

  /** A caller resolved to the definition around it. */
  datatype Site = Site(doc: Document, id: string)

  function Key(site: Site): (string, string) {
    (site.doc.path, site.id)
  }

  /** What one occurrence contributes. */
  function OccurrenceSite(doc: Document, occ: Occurrence, symbol: string): Option<Site> {
    if occ.symbol != symbol || IsDefinition(occ) || occ.range == [] then None
    else
      var id := EnclosingId(doc, occ.range[0]);
      if id.None? then None else Some(Site(doc, id.value))
  }

  function DocumentSites(doc: Document, n: nat, symbol: string): seq<Site>
    requires n <= |doc.occurrences|
  {
    if n == 0 then []
    else
      Extended(DocumentSites(doc, n - 1, symbol), OccurrenceSite(doc, doc.occurrences[n - 1], symbol))
  }

  function Extended(sites: seq<Site>, site: Option<Site>): seq<Site> {
    if site.None? then sites else sites + [site.value]
  }

  function SitesUpTo(index: Index, n: nat, symbol: string): seq<Site>
    requires n <= |index|
  {
    if n == 0 then []
    else SitesUpTo(index, n - 1, symbol) + DocumentSites(index[n - 1], |index[n - 1].occurrences|, symbol)
  }

  function Keys(sites: seq<Site>): (keys: seq<(string, string)>)
    ensures |keys| == |sites| && forall i :: 0 <= i < |sites| ==> keys[i] == Key(sites[i])
  {
    seq(|sites|, i requires 0 <= i < |sites| => Key(sites[i]))
  }

  /** The first site of each key. */
  function Distinct(sites: seq<Site>): seq<Site> {
    if sites == [] then []
    else
      var init, last := sites[..|sites| - 1], sites[|sites| - 1];
      if Key(last) in Keys(init) then Distinct(init) else Distinct(init) + [last]
  }

  function FindInformation(symbols: seq<SymbolInformation>, id: string): (r: Option<SymbolInformation>)
    ensures r.Some? ==> r.value in symbols && r.value.symbol == id
    ensures r.None? <==> forall s :: s in symbols ==> s.symbol != id
  {
    if symbols == [] then None
    else if symbols[0].symbol == id then Some(symbols[0])
    else FindInformation(symbols[1..], id)
  }

  /** The start line of the first definition of `id`, if it has one. */
  function DefinitionLine(occs: seq<Occurrence>, id: string): Option<int> {
    if occs == [] then None
    else if occs[0].symbol == id && IsDefinition(occs[0]) then FirstLine(occs[0].range)
    else DefinitionLine(occs[1..], id)
  }

  function Located(doc: Document, id: string): Option<LocatedSymbol> {
    var info := FindInformation(doc.symbols, id);
    if info.None? then None
    else
      var s := info.value;
      Some(LocatedSymbol(s.symbol, if s.displayName == "" then s.symbol else s.displayName, s.kind, doc.path,
                         DefinitionLine(doc.occurrences, s.symbol)))
  }

  function LocatedSites(sites: seq<Site>): seq<LocatedSymbol> {
    if sites == [] then []
    else
      var last := sites[|sites| - 1];
      var found := Located(last.doc, last.id);
      LocatedSites(sites[..|sites| - 1]) + (if found.None? then [] else [found.value])
  }

  function EnclosingDefs(index: Index, symbol: string): seq<LocatedSymbol> {
    LocatedSites(Distinct(SitesUpTo(index, |index|, symbol)))
  }

  /** What the loop has recorded after the given sites. */
  ghost predicate Recorded(sites: seq<Site>, seen: set<(string, string)>, out: seq<LocatedSymbol>) {
    out == LocatedSites(Distinct(sites)) && forall key :: key in seen <==> key in Keys(sites)
  }

  lemma OneMoreKey(sites: seq<Site>, site: Site)
    ensures Keys(sites + [site]) == Keys(sites) + [Key(site)]
  {
  }

  lemma RecordedAgain(sites: seq<Site>, site: Site, seen: set<(string, string)>, out: seq<LocatedSymbol>)
    requires Recorded(sites, seen, out) && Key(site) in seen
    ensures Recorded(sites + [site], seen, out)
  {
    OneMoreKey(sites, site);
    assert (sites + [site])[..|sites|] == sites;
  }

  lemma RecordedNew(sites: seq<Site>, site: Site, seen: set<(string, string)>, out: seq<LocatedSymbol>)
    requires Recorded(sites, seen, out) && Key(site) !in seen
    ensures var found := Located(site.doc, site.id);
            Recorded(sites + [site], seen + {Key(site)}, out + (if found.None? then [] else [found.value]))
  {
    OneMoreKey(sites, site);
    assert (sites + [site])[..|sites|] == sites;
    assert (Distinct(sites) + [site])[..|Distinct(sites)|] == Distinct(sites);
  }

  lemma OneMoreOccurrence(before: seq<Site>, doc: Document, j: nat, symbol: string)
    requires j < |doc.occurrences|
    ensures before + DocumentSites(doc, j + 1, symbol) ==
            Extended(before + DocumentSites(doc, j, symbol), OccurrenceSite(doc, doc.occurrences[j], symbol))
  {
  }

  lemma NoOccurrencesYet(before: seq<Site>, doc: Document, symbol: string)
    ensures before + DocumentSites(doc, 0, symbol) == before
  {
  }

  /** Both loops in one pass: the set of seen keys is extended before the symbol's information is
      looked up. */
  method EnclosingDefsOfCallers(index: Index, symbol: string) returns (out: seq<LocatedSymbol>)
    ensures out == EnclosingDefs(index, symbol)
  {
    out := [];
    var seen: set<(string, string)> := {};
    for i := 0 to |index|
      invariant Recorded(SitesUpTo(index, i, symbol), seen, out)
    {
      seen, out := AddDocument(SitesUpTo(index, i, symbol), index[i], symbol, seen, out);
    }
  }

  method AddDocument(ghost before: seq<Site>, doc: Document, symbol: string, seenBefore: set<(string, string)>,
                     outBefore: seq<LocatedSymbol>)
    returns (seen: set<(string, string)>, out: seq<LocatedSymbol>)
    requires Recorded(before, seenBefore, outBefore)
    ensures Recorded(before + DocumentSites(doc, |doc.occurrences|, symbol), seen, out)
  {
    seen, out := seenBefore, outBefore;
    ghost var sites := before;
    NoOccurrencesYet(before, doc, symbol);
    for j := 0 to |doc.occurrences|
      invariant sites == before + DocumentSites(doc, j, symbol)
      invariant Recorded(sites, seen, out)
    {
      OneMoreOccurrence(before, doc, j, symbol);
      seen, out := AddOccurrence(sites, doc, doc.occurrences[j], symbol, seen, out);
      sites := Extended(sites, OccurrenceSite(doc, doc.occurrences[j], symbol));
    }
  }

  method AddOccurrence(ghost sites: seq<Site>, doc: Document, occ: Occurrence, symbol: string,
                       seenBefore: set<(string, string)>, outBefore: seq<LocatedSymbol>)
    returns (seen: set<(string, string)>, out: seq<LocatedSymbol>)
    requires Recorded(sites, seenBefore, outBefore)
    ensures Recorded(Extended(sites, OccurrenceSite(doc, occ, symbol)), seen, out)
  {
    seen, out := seenBefore, outBefore;
    if occ.symbol != symbol || IsDefinition(occ) || occ.range == [] {
      return;
    }
    var enclosing := EnclosingDefinitionSymbolId(doc, occ.range[0]);
    if enclosing.None? {
      return;
    }
    var key := (doc.path, enclosing.value);
    ghost var site := Site(doc, enclosing.value);
    if key in seen {
      RecordedAgain(sites, site, seen, out);
      return;
    }
    RecordedNew(sites, site, seen, out);
    seen := seen + {key};
    var found := Located(doc, enclosing.value);
    if found.Some? {
      out := out + [found.value];
    } else {
      assert out + [] == out;
    }
  }

  // --------------------------------------- the same, from the simple queries

  predicate DistinctPaths(index: Index) {
    forall i, j :: 0 <= i < j < |index| ==> index[i].path != index[j].path
  }

  /** `EnclosingDefinitionId` mapped over hits, leaving out those it has no answer for. */
  function Resolved(index: Index, hits: seq<OccurrenceHit>): seq<(string, string)> {
    if hits == [] then []
    else
      var last := hits[|hits| - 1];
      var id := if last.range == [] then None else EnclosingDefinitionId(index, last.path, last.range[0]);
      Resolved(index, hits[..|hits| - 1]) + (if id.None? then [] else [(last.path, id.value)])
  }

  /** The first of each pair. */
  function FirstOccurrences<T(==)>(xs: seq<T>): seq<T> {
    if xs == [] then []
    else
      var init, last := xs[..|xs| - 1], xs[|xs| - 1];
      if last in init then FirstOccurrences(init) else FirstOccurrences(init) + [last]
  }

  /** The pairs whose symbol the document describes, located. */
  function LocatedPairs(index: Index, pairs: seq<(string, string)>): seq<LocatedSymbol> {
    if pairs == [] then []
    else
      var last := pairs[|pairs| - 1];
      var doc := FindDocument(index, last.0);
      var found := if doc.None? then None else Located(doc.value, last.1);
      LocatedPairs(index, pairs[..|pairs| - 1]) + (if found.None? then [] else [found.value])
  }

  lemma {:induction false} FindsByPath(index: Index, k: nat)
    requires DistinctPaths(index) && k < |index|
    ensures FindDocument(index, index[k].path) == Some(index[k])
  {
    if k > 0 {
      FindsByPath(index[1..], k - 1);
    }
  }

  lemma {:induction false} NonDefinitionsConcat(a: seq<OccurrenceHit>, b: seq<OccurrenceHit>)
    ensures NonDefinitions(a + b) == NonDefinitions(a) + NonDefinitions(b)
  {
    if b == [] {
      assert a + b == a;
    } else {
      assert (a + b)[..|a + b| - 1] == a + b[..|b| - 1];
      NonDefinitionsConcat(a, b[..|b| - 1]);
    }
  }

  lemma {:induction false} ResolvedConcat(index: Index, a: seq<OccurrenceHit>, b: seq<OccurrenceHit>)
    ensures Resolved(index, a + b) == Resolved(index, a) + Resolved(index, b)
  {
    if b == [] {
      assert a + b == a;
    } else {
      assert (a + b)[..|a + b| - 1] == a + b[..|b| - 1];
      ResolvedConcat(index, a, b[..|b| - 1]);
    }
  }

  lemma KeysConcat(a: seq<Site>, b: seq<Site>)
    ensures Keys(a + b) == Keys(a) + Keys(b)
  {
  }

  lemma SingleHit(index: Index, doc: Document, occ: Occurrence, symbol: string)
    requires FindDocument(index, doc.path) == Some(doc) && occ.symbol == symbol
    ensures var site := OccurrenceSite(doc, occ, symbol);
            Resolved(index, NonDefinitions([OccurrenceHit(doc.path, occ.range, IsDefinition(occ))])) ==
            if site.None? then [] else [Key(site.value)]
  {
    var hit := OccurrenceHit(doc.path, occ.range, IsDefinition(occ));
    assert [hit][..0] == [] && NonDefinitions([]) == [] && Resolved(index, []) == [];
    assert NonDefinitions([hit]) == if hit.isDefinition then [] else [hit];
  }

  lemma OneMoreHit(index: Index, hits: seq<OccurrenceHit>, sites: seq<Site>, doc: Document, occ: Occurrence,
                   symbol: string)
    requires FindDocument(index, doc.path) == Some(doc)
    requires Resolved(index, NonDefinitions(hits)) == Keys(sites)
    ensures Resolved(index, NonDefinitions(WithHit(hits, doc, occ, symbol))) ==
            Keys(Extended(sites, OccurrenceSite(doc, occ, symbol)))
  {
    if occ.symbol == symbol {
      var hit := OccurrenceHit(doc.path, occ.range, IsDefinition(occ));
      NonDefinitionsConcat(hits, [hit]);
      ResolvedConcat(index, NonDefinitions(hits), NonDefinitions([hit]));
      SingleHit(index, doc, occ, symbol);
      var site := OccurrenceSite(doc, occ, symbol);
      if site.Some? {
        OneMoreKey(sites, site.value);
      }
    }
  }

  lemma {:induction false} DocumentCallers(index: Index, doc: Document, n: nat, symbol: string)
    requires FindDocument(index, doc.path) == Some(doc) && n <= |doc.occurrences|
    ensures Resolved(index, NonDefinitions(DocumentHits(doc, n, symbol))) == Keys(DocumentSites(doc, n, symbol))
  {
    if n > 0 {
      DocumentCallers(index, doc, n - 1, symbol);
      OneMoreHit(index, DocumentHits(doc, n - 1, symbol), DocumentSites(doc, n - 1, symbol), doc,
                 doc.occurrences[n - 1], symbol);
    }
  }

  lemma OneMoreDocument(index: Index, hits: seq<OccurrenceHit>, sites: seq<Site>, doc: Document, symbol: string)
    requires FindDocument(index, doc.path) == Some(doc)
    requires Resolved(index, NonDefinitions(hits)) == Keys(sites)
    ensures Resolved(index, NonDefinitions(hits + DocumentHits(doc, |doc.occurrences|, symbol))) ==
            Keys(sites + DocumentSites(doc, |doc.occurrences|, symbol))
  {
    var more := DocumentHits(doc, |doc.occurrences|, symbol);
    DocumentCallers(index, doc, |doc.occurrences|, symbol);
    NonDefinitionsConcat(hits, more);
    ResolvedConcat(index, NonDefinitions(hits), NonDefinitions(more));
    KeysConcat(sites, DocumentSites(doc, |doc.occurrences|, symbol));
  }

  lemma {:induction false} CallersAreSites(index: Index, n: nat, symbol: string)
    requires DistinctPaths(index) && n <= |index|
    ensures Resolved(index, NonDefinitions(HitsUpTo(index, n, symbol))) == Keys(SitesUpTo(index, n, symbol))
  {
    if n > 0 {
      CallersAreSites(index, n - 1, symbol);
      FindsByPath(index, n - 1);
      OneMoreDocument(index, HitsUpTo(index, n - 1, symbol), SitesUpTo(index, n - 1, symbol), index[n - 1], symbol);
    }
  }

  lemma {:induction false} SitesAreOfIndex(index: Index, n: nat, symbol: string)
    requires n <= |index|
    ensures forall site :: site in SitesUpTo(index, n, symbol) ==> site.doc in index
  {
    if n > 0 {
      SitesAreOfIndex(index, n - 1, symbol);
      SitesAreOfDocument(index[n - 1], |index[n - 1].occurrences|, symbol);
    }
  }

  lemma {:induction false} SitesAreOfDocument(doc: Document, n: nat, symbol: string)
    requires n <= |doc.occurrences|
    ensures forall site :: site in DocumentSites(doc, n, symbol) ==> site.doc == doc
  {
    if n > 0 {
      SitesAreOfDocument(doc, n - 1, symbol);
    }
  }

  /** Dropping repeated sites drops repeated keys. */
  lemma {:induction false} DistinctKeys(sites: seq<Site>)
    ensures Keys(Distinct(sites)) == FirstOccurrences(Keys(sites))
    ensures forall site :: site in Distinct(sites) ==> site in sites
  {
    if sites != [] {
      var init, last := sites[..|sites| - 1], sites[|sites| - 1];
      DistinctKeys(init);
      assert Keys(sites)[..|sites| - 1] == Keys(init);
      KeysConcat(Distinct(init), [last]);
    }
  }

  lemma {:induction false} LocatedEitherWay(index: Index, sites: seq<Site>)
    requires DistinctPaths(index) && forall site :: site in sites ==> site.doc in index
    ensures LocatedPairs(index, Keys(sites)) == LocatedSites(sites)
  {
    if sites != [] {
      var init, last := sites[..|sites| - 1], sites[|sites| - 1];
      assert forall site :: site in init ==> site in sites;
      LocatedEitherWay(index, init);
      assert Keys(sites)[..|sites| - 1] == Keys(init);
      assert last in sites;
      var k :| 0 <= k < |index| && index[k] == last.doc;
      FindsByPath(index, k);
    }
  }

  /** The fused loop computes what the simple queries do when chained: look up the callers, resolve
      each to its enclosing definition, keep the first of each, and describe those that can be. */
  lemma FusedIsComposed(index: Index, symbol: string)
    requires DistinctPaths(index)
    ensures EnclosingDefs(index, symbol) ==
            LocatedPairs(index, FirstOccurrences(Resolved(index, Callers(index, symbol))))
  {
    var sites := SitesUpTo(index, |index|, symbol);
    CallersAreSites(index, |index|, symbol);
    DistinctKeys(sites);
    SitesAreOfIndex(index, |index|, symbol);
    LocatedEitherWay(index, Distinct(sites));
  }

  /** What keeping first occurrences means: the same members, once each, in the order in which they
      first appear (so that a longer list only adds at the end). */
  lemma {:induction false} FirstOccurrencesAre<T>(xs: seq<T>, n: nat)
    requires n <= |xs|
    ensures NoDuplicates(FirstOccurrences(xs))
    ensures forall x :: x in FirstOccurrences(xs) <==> x in xs
    ensures FirstOccurrences(xs[..n]) <= FirstOccurrences(xs)
    decreases |xs|
  {
    if n == |xs| {
      assert xs[..n] == xs;
    }
    if xs != [] {
      var init, last := xs[..|xs| - 1], xs[|xs| - 1];
      assert xs == init + [last];
      FirstOccurrencesAre(init, if n < |xs| then n else 0);
      assert n < |xs| ==> init[..n] == xs[..n];
    }
  }

  lemma {:induction false} LocatedKeepsOrder(sites: seq<Site>)
    requires NoDuplicates(Keys(sites))
    ensures NoDuplicates(LocatedSites(sites))
    ensures forall l :: l in LocatedSites(sites) ==> (l.path, l.symbol) in Keys(sites)
  {
    if sites != [] {
      var init, last := sites[..|sites| - 1], sites[|sites| - 1];
      assert Keys(sites)[..|sites| - 1] == Keys(init);
      LocatedKeepsOrder(init);
      assert forall k :: k in Keys(init) ==> k in Keys(sites);
    }
  }

  /** No definition is reported twice, whatever the index. */
  lemma ReportedOnce(index: Index, symbol: string, i: nat, j: nat)
    requires i < j < |EnclosingDefs(index, symbol)|
    ensures var defs := EnclosingDefs(index, symbol);
            (defs[i].path, defs[i].symbol) != (defs[j].path, defs[j].symbol)
  {
    var sites := SitesUpTo(index, |index|, symbol);
    DistinctKeys(sites);
    FirstOccurrencesAre(Keys(sites), 0);
    LocatedOnce(Distinct(sites), i, j);
  }

  lemma {:induction false} LocatedOnce(sites: seq<Site>, i: nat, j: nat)
    requires NoDuplicates(Keys(sites)) && i < j < |LocatedSites(sites)|
    ensures var defs := LocatedSites(sites);
            (defs[i].path, defs[i].symbol) != (defs[j].path, defs[j].symbol)
  {
    if sites != [] {
      var init, last := sites[..|sites| - 1], sites[|sites| - 1];
      var defs := LocatedSites(init);
      assert Keys(sites)[..|sites| - 1] == Keys(init);
      if j < |defs| {
        LocatedOnce(init, i, j);
      } else {
        LocatedKeepsOrder(init);
        assert defs[i] in defs;
        assert Keys(sites)[|sites| - 1] == Key(last);
      }
    }
  }
}
