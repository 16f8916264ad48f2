/** What `enclosing_defs_of_callers` (crates/aide-scip/src/lib.rs) answers, said of the index alone. */
module ScipDefinitions {
  import opened Wrappers
  import opened ScipQueries

  // ------------------------------------------------- describing one symbol

  /** Entry `k` is the first that describes `id`. */
  predicate FirstDescribes(symbols: seq<SymbolInformation>, id: string, k: nat) {
    k < |symbols| && symbols[k].symbol == id && forall j :: 0 <= j < k ==> symbols[j].symbol != id
  }

  /** Occurrence `k` is the first that defines `id`. */
  predicate FirstDefines(occs: seq<Occurrence>, id: string, k: nat) {
    k < |occs| && Defines(occs[k], id) && forall j :: 0 <= j < k ==> !Defines(occs[j], id)
  }

  predicate Defines(occ: Occurrence, id: string) {
    occ.symbol == id && occ.roles % 2 != 0
  }

  /** The line is that of the first definition; there is none without a definition or if that one has an
      empty range. */
  ghost predicate StartsAt(occs: seq<Occurrence>, id: string, line: Option<int>) {
    if exists k: nat :: FirstDefines(occs, id, k)
    then exists k: nat :: FirstDefines(occs, id, k) &&
                          if occs[k].range == [] then line.None? else line == Some(occs[k].range[0])
    else line.None? && forall j :: 0 <= j < |occs| ==> !Defines(occs[j], id)
  }

  /** `l` is the answer for the definition `id` of a document: named as the first entry for it says, or by its id
      if that says nothing. */
  ghost predicate Describes(doc: Document, id: string, l: LocatedSymbol) {
    exists k: nat ::
      FirstDescribes(doc.symbols, id, k) &&
      l.symbol == id && l.path == doc.path && l.kind == doc.symbols[k].kind &&
      (doc.symbols[k].displayName != "" ==> l.displayName == doc.symbols[k].displayName) &&
      (doc.symbols[k].displayName == "" ==> l.displayName == id) &&
      StartsAt(doc.occurrences, id, l.line)
  }

  lemma {:induction false} FindsFirst(symbols: seq<SymbolInformation>, id: string) returns (k: nat)
    ensures FindInformation(symbols, id).Some? ==>
              FirstDescribes(symbols, id, k) && symbols[k] == FindInformation(symbols, id).value
    ensures FindInformation(symbols, id).None? ==> forall j: nat :: !FirstDescribes(symbols, id, j)
  {
    k := 0;
    if symbols != [] && symbols[0].symbol != id {
      k := FindsFirst(symbols[1..], id);
      k := k + 1;
      assert FindInformation(symbols, id).Some? ==>
          forall j :: 1 <= j < k ==> symbols[j] == symbols[1..][j - 1];
    }
  }

  lemma FirstIsOne(symbols: seq<SymbolInformation>, id: string, i: nat, k: nat)
    requires FirstDescribes(symbols, id, i) && FirstDescribes(symbols, id, k)
    ensures i == k
  {
  }

  lemma {:induction false} LineStarts(occs: seq<Occurrence>, id: string)
    ensures StartsAt(occs, id, DefinitionLine(occs, id))
  {
    if occs != [] {
      if Defines(occs[0], id) {
        assert FirstDefines(occs, id, 0);
      } else {
        var rest := occs[1..];
        LineStarts(rest, id);
        if k: nat :| FirstDefines(rest, id, k) && (if rest[k].range == [] then DefinitionLine(rest, id).None?
                                                   else DefinitionLine(rest, id) == Some(rest[k].range[0])) {
          assert FirstDefines(occs, id, k + 1) by {
            assert forall j :: 1 <= j < k + 1 ==> occs[j] == rest[j - 1];
          }
        } else {
          assert forall j :: 0 <= j < |rest| ==> !Defines(rest[j], id) && occs[j + 1] == rest[j];
        }
      }
    }
  }

  lemma {:induction false} LineIsOne(occs: seq<Occurrence>, id: string, a: Option<int>, b: Option<int>)
    requires StartsAt(occs, id, a) && StartsAt(occs, id, b)
    ensures a == b
  {
    if i: nat, k: nat :| FirstDefines(occs, id, i) && FirstDefines(occs, id, k) {
      assert forall m: nat :: FirstDefines(occs, id, m) ==> m == i;
    }
  }

  /** What is located is described, and nothing else is. */
  lemma {:induction false} LocatedIff(doc: Document, id: string, l: LocatedSymbol)
    ensures Located(doc, id) == Some(l) <==> Describes(doc, id, l)
  {
    var k := FindsFirst(doc.symbols, id);
    LineStarts(doc.occurrences, id);
    if Located(doc, id).Some? {
      DescribedOnce(doc, id, k, l);
    }
  }

  lemma {:induction false} DescribedOnce(doc: Document, id: string, k: nat, l: LocatedSymbol)
    requires FirstDescribes(doc.symbols, id, k) && FindInformation(doc.symbols, id) == Some(doc.symbols[k])
    requires StartsAt(doc.occurrences, id, DefinitionLine(doc.occurrences, id))
    ensures Located(doc, id) == Some(l) <==> Describes(doc, id, l)
  {
    if Describes(doc, id, l) {
      LineIsOne(doc.occurrences, id, l.line, DefinitionLine(doc.occurrences, id));
    }
  }

  // ------------------------------------------------------ the whole answer

  /** Occurrence `j` of document `i` mentions the symbol without defining it, and `l` describes the definition it
      stands in. */
  ghost predicate ReportedFor(index: Index, i: nat, j: nat, symbol: string, l: LocatedSymbol) {
    i < |index| && j < |index[i].occurrences| &&
    var doc := index[i];
    var occ := doc.occurrences[j];
    occ.symbol == symbol && occ.roles % 2 == 0 && occ.range != [] &&
    exists e: nat :: IsEnclosing(doc.occurrences, occ.range[0], e) && Describes(doc, doc.occurrences[e].symbol, l)
  }

  /** The site is what occurrence `j` of document `i` contributes. */
  predicate IsSite(index: Index, i: nat, j: nat, symbol: string, site: Site) {
    i < |index| && j < |index[i].occurrences| &&
    OccurrenceSite(index[i], index[i].occurrences[j], symbol) == Some(site)
  }

  lemma {:induction false} DocumentSitesAre(index: Index, i: nat, n: nat, symbol: string, site: Site)
    requires i < |index| && n <= |index[i].occurrences|
    ensures site in DocumentSites(index[i], n, symbol) <==> exists j: nat :: j < n && IsSite(index, i, j, symbol, site)
  {
    if n > 0 {
      DocumentSitesAre(index, i, n - 1, symbol, site);
      assert IsSite(index, i, n - 1, symbol, site) <==>
             OccurrenceSite(index[i], index[i].occurrences[n - 1], symbol) == Some(site);
    }
  }

  lemma {:induction false} SitesAre(index: Index, n: nat, symbol: string, site: Site)
    requires n <= |index|
    ensures site in SitesUpTo(index, n, symbol) <==>
            exists i: nat, j: nat :: i < n && IsSite(index, i, j, symbol, site)
  {
    if n > 0 {
      SitesAre(index, n - 1, symbol, site);
      DocumentSitesAre(index, n - 1, |index[n - 1].occurrences|, symbol, site);
    }
  }

  lemma {:induction false} LocatedAre(sites: seq<Site>, l: LocatedSymbol)
    ensures l in LocatedSites(sites) <==> exists site :: site in sites && Located(site.doc, site.id) == Some(l)
  {
    if sites != [] {
      var init, last := sites[..|sites| - 1], sites[|sites| - 1];
      LocatedAre(init, l);
      assert sites == init + [last];
    }
  }

  /** With one document to a path, keeping the first site of a key loses no site. */
  lemma {:induction false} KeepsEverySite(index: Index, sites: seq<Site>, site: Site)
    requires forall s :: s in sites ==> s.doc in index
    ensures site in Distinct(sites) ==> site in sites
    ensures DistinctPaths(index) && site in sites ==> site in Distinct(sites)
  {
    if sites != [] {
      var init, last := sites[..|sites| - 1], sites[|sites| - 1];
      assert sites == init + [last];
      KeepsEverySite(index, init, site);
      if DistinctPaths(index) && site == last && Key(last) in Keys(init) {
        var k :| 0 <= k < |init| && Keys(init)[k] == Key(last);
        assert init[k] in sites && last in sites;
        OnePathOneDocument(index, init[k].doc, last.doc);
        assert init[k] in init;
      }
    }
  }

  lemma OnePathOneDocument(index: Index, a: Document, b: Document)
    requires DistinctPaths(index) && a in index && b in index && a.path == b.path
    ensures a == b
  {
  }

  lemma {:induction false} SiteReports(index: Index, i: nat, j: nat, symbol: string, l: LocatedSymbol)
    ensures (exists site :: IsSite(index, i, j, symbol, site) && Located(site.doc, site.id) == Some(l)) <==>
            ReportedFor(index, i, j, symbol, l)
  {
    if i < |index| && j < |index[i].occurrences| {
      var doc := index[i];
      var occ := doc.occurrences[j];
      if occ.symbol == symbol && occ.roles % 2 == 0 && occ.range != [] {
        var e := Enclosing(doc.occurrences, occ.range[0]);
        forall k: nat {
          EnclosingIsUnique(doc.occurrences, occ.range[0], k);
        }
        if e.Some? {
          var id := doc.occurrences[e.value].symbol;
          LocatedIff(doc, id, l);
          assert IsSite(index, i, j, symbol, Site(doc, id));
        }
      }
    }
  }

  /** Everything reported describes the definition around a caller; with one document to a path, every such
      definition that has a description is reported. */
  lemma {:induction false} DefinitionsAre(index: Index, symbol: string, l: LocatedSymbol)
    ensures l in EnclosingDefs(index, symbol) ==> exists i: nat, j: nat :: ReportedFor(index, i, j, symbol, l)
    ensures DistinctPaths(index) && (exists i: nat, j: nat :: ReportedFor(index, i, j, symbol, l)) ==>
              l in EnclosingDefs(index, symbol)
  {
    var sites := SitesUpTo(index, |index|, symbol);
    SitesAreOfIndex(index, |index|, symbol);
    LocatedAre(Distinct(sites), l);
    if site :| site in Distinct(sites) && Located(site.doc, site.id) == Some(l) {
      KeepsEverySite(index, sites, site);
      SitesAre(index, |index|, symbol, site);
      var i: nat, j: nat :| IsSite(index, i, j, symbol, site);
      SiteReports(index, i, j, symbol, l);
    }
    if i: nat, j: nat :| ReportedFor(index, i, j, symbol, l) {
      SiteReports(index, i, j, symbol, l);
      var site :| IsSite(index, i, j, symbol, site) && Located(site.doc, site.id) == Some(l);
      SitesAre(index, |index|, symbol, site);
      KeepsEverySite(index, sites, site);
    }
  }
}
