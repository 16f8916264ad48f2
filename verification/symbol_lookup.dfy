/** `find_enclosing_symbol` of crates/aide-lsp/src/ops.rs: the symbol a position belongs to. */
module SymbolLookup {
  import opened Wrappers
  import opened TextPositions
  import opened Utf16

  /** An LSP document symbol; a missing list of children is an empty one. */
  datatype Symbol = Symbol(name: string, range: Range, selection: Range, children: seq<Symbol>)

  predicate PositionInRange(p: Position, r: Range) {
    AtMost(r.start, p) && AtMost(p, r.end)
  }

  predicate Encloses(s: Symbol, p: Position) {
    PositionInRange(p, s.range) || PositionInRange(p, s.selection)
  }

  /** A symbol encloses a place of a text if it lies in either of its ranges, both ends included. */
  lemma EnclosesIff(text: string, s: Symbol, k: nat, a: nat, b: nat, c: nat, d: nat)
    requires k <= |text| && a <= |text| && b <= |text| && c <= |text| && d <= |text|
    requires s.range == Range(PositionOf(text, a), PositionOf(text, b))
    requires s.selection == Range(PositionOf(text, c), PositionOf(text, d))
    ensures Encloses(s, PositionOf(text, k)) <==> a <= k <= b || c <= k <= d
  {
    OrderIs(text, a, k);
    OrderIs(text, k, b);
    OrderIs(text, c, k);
    OrderIs(text, k, d);
  }

  /** The first enclosing symbol of each level, followed down; the code returns its range and name. */
  function FindEnclosing(syms: seq<Symbol>, p: Position): Option<Symbol>
    decreases syms
  {
    if syms == [] then None
    else if !Encloses(syms[0], p) then FindEnclosing(syms[1..], p)
    else
      var deeper := FindEnclosing(syms[0].children, p);
      if deeper.Some? then deeper else Some(syms[0])
  }

  /** `t` is a symbol of the forest, `depth` levels down. */
  ghost predicate Occurs(syms: seq<Symbol>, t: Symbol, depth: nat)
    decreases depth
  {
    exists i :: 0 <= i < |syms| &&
                if depth == 0 then syms[i] == t else Occurs(syms[i].children, t, depth - 1)
  }

  /** On any forest: no answer exactly when no top-level symbol encloses the position; an answer
      is a symbol of the forest that encloses it and none of whose children does. */
  lemma {:induction false} FindsInnermost(syms: seq<Symbol>, p: Position)
    ensures var r := FindEnclosing(syms, p);
            && (r.None? <==> forall i :: 0 <= i < |syms| ==> !Encloses(syms[i], p))
            && (r.Some? ==>
                  && Encloses(r.value, p)
                  && (forall i :: 0 <= i < |r.value.children| ==> !Encloses(r.value.children[i], p))
                  && exists depth: nat :: Occurs(syms, r.value, depth))
    decreases syms
  {
    if syms != [] {
      var r := FindEnclosing(syms, p);
      if Encloses(syms[0], p) {
        FindsInnermost(syms[0].children, p);
        var deeper := FindEnclosing(syms[0].children, p);
        if deeper.Some? {
          var depth: nat :| Occurs(syms[0].children, deeper.value, depth);
          assert Occurs(syms, r.value, depth + 1);
        } else {
          assert Occurs(syms, syms[0], 0);
        }
      } else {
        FindsInnermost(syms[1..], p);
        if r.Some? {
          var depth: nat :| Occurs(syms[1..], r.value, depth);
          OccursInLonger(syms, r.value, depth);
        }
        forall i | 0 <= i < |syms|
          ensures r.None? ==> !Encloses(syms[i], p)
        {
          if i > 0 {
            assert syms[i] == syms[1..][i - 1];
          }
        }
        if r.Some? {
          var i :| 0 <= i < |syms[1..]| && Encloses(syms[1..][i], p);
          assert syms[1..][i] == syms[i + 1];
        }
      }
    }
  }

  lemma OccursInLonger(syms: seq<Symbol>, t: Symbol, depth: nat)
    requires syms != [] && Occurs(syms[1..], t, depth)
    ensures Occurs(syms, t, depth)
  {
    var i :| 0 <= i < |syms[1..]| &&
             if depth == 0 then syms[1..][i] == t else Occurs(syms[1..][i].children, t, depth - 1);
    assert syms[i + 1] == syms[1..][i];
  }

  // ------------------------------------------------------ well-nested forests

  predicate Contains(outer: Range, inner: Range) {
    AtMost(outer.start, inner.start) && AtMost(inner.end, outer.end)
  }

  ghost predicate Apart(a: Range, b: Range) {
    forall p :: !(PositionInRange(p, a) && PositionInRange(p, b))
  }

  /** Children and the selection lie inside their symbol, siblings share no position. */
  ghost predicate WellNested(syms: seq<Symbol>)
    decreases syms
  {
    && (forall i, j :: 0 <= i < j < |syms| ==> Apart(syms[i].range, syms[j].range))
    && (forall s :: s in syms ==>
          && Contains(s.range, s.selection)
          && (forall c :: c in s.children ==> Contains(s.range, c.range))
          && WellNested(s.children))
  }

  lemma {:induction false} InsideAncestor(syms: seq<Symbol>, outer: Range, t: Symbol, depth: nat)
    requires WellNested(syms) && (forall s :: s in syms ==> Contains(outer, s.range))
    requires Occurs(syms, t, depth)
    ensures Contains(outer, t.range) && Contains(t.range, t.selection)
    decreases depth
  {
    var i :| 0 <= i < |syms| &&
             if depth == 0 then syms[i] == t else Occurs(syms[i].children, t, depth - 1);
    assert syms[i] in syms;
    if depth > 0 {
      InsideAncestor(syms[i].children, syms[i].range, t, depth - 1);
    }
  }

  /** The position's top-level symbol is the only one any enclosing symbol can lie under. */
  lemma UnderFirst(syms: seq<Symbol>, p: Position, t: Symbol, depth: nat)
    requires syms != [] && WellNested(syms) && Occurs(syms, t, depth) && Encloses(t, p)
    ensures Encloses(syms[0], p) ==>
              if depth == 0 then syms[0] == t else Occurs(syms[0].children, t, depth - 1)
    ensures !Encloses(syms[0], p) ==> Occurs(syms[1..], t, depth)
  {
    var i :| 0 <= i < |syms| &&
             if depth == 0 then syms[i] == t else Occurs(syms[i].children, t, depth - 1);
    assert syms[i] in syms && syms[0] in syms;
    if depth > 0 {
      InsideAncestor(syms[i].children, syms[i].range, t, depth - 1);
    }
    assert PositionInRange(p, syms[i].range);
    if i > 0 {
      assert Apart(syms[0].range, syms[i].range);
      assert syms[1..][i - 1] == syms[i];
    }
  }

  /** On a well-nested forest the answer is the one deepest enclosing symbol: every enclosing
      symbol is at most as deep, contains the answer, and is the answer if it is as deep. */
  lemma {:induction false} FindsDeepest(syms: seq<Symbol>, p: Position, t: Symbol, depth: nat) returns (found: nat)
    requires WellNested(syms) && Occurs(syms, t, depth) && Encloses(t, p)
    ensures var r := FindEnclosing(syms, p);
            && r.Some? && Occurs(syms, r.value, found) && depth <= found
            && Contains(t.range, r.value.range)
            && (depth == found ==> t == r.value)
    decreases syms
  {
    UnderFirst(syms, p, t, depth);
    assert syms[0] in syms;
    if !Encloses(syms[0], p) {
      RestWellNested(syms);
      found := FindsDeepest(syms[1..], p, t, depth);
      OccursInLonger(syms, FindEnclosing(syms, p).value, found);
    } else if depth == 0 {
      found := FirstContainsAnswer(syms, p);
    } else {
      var below := FindsDeepest(syms[0].children, p, t, depth - 1);
      found := below + 1;
      assert Occurs(syms, FindEnclosing(syms, p).value, found);
    }
  }

  lemma FirstContainsAnswer(syms: seq<Symbol>, p: Position) returns (found: nat)
    requires syms != [] && WellNested(syms) && Encloses(syms[0], p)
    ensures var r := FindEnclosing(syms, p);
            && r.Some? && Occurs(syms, r.value, found) && Contains(syms[0].range, r.value.range)
            && (found == 0 ==> r.value == syms[0])
  {
    var first := syms[0];
    assert first in syms;
    FindsInnermost(first.children, p);
    var deeper := FindEnclosing(first.children, p);
    if deeper.Some? {
      var below: nat :| Occurs(first.children, deeper.value, below);
      InsideAncestor(first.children, first.range, deeper.value, below);
      found := below + 1;
      assert Occurs(syms, deeper.value, found);
    } else {
      found := 0;
      assert Occurs(syms, first, 0);
    }
  }

  lemma RestWellNested(syms: seq<Symbol>)
    requires syms != [] && WellNested(syms)
    ensures WellNested(syms[1..])
  {
    assert forall s :: s in syms[1..] ==> s in syms;
  }
}
