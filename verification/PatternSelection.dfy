/** Selecting an instruction for a node: only the definitions kept for the node's kind are
    tried, in their order, and the first pattern that matches is taken. */
module PatternSelection {
  import opened Wrappers
  import opened PatternTape
  import opened PatternMatch
  import opened PatternAgreement
  import opened PatternProvider

  /* ---------------------------------------------------------------------- */
  // Definitions and the kinds of the nodes they match
  /* ---------------------------------------------------------------------- */

  // The node itself is asked for its kind
  predicate Asks(items: seq<Item>) {
    items != [] && ((items[0].Leaf? && items[0].check.NodeType?) || Asks(items[1..]))
  }

  // Every pattern that can match asks for the kind the definition is filed under
  predicate FiledRight(d: Definition) {
    forall i :: 0 <= i < |d.patterns| ==> AsksForKind(Norm(d.patterns[i]), DagKind(d))
  }

  predicate AsksForKind(items: seq<Item>, kind: Half) {
    Coherent(items, KindOf(items)) ==> Asks(items) && KindOf(items) == kind
  }

  // Whatever node the matcher accepts for a pattern of the definition has that kind
  ghost predicate OnlyItsKind(d: Definition) {
    forall i | 0 <= i < |d.patterns| :: OnlyKind(d.patterns[i], DagKind(d))
  }

  ghost predicate OnlyKind(t: Pattern, kind: Half) {
    forall accepts: Accepts<Log>, root: Dag, m: Matched<Log> ::
      CheckAll(accepts, root, Visits(START, Tape(t)), m).Some? ==> root.kind == kind
  }

  lemma {:induction false} AskedKind(items: seq<Item>, kind: Half)
    requires Coherent(items, kind) && Asks(items)
    ensures KindOf(items) == kind
  {
    if !(items[0].Leaf? && items[0].check.NodeType?) {
      AskedKind(items[1..], kind);
    }
  }

  // A pattern that does not ask for the kind of the node does not depend on it
  lemma {:induction false} UnaskedKind<S>(
      accepts: Accepts<S>, items: seq<Item>, node: Dag, kind: Half, idx: nat, m: Matched<S>)
    requires !Asks(items)
    ensures Match(accepts, items, node.(kind := kind), idx, m) == Match(accepts, items, node, idx, m)
    decreases |items|
  {
    if items != [] && idx < |node.kids| {
      match items[0]
      case Leaf(OperandType(index)) =>
        var bound := accepts(m.bound, index, node.kids[idx]);
        if bound.Some? {
          UnaskedKind(accepts, items[1..], node, kind, idx + 1, m.(bound := bound.value));
        }
      case Nested(inner) =>
        var child := node.kids[idx];
        var next := Match(accepts, inner, child, 0, m.(covered := m.covered + [child]));
        if next.Some? {
          UnaskedKind(accepts, items[1..], node, kind, idx + 1, next.value);
        }
    }
  }

  // What the matcher accepts for such a pattern has the kind
  lemma AcceptedHasKind<S>(accepts: Accepts<S>, t: Pattern, root: Dag, m: Matched<S>, kind: Half)
    requires AsksForKind(Norm(t), kind) && CheckAll(accepts, root, Visits(START, Tape(t)), m).Some?
    ensures root.kind == kind
  {
    var items := Norm(t);
    TapeIsFlat(t);
    VisitsAreActual(items);
    AcceptedIsCoherent(accepts, root, 0, [], 0, items, root, m);
    CoherentKind(items, root.kind);
    AskedKind(items, root.kind);
  }

  // Otherwise it accepts a node of another kind
  lemma AcceptsAnotherKind(t: Pattern, kind: Half)
    requires Aligned(0, 0, Norm(t)) && !AsksForKind(Norm(t), kind)
    ensures !OnlyKind(t, kind)
  {
    var items := Norm(t);
    MatchableIff(items);
    var accepts: Accepts<Log>, root: Dag, m: Matched<Log> :| Match(accepts, items, root, 0, m).Some?;
    var other: Dag := root;
    if Asks(items) {
      MatchIsCoherent(accepts, items, root, 0, m);
      AskedKind(items, root.kind);
    } else {
      other := root.(kind := if kind == 0 then 1 else 0);
      UnaskedKind(accepts, items, root, other.kind, 0, m);
    }
    AlignedIsMatched(accepts, other, t, m);
    assert CheckAll(accepts, other, Visits(START, Tape(t)), m).Some? && other.kind != kind;
  }

  /** The matcher accepts, for the patterns of a definition, only nodes of the kind that the
      definition is filed under, exactly when each pattern asks for this kind or is one that
      never matches. */
  lemma OnlyItsKindIff(d: Definition)
    requires forall i :: 0 <= i < |d.patterns| ==> Aligned(0, 0, Norm(d.patterns[i]))
    ensures OnlyItsKind(d) <==> FiledRight(d)
  {
    forall i | 0 <= i < |d.patterns|
      ensures OnlyKind(d.patterns[i], DagKind(d)) <==> AsksForKind(Norm(d.patterns[i]), DagKind(d))
    {
      OnlyKindIff(d.patterns[i], DagKind(d));
    }
  }

  lemma OnlyKindIff(t: Pattern, kind: Half)
    requires Aligned(0, 0, Norm(t))
    ensures OnlyKind(t, kind) <==> AsksForKind(Norm(t), kind)
  {
    if AsksForKind(Norm(t), kind) {
      forall accepts: Accepts<Log>, root: Dag, m: Matched<Log> |
          CheckAll(accepts, root, Visits(START, Tape(t)), m).Some?
        ensures root.kind == kind
      {
        AcceptedHasKind(accepts, t, root, m, kind);
      }
    } else {
      AcceptsAnotherKind(t, kind);
    }
  }

  // The pattern is written with this kind in front, as are all of the x86 target
  predicate LeadsWith(t: Pattern, kind: Half) {
    t.Group? && t.children != [] && t.children[0] == Single(NodeType(kind))
  }

  lemma LeadIsFirst(t: Pattern, kind: Half)
    requires LeadsWith(t, kind)
    ensures Tape(t) != [] && Tape(t)[0] == Do(NodeType(kind))
    ensures Norm(t) != [] && Norm(t)[0] == Leaf(NodeType(kind))
  {
    assert Wrap(Tape(t.children[0])) == [Do(NodeType(kind))];
    assert Nest(Norm(t.children[0])) == [Leaf(NodeType(kind))];
  }

  /** A definition whose patterns all start with one kind is filed under it, and rightly. */
  lemma LeadingKindIsFiledRight(d: Definition, kind: Half)
    requires d.patterns != [] && forall i :: 0 <= i < |d.patterns| ==> LeadsWith(d.patterns[i], kind)
    ensures DagKind(d) == kind && FiledRight(d)
  {
    forall i | 0 <= i < |d.patterns|
      ensures Tape(d.patterns[i]) != [] && Tape(d.patterns[i])[0] == Do(NodeType(kind))
      ensures Norm(d.patterns[i]) != [] && Norm(d.patterns[i])[0] == Leaf(NodeType(kind))
    {
      LeadIsFirst(d.patterns[i], kind);
    }
  }

  /** The definitions of the x86 target are built like this: a pattern for some kind, and
      for a commuting operation a second one for the same kind. */
  lemma TargetDefinitionIsFiledRight(d: Definition, kind: Half, t: Pattern, u: Pattern, commutes: bool)
    requires d.patterns == [] && LeadsWith(t, kind) && LeadsWith(u, kind)
    ensures var e := AddPattern(AddPattern(d, t), if commutes then u else Empty);
            && DagKind(e) == kind && FiledRight(e)
            && e.patterns == if commutes then [t, u] else [t]
  {
    LeadIsFirst(t, kind);
    LeadIsFirst(u, kind);
    var e := AddPattern(AddPattern(d, t), if commutes then u else Empty);
    assert e.patterns == if commutes then [t, u] else [t];
    LeadingKindIsFiledRight(e, kind);
  }

  lemma KindOfLead(items: seq<Item>, kind: Half)
    requires items != [] && items[0] == Leaf(NodeType(kind))
    ensures Asks(items) && KindOf(items) == kind
  {
  }

  /** With patterns for two kinds, the nodes of the second kind are never looked up here. */
  lemma SecondKindIsMissed(d: Definition, a: Half, b: Half)
    requires d.patterns == [] && a != b
    ensures var t := Group([Single(NodeType(a)), Single(OperandType(0))]);
            var u := Group([Single(NodeType(b)), Single(OperandType(0))]);
            var e := AddPattern(AddPattern(d, t), u);
            e.patterns == [t, u] && DagKind(e) == a && !OnlyItsKind(e)
  {
    var A, B, X := Leaf(NodeType(a)), Leaf(NodeType(b)), Leaf(OperandType(0));
    var t := Group([Single(NodeType(a)), Single(OperandType(0))]);
    var u := Group([Single(NodeType(b)), Single(OperandType(0))]);
    var e := AddPattern(AddPattern(d, t), u);
    NormOfTwo(Single(NodeType(a)), Single(OperandType(0)), A, X);
    NormOfTwo(Single(NodeType(b)), Single(OperandType(0)), B, X);
    AlignedOfTwo(0, A, X);
    AlignedOfTwo(0, B, X);
    LeadIsFirst(t, a);
    LeadIsFirst(u, b);
    assert e.patterns == [t, u];
    assert [B, X][1..] == [X] && [X][1..] == [];
    KindOfLead([B, X], b);
    assert Coherent([B, X], b);
    assert e.patterns[1] == u;
    OnlyItsKindIff(e);
  }

  /* ---------------------------------------------------------------------- */
  // Selecting a definition
  /* ---------------------------------------------------------------------- */

  /** A node, and how it is checked: by the operands of each definition, with nothing bound
      at first, and by register classes. */
  datatype Query<!S> = Query(
    accepts: Definition -> Accepts<S>,
    unbound: Definition -> S,
    holds: (nat, nat) -> bool,
    root: Dag,
    bits: nat)

  predicate MatchedBy<S>(q: Query<S>, d: Definition, t: Pattern) {
    && OutputFits(q.holds, d.outputs, q.bits)
    && CheckAll(q.accepts(d), q.root, Visits(START, Tape(t)), Matched(q.unbound(d), [q.root])).Some?
  }

  predicate Fits<S>(q: Query<S>, d: Definition) {
    exists i :: 0 <= i < |d.patterns| && MatchedBy(q, d, d.patterns[i])
  }

  // The first pattern of a definition that matches
  method FirstPattern<S>(q: Query<S>, d: Definition) returns (found: Option<nat>)
    requires |d.outputs| <= 1
    ensures found.Some? <==> Fits(q, d)
    ensures found.Some? ==>
              && found.value < |d.patterns| && MatchedBy(q, d, d.patterns[found.value])
              && forall j :: 0 <= j < found.value ==> !MatchedBy(q, d, d.patterns[j])
  {
    for i := 0 to |d.patterns|
      invariant forall j :: 0 <= j < i ==> !MatchedBy(q, d, d.patterns[j])
    {
      DecodeTape(d.patterns[i]);
      var result := MatchesDefinition(
        q.accepts(d), q.holds, d.outputs, Tape(d.patterns[i]), q.root, q.bits, q.unbound(d));
      if result.Some? {
        return Some(i);
      }
    }
    return None;
  }

  // The first definition of a list that matches, and its first pattern that does
  method FirstDefinition<S>(q: Query<S>, list: seq<Definition>) returns (found: Option<(nat, nat)>)
    requires forall k :: 0 <= k < |list| ==> |list[k].outputs| <= 1
    ensures found.None? ==> forall k :: 0 <= k < |list| ==> !Fits(q, list[k])
    ensures found.Some? ==>
              var (k, i) := found.value;
              && k < |list| && i < |list[k].patterns| && MatchedBy(q, list[k], list[k].patterns[i])
              && (forall j :: 0 <= j < i ==> !MatchedBy(q, list[k], list[k].patterns[j]))
              && (forall j :: 0 <= j < k ==> !Fits(q, list[j]))
  {
    for k := 0 to |list|
      invariant forall j :: 0 <= j < k ==> !Fits(q, list[j])
    {
      var i := FirstPattern(q, list[k]);
      if i.Some? {
        return Some((k, i.value));
      }
    }
    return None;
  }

  // No definition that would match the node comes before this one
  ghost predicate Best<S>(q: Query<S>, defs: seq<Definition>, d: Definition) {
    d in defs && Fits(q, d) && forall e :: e in defs && Fits(q, e) ==> !Before(e, d)
  }

  lemma FittingIsOfKind<S>(q: Query<S>, d: Definition)
    requires FiledRight(d) && Fits(q, d)
    ensures DagKind(d) == q.root.kind
  {
    var i :| 0 <= i < |d.patterns| && MatchedBy(q, d, d.patterns[i]);
    AcceptedHasKind(q.accepts(d), d.patterns[i], q.root, Matched(q.unbound(d), [q.root]), DagKind(d));
  }

  lemma FittingIsListed<S>(q: Query<S>, defs: seq<Definition>, list: seq<Definition>, d: Definition)
    requires IsListFor(list, defs, q.root.kind) && FiledRight(d) && Fits(q, d) && d in defs
    ensures d in list
  {
    FittingIsOfKind(q, d);
    ListIsOfKind(defs, q.root.kind, list, d);
  }

  lemma FirstIsBest<S>(q: Query<S>, defs: seq<Definition>, list: seq<Definition>, k: nat)
    requires forall d :: d in defs ==> FiledRight(d)
    requires IsListFor(list, defs, q.root.kind) && k < |list| && Fits(q, list[k])
    requires forall j :: 0 <= j < k ==> !Fits(q, list[j])
    ensures Best(q, defs, list[k])
  {
    ListIsOfKind(defs, q.root.kind, list, list[k]);
    forall e | e in defs && Fits(q, e)
      ensures !Before(e, list[k])
    {
      FittingIsListed(q, defs, list, e);
      var j :| 0 <= j < |list| && list[j] == e;
      ComparesStrictly(e, e, e);
    }
  }

  /** With all definitions filed right, selection finds a definition exactly when one of the
      target's definitions matches the node, and then one that no other matching definition
      comes before, with its first pattern that matches. */
  method Select<S>(provider: PatternProvider, q: Query<S>, ghost defs: seq<Definition>)
    returns (chosen: Option<(Definition, nat)>)
    requires q.root.kind < provider.patterns.Length
    requires IsListFor(provider.PatternsFor(q.root.kind), defs, q.root.kind)
    requires forall d :: d in defs ==> FiledRight(d) && |d.outputs| <= 1
    ensures chosen.Some? <==> exists d :: d in defs && Fits(q, d)
    ensures chosen.Some? ==>
              var (d, i) := chosen.value;
              && Best(q, defs, d) && i < |d.patterns| && MatchedBy(q, d, d.patterns[i])
              && forall j :: 0 <= j < i ==> !MatchedBy(q, d, d.patterns[j])
    ensures chosen.Some? ==>
              forall e :: e in defs && Fits(q, e) ==>
                && |e.inputs| <= |chosen.value.0.inputs|
                && (|e.inputs| == |chosen.value.0.inputs| ==>
                      multiset(chosen.value.0.inputs)[Register] <= multiset(e.inputs)[Register])
    ensures chosen.Some? ==>
              var outputs := chosen.value.0.outputs;
              if outputs == [] then q.bits == 0
              else outputs[0].RegisterOutput? ==> q.holds(outputs[0].registerClass, q.bits)
    ensures chosen.Some? ==>
              var (d, i) := chosen.value;
              CheckAll(q.accepts(d), q.root, Visits(START, Tape(d.patterns[i])), Matched(q.unbound(d), [q.root])).Some?
  {
    var list := provider.PatternsFor(q.root.kind);
    forall k | 0 <= k < |list|
      ensures list[k] in defs
    {
      ListIsOfKind(defs, q.root.kind, list, list[k]);
    }
    var found := FirstDefinition(q, list);
    if found.None? {
      forall d | d in defs
        ensures !Fits(q, d)
      {
        if Fits(q, d) {
          FittingIsListed(q, defs, list, d);
        }
      }
      return None;
    }
    FirstIsBest(q, defs, list, found.value.0);
    forall e | e in defs && Fits(q, e) {
      BeforeMeans(e, list[found.value.0]);
    }
    return Some((list[found.value.0], found.value.1));
  }
}
