/** What a successful match reports: the nodes it covers, which the instruction replaces, and
    what its operands have bound. */
module PatternResult {
  import opened Sequences
  import opened Wrappers
  import opened PatternTape
  import opened PatternMatch

  // The places of the groups that the visits enter
  function Entered(visits: seq<Visit>): seq<Path> {
    if visits == [] then [] else EnteredAt(visits[0]) + Entered(visits[1..])
  }

  function EnteredAt(v: Visit): seq<Path> {
    if v.op.Push? then [v.path + [v.idx]] else []
  }

  ghost predicate AreAt(root: Dag, places: seq<Path>, nodes: seq<Dag>) {
    |nodes| == |places| && forall k :: 0 <= k < |places| ==> NodeAt(root, places[k]) == Some(nodes[k])
  }

  lemma AreAtConcat(root: Dag, p: seq<Path>, a: seq<Dag>, q: seq<Path>, b: seq<Dag>)
    requires AreAt(root, p, a) && AreAt(root, q, b)
    ensures AreAt(root, p + q, a + b)
  {
    forall k | 0 <= k < |p + q|
      ensures NodeAt(root, (p + q)[k]) == Some((a + b)[k])
    {
      if k >= |p| {
        assert (p + q)[k] == q[k - |p|] && (a + b)[k] == b[k - |p|];
      }
    }
  }

  // One visit covers the node of the group it enters, or nothing
  lemma VisitCovers<S>(accepts: Accepts<S>, root: Dag, v: Visit, m: Matched<S>) returns (nodes: seq<Dag>)
    requires CheckVisit(accepts, root, v, m).Some?
    ensures AreAt(root, EnteredAt(v), nodes) && CheckVisit(accepts, root, v, m).value.covered == m.covered + nodes
  {
    if v.op.Push? {
      NodeAtNext(root, v.path, v.idx);
      nodes := [NodeAt(root, v.path).value.kids[v.idx]];
    } else {
      nodes := [];
      assert m.covered + [] == m.covered;
    }
  }

  /** A match covers, besides what was covered before, exactly the nodes at the places of the
      groups it enters, in their order. */
  lemma {:induction false} CoversGroups<S>(accepts: Accepts<S>, root: Dag, visits: seq<Visit>, m: Matched<S>)
    returns (nodes: seq<Dag>)
    requires CheckAll(accepts, root, visits, m).Some?
    ensures AreAt(root, Entered(visits), nodes)
    ensures CheckAll(accepts, root, visits, m).value.covered == m.covered + nodes
    decreases |visits|
  {
    if visits == [] {
      nodes := [];
      assert m.covered + [] == m.covered;
    } else {
      var first := VisitCovers(accepts, root, visits[0], m);
      var rest := CoversGroups(accepts, root, visits[1..], CheckVisit(accepts, root, visits[0], m).value);
      nodes := first + rest;
      AreAtConcat(root, EnteredAt(visits[0]), first, Entered(visits[1..]), rest);
      Regroup(m.covered, first, rest);
    }
  }

  // An operand of the definition, and the place of the node it is checked at
  datatype Ask = Ask(index: nat, place: Path)

  function Asked(visits: seq<Visit>): seq<Ask> {
    if visits == [] then [] else AskedAt(visits[0]) + Asked(visits[1..])
  }

  function AskedAt(v: Visit): seq<Ask> {
    match v.op
    case Do(OperandType(index)) => [Ask(index, v.path + [v.idx])]
    case _ => []
  }

  // The node that is asked for accepts the operand and so binds `after`
  ghost predicate Binds<S>(accepts: Accepts<S>, root: Dag, ask: Ask, before: S, after: S) {
    NodeAt(root, ask.place).Some? && accepts(before, ask.index, NodeAt(root, ask.place).value) == Some(after)
  }

  // One operand after the other, each with what those before it have bound
  ghost predicate BoundInTurn<S>(accepts: Accepts<S>, root: Dag, asked: seq<Ask>, states: seq<S>) {
    |states| == |asked| + 1 && forall k :: 0 <= k < |asked| ==> Binds(accepts, root, asked[k], states[k], states[k + 1])
  }

  lemma BindsFirst<S>(accepts: Accepts<S>, root: Dag, ask: Ask, before: S, asked: seq<Ask>, states: seq<S>)
    requires BoundInTurn(accepts, root, asked, states) && Binds(accepts, root, ask, before, states[0])
    ensures BoundInTurn(accepts, root, [ask] + asked, [before] + states)
  {
    var all, after := [ask] + asked, [before] + states;
    forall k | 0 <= k < |all|
      ensures Binds(accepts, root, all[k], after[k], after[k + 1])
    {
      if k > 0 {
        assert all[k] == asked[k - 1] && after[k] == states[k - 1] && after[k + 1] == states[k];
      }
    }
  }

  // One visit binds what its operand binds, or nothing
  lemma VisitBinds<S>(accepts: Accepts<S>, root: Dag, v: Visit, m: Matched<S>)
    requires CheckVisit(accepts, root, v, m).Some?
    ensures AskedAt(v) == [] ==> CheckVisit(accepts, root, v, m).value.bound == m.bound
    ensures AskedAt(v) != [] ==>
              && |AskedAt(v)| == 1
              && Binds(accepts, root, AskedAt(v)[0], m.bound, CheckVisit(accepts, root, v, m).value.bound)
  {
    if v.op.Do? && v.op.check.OperandType? {
      NodeAtNext(root, v.path, v.idx);
    }
  }

  /** A match binds what its operands bind, one after the other, at the places it visits. */
  lemma {:induction false} BindsOperands<S>(accepts: Accepts<S>, root: Dag, visits: seq<Visit>, m: Matched<S>)
    returns (states: seq<S>)
    requires CheckAll(accepts, root, visits, m).Some?
    ensures BoundInTurn(accepts, root, Asked(visits), states)
    ensures states[0] == m.bound && states[|states| - 1] == CheckAll(accepts, root, visits, m).value.bound
    decreases |visits|
  {
    if visits == [] {
      states := [m.bound];
    } else {
      var ask, next := AskedAt(visits[0]), CheckVisit(accepts, root, visits[0], m).value;
      var rest := BindsOperands(accepts, root, visits[1..], next);
      VisitBinds(accepts, root, visits[0], m);
      if ask == [] {
        states := rest;
        assert [] + Asked(visits[1..]) == Asked(visits[1..]);
      } else {
        states := [m.bound] + rest;
        BindsFirst(accepts, root, ask[0], m.bound, Asked(visits[1..]), rest);
        assert ask == [ask[0]];
      }
    }
  }
}
