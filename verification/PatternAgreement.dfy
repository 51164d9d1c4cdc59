/** For which patterns the matcher and the pattern's meaning agree on every node, whatever
    the checks of the operands are. */
module PatternAgreement {
  import opened Wrappers
  import opened PatternTape
  import opened PatternMatch

  // What checks remember here: one entry for each operand bound
  type Log = seq<nat>

  // The matcher gives the result that the pattern asks for, on every node
  ghost predicate Agrees(items: seq<Item>) {
    forall accepts: Accepts<Log>, root: Dag, m: Matched<Log> ::
      CheckAll(accepts, root, Visits(START, Flat(items)), m) == Match(accepts, items, root, 0, m)
  }

  // Some node matches the pattern
  ghost predicate Matchable(items: seq<Item>) {
    exists accepts: Accepts<Log>, root: Dag, m: Matched<Log> :: Match(accepts, items, root, 0, m).Some?
  }

  /* ---------------------------------------------------------------------- */
  // Where the visits of the matcher first differ
  /* ---------------------------------------------------------------------- */

  // A visit whose child shows in the result
  predicate Recorded(op: Operand) {
    op.Push? || (op.Do? && op.check.OperandType?)
  }

  // Visits that can differ only in how many children they ask for
  predicate Similar(v: Visit, w: Visit) {
    v.op == w.op && v.path == w.path && (Recorded(v.op) ==> v.idx == w.idx)
  }

  predicate AllSimilar(a: seq<Visit>, b: seq<Visit>) {
    |a| == |b| && forall i :: 0 <= i < |a| ==> Similar(a[i], b[i])
  }

  // Visit `k` is the first that records a different child
  predicate Diverges(a: seq<Visit>, b: seq<Visit>, k: nat) {
    && k < |a| == |b| && AllSimilar(a[..k], b[..k])
    && a[k].op == b[k].op && Recorded(a[k].op) && a[k].path == b[k].path && a[k].idx != b[k].idx
  }

  predicate DivergesOrSimilar(a: seq<Visit>, b: seq<Visit>, k: nat) {
    |a| == |b| && if k == |a| then AllSimilar(a, b) else Diverges(a, b, k)
  }

  lemma DivergeFirst(a: seq<Visit>, b: seq<Visit>, k: nat, c: seq<Visit>, d: seq<Visit>)
    requires Diverges(a, b, k) && |c| == |d|
    ensures Diverges(a + c, b + d, k)
  {
    assert (a + c)[..k] == a[..k] && (b + d)[..k] == b[..k];
  }

  lemma DivergeSecond(a: seq<Visit>, b: seq<Visit>, c: seq<Visit>, d: seq<Visit>, k: nat)
    requires AllSimilar(a, b) && DivergesOrSimilar(c, d, k)
    ensures DivergesOrSimilar(a + c, b + d, |a| + k)
  {
    if k < |c| {
      assert (a + c)[..|a| + k] == a + c[..k] && (b + d)[..|a| + k] == b + d[..k];
    }
  }

  function AimItem(path: Path, idx: nat, item: Item): seq<Visit> {
    match item
    case Leaf(check) => [Visit(path, idx, Do(check))]
    case Nested(inner) => [Visit(path, idx, Push)] + Aim(path + [idx], 0, inner)
  }

  lemma AimNext(path: Path, idx: nat, items: seq<Item>)
    requires items != []
    ensures Aim(path, idx, items) == AimItem(path, idx, items[0]) + Aim(path, Shift(idx, items[0]), items[1..])
  {
  }

  lemma {:induction false} FirstDifference(own: nat, path: Path, idx: nat, items: seq<Item>) returns (k: nat)
    ensures DivergesOrSimilar(Actual(own, path, idx, items), Aim(path, idx, items), k)
    decreases items, 1
  {
    if items == [] {
      k := 0;
    } else {
      var a, b := ActualItem(path, idx, items[0]), AimItem(path, idx, items[0]);
      var c := Actual(own, path, Next(own, idx, items[0]), items[1..]);
      var d := Aim(path, Shift(idx, items[0]), items[1..]);
      ActualCount(own, path, Next(own, idx, items[0]), items[1..]);
      AimCount(path, Shift(idx, items[0]), items[1..]);
      AimNext(path, idx, items);
      k := FirstInItem(path, idx, items[0]);
      if k < |a| {
        DivergeFirst(a, b, k, c, d);
      } else {
        var j := FirstInRest(own, path, Next(own, idx, items[0]), Shift(idx, items[0]), items[1..]);
        DivergeSecond(a, b, c, d, j);
        k := |a| + j;
      }
    }
  }

  lemma {:induction false} FirstInItem(path: Path, idx: nat, item: Item) returns (k: nat)
    ensures DivergesOrSimilar(ActualItem(path, idx, item), AimItem(path, idx, item), k)
    decreases item, 2
  {
    match item
    case Leaf(check) => k := 1;
    case Nested(inner) =>
      var j := FirstDifference(idx, path + [idx], 0, inner);
      var v := [Visit(path, idx, Push)];
      DivergeSecond(v, v, Actual(idx, path + [idx], 0, inner), Aim(path + [idx], 0, inner), j);
      k := 1 + j;
  }

  // The rest of a group, at one position or at another
  lemma {:induction false} FirstInRest(own: nat, path: Path, i: nat, j: nat, rest: seq<Item>) returns (k: nat)
    ensures DivergesOrSimilar(Actual(own, path, i, rest), Aim(path, j, rest), k)
    decreases rest, 2
  {
    if i == j {
      k := FirstDifference(own, path, i, rest);
    } else if rest == [] {
      k := 0;
    } else {
      ActualCount(own, path, i, rest);
      AimCount(path, j, rest);
      AimNext(path, j, rest);
      if rest[0].Leaf? && rest[0].check.NodeType? {
        var l := FirstInRest(own, path, i, j, rest[1..]);
        var v, w := [Visit(path, i, Do(rest[0].check))], [Visit(path, j, Do(rest[0].check))];
        DivergeSecond(v, w, Actual(own, path, i, rest[1..]), Aim(path, j, rest[1..]), l);
        k := 1 + l;
      } else {
        k := 0;
      }
    }
  }

  /* ---------------------------------------------------------------------- */
  // Visits that differ only in how many children they ask for
  /* ---------------------------------------------------------------------- */

  function Max(a: nat, b: nat): nat {
    if a >= b then a else b
  }

  // How many children some visits ask of the node at a path
  function Asks(visits: seq<Visit>, path: Path): nat {
    if visits == [] then 0
    else Max(if visits[0].path == path then visits[0].idx + 1 else 0, Asks(visits[1..], path))
  }

  lemma {:induction false} AsksConcat(a: seq<Visit>, b: seq<Visit>, path: Path)
    ensures Asks(a + b, path) == Max(Asks(a, path), Asks(b, path))
    decreases |a|
  {
    if a == [] {
      assert a + b == b;
    } else {
      assert (a + b)[1..] == a[1..] + b;
      AsksConcat(a[1..], b, path);
    }
  }

  lemma {:induction false} AsksOfOthers(visits: seq<Visit>, path: Path)
    ensures Asks(visits, path) == 0 <==> forall i :: 0 <= i < |visits| ==> visits[i].path != path
  {
    if visits != [] {
      AsksOfOthers(visits[1..], path);
      assert visits == [visits[0]] + visits[1..];
    }
  }

  lemma {:induction false} AsksBound(visits: seq<Visit>, path: Path)
    ensures forall i :: 0 <= i < |visits| && visits[i].path == path ==> visits[i].idx < Asks(visits, path)
    ensures Asks(visits, path) > 0 ==>
              exists i :: 0 <= i < |visits| && visits[i].path == path && visits[i].idx + 1 == Asks(visits, path)
  {
    if visits != [] {
      AsksBound(visits[1..], path);
      assert visits == [visits[0]] + visits[1..];
      if Asks(visits[1..], path) > 0 {
        var i :| 0 <= i < |visits[1..]| && visits[1..][i].path == path
                 && visits[1..][i].idx + 1 == Asks(visits[1..], path);
        assert visits[i + 1] == visits[1..][i];
      }
    }
  }

  lemma SimilarAsksOfOthers(a: seq<Visit>, b: seq<Visit>, path: Path)
    requires AllSimilar(a, b) && Asks(b, path) == 0
    ensures Asks(a, path) == 0
  {
    AsksOfOthers(a, path);
    AsksOfOthers(b, path);
  }

  // A path below child `idx` or a later one of the node at `path`
  predicate Below(path: Path, idx: nat, p: Path) {
    |p| > |path| && p[..|path|] == path && p[|path|] >= idx
  }

  // What is below a child is below that child only
  lemma BelowChild(path: Path, idx: nat, p: Path)
    ensures path + [idx] != path
    ensures p == path + [idx] || Below(path + [idx], 0, p) ==> p != path && Below(path, idx, p) && p[|path|] == idx
  {
    var q := path + [idx];
    assert q[..|path|] == path && q[|path|] == idx;
    if Below(q, 0, p) {
      assert p[..|q|][..|path|] == p[..|path|] && p[..|q|][|path|] == p[|path|];
    }
  }

  lemma {:induction false} AimPaths(path: Path, idx: nat, items: seq<Item>, p: Path)
    requires p != path && !Below(path, idx, p)
    ensures Asks(Aim(path, idx, items), p) == 0
    decreases items
  {
    if items != [] {
      AimNext(path, idx, items);
      AsksConcat(AimItem(path, idx, items[0]), Aim(path, Shift(idx, items[0]), items[1..]), p);
      AimPaths(path, Shift(idx, items[0]), items[1..], p);
      assert [Visit(path, idx, Push)][1..] == [];
      if items[0].Nested? {
        var q := path + [idx];
        AsksConcat([Visit(path, idx, Push)], Aim(q, 0, items[0].items), p);
        BelowChild(path, idx, p);
        AimPaths(q, 0, items[0].items, p);
      } else {
        assert AimItem(path, idx, items[0])[1..] == [];
      }
    }
  }

  // Where rests at different positions are similar, they hold node types only
  lemma {:induction false} SimilarRest(own: nat, path: Path, i: nat, j: nat, rest: seq<Item>)
    requires i != j && AllSimilar(Actual(own, path, i, rest), Aim(path, j, rest))
    ensures Asks(Actual(own, path, i, rest), path) == if rest == [] then 0 else i + 1
    ensures Asks(Aim(path, j, rest), path) == if rest == [] then 0 else j + 1
    decreases rest
  {
    if rest != [] {
      var a, b := Actual(own, path, i, rest), Aim(path, j, rest);
      AimNext(path, j, rest);
      ActualCount(own, path, i, rest);
      AimCount(path, j, rest);
      assert Similar(a[0], b[0]) && !Recorded(a[0].op);
      assert a[0].op == if rest[0].Leaf? then Do(rest[0].check) else Push;
      assert rest[0].Leaf? && rest[0].check.NodeType?;
      var c, d := Actual(own, path, i, rest[1..]), Aim(path, j, rest[1..]);
      assert a == [a[0]] + c && b == [b[0]] + d;
      forall k | 0 <= k < |c|
        ensures Similar(c[k], d[k])
      {
        assert a[k + 1] == c[k] && b[k + 1] == d[k];
      }
      SimilarRest(own, path, i, j, rest[1..]);
    }
  }

  // Where all visits are similar but not the same, some node is asked for more children by
  // one side than by the other
  predicate AsksDiffer(a: seq<Visit>, b: seq<Visit>, path: Path, idx: nat, p: Path) {
    && Asks(a, p) != Asks(b, p) && (p == path || Below(path, idx, p))
    && (p == path ==> Asks(b, p) > idx && (Asks(b, p) > Asks(a, p) ==> Asks(b, p) > idx + 1))
  }

  lemma SplitSimilar(a: seq<Visit>, b: seq<Visit>, c: seq<Visit>, d: seq<Visit>)
    requires |a| == |b| && AllSimilar(a + c, b + d)
    ensures AllSimilar(a, b) && AllSimilar(c, d)
  {
    forall i | 0 <= i < |a|
      ensures Similar(a[i], b[i])
    {
      assert (a + c)[i] == a[i] && (b + d)[i] == b[i];
    }
    assert |c| == |d|;
    forall i | 0 <= i < |c|
      ensures Similar(c[i], d[i])
    {
      assert (a + c)[|a| + i] == c[i] && (b + d)[|a| + i] == d[i];
    }
  }

  lemma {:induction false} AskDifferently(own: nat, path: Path, idx: nat, items: seq<Item>) returns (p: Path)
    requires AllSimilar(Actual(own, path, idx, items), Aim(path, idx, items))
    requires Actual(own, path, idx, items) != Aim(path, idx, items)
    ensures AsksDiffer(Actual(own, path, idx, items), Aim(path, idx, items), path, idx, p)
    decreases items, 0
  {
    var item, rest := items[0], items[1..];
    var a, b := ActualItem(path, idx, item), AimItem(path, idx, item);
    var c, d := Actual(own, path, Next(own, idx, item), rest), Aim(path, Shift(idx, item), rest);
    AimNext(path, idx, items);
    ItemCount(path, idx, item);
    SplitSimilar(a, b, c, d);
    if a != b {
      p := AskDifferentlyInGroup(path, idx, item.items);
      AimPaths(path, idx + 1, rest, p);
      SimilarAsksOfOthers(c, d, p);
    } else {
      p := AskDifferentlyInRest(own, path, idx, item, rest);
      ItemAsks(path, idx, item, p);
    }
    AsksConcat(a, c, p);
    AsksConcat(b, d, p);
  }

  // Two requests to a node that differ even after a request for child `idx`
  predicate ApartAfter(a: nat, b: nat, idx: nat) {
    a != b && b > idx && Max(idx + 1, a) != b && (b > a ==> b > idx + 1)
  }

  lemma {:induction false} AskDifferentlyInRest(own: nat, path: Path, idx: nat, item: Item, rest: seq<Item>)
    returns (p: Path)
    requires AllSimilar(Actual(own, path, Next(own, idx, item), rest), Aim(path, Shift(idx, item), rest))
    requires Actual(own, path, Next(own, idx, item), rest) != Aim(path, Shift(idx, item), rest)
    ensures p == path || Below(path, Shift(idx, item), p)
    ensures var c, d := Actual(own, path, Next(own, idx, item), rest), Aim(path, Shift(idx, item), rest);
            Asks(c, p) != Asks(d, p) && (p == path ==> ApartAfter(Asks(c, p), Asks(d, p), idx))
    decreases rest, 1
  {
    var i, j := Next(own, idx, item), Shift(idx, item);
    if i == j {
      p := AskDifferently(own, path, j, rest);
    } else {
      p := path;
      SimilarRest(own, path, i, j, rest);
    }
  }

  lemma ItemCount(path: Path, idx: nat, item: Item)
    ensures |ActualItem(path, idx, item)| == |AimItem(path, idx, item)|
  {
    if item.Nested? {
      ActualCount(idx, path + [idx], 0, item.items);
      AimCount(path + [idx], 0, item.items);
    }
  }

  // An item asks its node for one child more than its position, and no later child for any
  lemma ItemAsks(path: Path, idx: nat, item: Item, p: Path)
    requires p == path || Below(path, Shift(idx, item), p)
    ensures Asks(AimItem(path, idx, item), p) == if p == path then idx + 1 else 0
  {
    var v := [Visit(path, idx, if item.Leaf? then Do(item.check) else Push)];
    assert v[1..] == [];
    if item.Nested? {
      var q := path + [idx];
      AsksConcat(v, Aim(q, 0, item.items), p);
      BelowChild(path, idx, p);
      AimPaths(q, 0, item.items, p);
    }
  }

  lemma {:induction false} AskDifferentlyInGroup(path: Path, idx: nat, inner: seq<Item>) returns (p: Path)
    requires AllSimilar(ActualItem(path, idx, Nested(inner)), AimItem(path, idx, Nested(inner)))
    requires ActualItem(path, idx, Nested(inner)) != AimItem(path, idx, Nested(inner))
    ensures p != path && Below(path, idx, p) && !Below(path, idx + 1, p)
    ensures Asks(ActualItem(path, idx, Nested(inner)), p) != Asks(AimItem(path, idx, Nested(inner)), p)
    decreases inner, 1
  {
    var q, v := path + [idx], [Visit(path, idx, Push)];
    var a, b := Actual(idx, q, 0, inner), Aim(q, 0, inner);
    ActualCount(idx, q, 0, inner);
    AimCount(q, 0, inner);
    SplitSimilar(v, v, a, b);
    p := AskDifferently(idx, q, 0, inner);
    BelowChild(path, idx, p);
    AsksConcat(v, a, p);
    AsksConcat(v, b, p);
    assert v[1..] == [];
  }

  /* ---------------------------------------------------------------------- */
  // Node kinds
  /* ---------------------------------------------------------------------- */

  // All node types of a group ask for one kind, in every group
  predicate Coherent(items: seq<Item>, kind: Half)
    decreases items
  {
    items == [] ||
    match items[0]
    case Leaf(NodeType(k)) => k == kind && Coherent(items[1..], kind)
    case Leaf(OperandType(_)) => Coherent(items[1..], kind)
    case Nested(inner) => Coherent(inner, KindOf(inner)) && Coherent(items[1..], kind)
  }

  // The kind a group asks for, if it asks
  function KindOf(items: seq<Item>): Half {
    if items == [] then 0
    else if items[0].Leaf? && items[0].check.NodeType? then items[0].check.kind
    else KindOf(items[1..])
  }

  lemma {:induction false} CoherentKind(items: seq<Item>, kind: Half)
    requires Coherent(items, kind)
    ensures Coherent(items, KindOf(items))
  {
    if items != [] {
      CoherentKind(items[1..], kind);
      if items[0].Leaf? && items[0].check.NodeType? {
        assert KindOf(items) == kind;
      }
    }
  }

  lemma {:induction false} MatchIsCoherent<S>(
      accepts: Accepts<S>, items: seq<Item>, node: Dag, idx: nat, m: Matched<S>)
    requires Match(accepts, items, node, idx, m).Some?
    ensures Coherent(items, node.kind)
    decreases items
  {
    if items != [] {
      match items[0]
      case Leaf(NodeType(kind)) => MatchIsCoherent(accepts, items[1..], node, idx, m);
      case Leaf(OperandType(index)) =>
        var bound := accepts(m.bound, index, node.kids[idx]).value;
        MatchIsCoherent(accepts, items[1..], node, idx + 1, m.(bound := bound));
      case Nested(inner) =>
        var child := node.kids[idx];
        var entered := m.(covered := m.covered + [child]);
        MatchIsCoherent(accepts, inner, child, 0, entered);
        CoherentKind(inner, child.kind);
        MatchIsCoherent(accepts, items[1..], node, idx + 1, Match(accepts, inner, child, 0, entered).value);
    }
  }

  // What the matcher accepts is coherent too: it never leaves a node before its group ends
  lemma {:induction false} AcceptedIsCoherent<S>(
      accepts: Accepts<S>, root: Dag, own: nat, path: Path, idx: nat, items: seq<Item>, node: Dag, m: Matched<S>)
    requires NodeAt(root, path) == Some(node)
    requires CheckAll(accepts, root, Actual(own, path, idx, items), m).Some?
    ensures Coherent(items, node.kind)
    decreases items
  {
    if items != [] {
      var a, rest := ActualItem(path, idx, items[0]), Actual(own, path, Next(own, idx, items[0]), items[1..]);
      CheckConcat(accepts, root, a, rest, m);
      var next := CheckAll(accepts, root, a, m).value;
      AcceptedIsCoherent(accepts, root, own, path, Next(own, idx, items[0]), items[1..], node, next);
      match items[0]
      case Leaf(check) =>
        CheckFirst(accepts, root, Visit(path, idx, Do(check)), [], m);
        assert [Visit(path, idx, Do(check))] + [] == [Visit(path, idx, Do(check))];
      case Nested(inner) =>
        var v := Visit(path, idx, Push);
        CheckFirst(accepts, root, v, Actual(idx, path + [idx], 0, inner), m);
        var entered := CheckVisit(accepts, root, v, m).value;
        NodeAtNext(root, path, idx);
        AcceptedIsCoherent(accepts, root, idx, path + [idx], 0, inner, node.kids[idx], entered);
        CoherentKind(inner, node.kids[idx].kind);
    }
  }

  /* ---------------------------------------------------------------------- */
  // A node that has room for a pattern
  /* ---------------------------------------------------------------------- */

  // The group at position `j` of a group that starts at `idx`
  function GroupAt(items: seq<Item>, idx: nat, j: nat): (group: Option<seq<Item>>)
    ensures group.Some? ==> (items decreases to group.value)
  {
    if items == [] then None
    else if items[0].Nested? && idx == j then Some(items[0].items)
    else GroupAt(items[1..], Shift(idx, items[0]), j)
  }

  // The node for a group: of its kind, with as many children as asked for, each of which
  // knows its position
  function Build(width: Path -> nat, path: Path, items: seq<Item>, id: nat): Dag
    decreases items, 1
  {
    Dag(KindOf(items), id, seq(width(path), j requires 0 <= j < width(path) =>
      BuildChild(width, path, items, j)))
  }

  function BuildChild(width: Path -> nat, path: Path, items: seq<Item>, j: nat): (child: Dag)
    ensures child.id == j
    decreases items, 0
  {
    match GroupAt(items, 0, j)
    case None => Dag(0, j, [])
    case Some(inner) => Build(width, path + [j], inner, j)
  }

  // The visited node is there, has the width for its path and the kind that is asked for,
  // and its children know their positions
  ghost predicate Placed(root: Dag, width: Path -> nat, v: Visit) {
    && NodeAt(root, v.path).Some?
    && var node := NodeAt(root, v.path).value;
       && |node.kids| == width(v.path) && (forall j :: 0 <= j < |node.kids| ==> node.kids[j].id == j)
       && (v.op.Do? && v.op.check.NodeType? ==> node.kind == v.op.check.kind)
  }

  ghost predicate AllPlaced(root: Dag, width: Path -> nat, visits: seq<Visit>) {
    forall i :: 0 <= i < |visits| ==> Placed(root, width, visits[i])
  }

  // The children that are recorded exist
  ghost predicate RecordedFit(width: Path -> nat, visits: seq<Visit>) {
    forall i :: 0 <= i < |visits| && Recorded(visits[i].op) ==> visits[i].idx < width(visits[i].path)
  }

  ghost predicate AllFit(width: Path -> nat, visits: seq<Visit>) {
    forall i :: 0 <= i < |visits| ==> visits[i].idx < width(visits[i].path)
  }

  lemma PlacedConcat(root: Dag, width: Path -> nat, a: seq<Visit>, b: seq<Visit>)
    requires AllPlaced(root, width, a) && AllPlaced(root, width, b)
    ensures AllPlaced(root, width, a + b)
  {
  }

  lemma RecordedFitParts(width: Path -> nat, a: seq<Visit>, b: seq<Visit>)
    requires RecordedFit(width, a + b)
    ensures RecordedFit(width, a) && RecordedFit(width, b)
  {
    assert forall i :: 0 <= i < |a| ==> (a + b)[i] == a[i];
    assert forall i :: 0 <= i < |b| ==> (a + b)[|a| + i] == b[i];
  }

  // A node for the rest of a group from position `idx` on
  ghost predicate HasRoom(node: Dag, width: Path -> nat, path: Path, idx: nat, rest: seq<Item>) {
    && |node.kids| == width(path) && (forall j :: 0 <= j < |node.kids| ==> node.kids[j].id == j)
    && Coherent(rest, node.kind)
    && forall j :: idx <= j < |node.kids| && GroupAt(rest, idx, j).Some? ==>
         node.kids[j] == Build(width, path + [j], GroupAt(rest, idx, j).value, j)
  }

  lemma BuiltHasRoom(width: Path -> nat, path: Path, items: seq<Item>, id: nat)
    requires Coherent(items, KindOf(items))
    ensures HasRoom(Build(width, path, items, id), width, path, 0, items)
  {
  }

  lemma {:induction false} VisitsArePlaced(
      root: Dag, width: Path -> nat, path: Path, idx: nat, rest: seq<Item>, node: Dag)
    requires NodeAt(root, path) == Some(node) && HasRoom(node, width, path, idx, rest)
    requires RecordedFit(width, Aim(path, idx, rest))
    ensures AllPlaced(root, width, Aim(path, idx, rest))
    decreases rest
  {
    if rest != [] {
      var a, b := AimItem(path, idx, rest[0]), Aim(path, Shift(idx, rest[0]), rest[1..]);
      AimNext(path, idx, rest);
      RecordedFitParts(width, a, b);
      VisitsArePlaced(root, width, path, Shift(idx, rest[0]), rest[1..], node);
      if rest[0].Nested? {
        var inner, q := rest[0].items, path + [idx];
        var v := [Visit(path, idx, Push)];
        RecordedFitParts(width, v, Aim(q, 0, inner));
        assert Recorded(v[0].op) && idx < width(path);
        NodeAtNext(root, path, idx);
        assert GroupAt(rest, idx, idx) == Some(inner);
        BuiltHasRoom(width, q, inner, idx);
        VisitsArePlaced(root, width, q, 0, inner, node.kids[idx]);
        PlacedConcat(root, width, v, Aim(q, 0, inner));
      }
      PlacedConcat(root, width, a, b);
    }
  }

  /* ---------------------------------------------------------------------- */
  // Checks that refuse one child
  /* ---------------------------------------------------------------------- */

  // The check that has `n` before it accepts the child at one position only; all others
  // accept
  function Refuse(n: nat, position: nat): Accepts<Log> {
    (s: Log, index: nat, d: Dag) => if |s| == n && d.id != position then None else Some(s + [0])
  }

  function Operands(visits: seq<Visit>): nat {
    if visits == [] then 0
    else (if visits[0].op.Do? && visits[0].op.check.OperandType? then 1 else 0) + Operands(visits[1..])
  }

  lemma {:induction false} CoveredGrows<S>(accepts: Accepts<S>, root: Dag, visits: seq<Visit>, m: Matched<S>)
    requires CheckAll(accepts, root, visits, m).Some?
    ensures m.covered <= CheckAll(accepts, root, visits, m).value.covered
    decreases |visits|
  {
    if visits != [] {
      CoveredGrows(accepts, root, visits[1..], CheckVisit(accepts, root, visits[0], m).value);
    }
  }

  // Before the refusal, what is placed and fits passes
  lemma {:induction false} PassBefore(
      n: nat, position: nat, root: Dag, width: Path -> nat, visits: seq<Visit>, m: Matched<Log>)
    requires AllPlaced(root, width, visits) && AllFit(width, visits) && |m.bound| + Operands(visits) <= n
    ensures CheckAll(Refuse(n, position), root, visits, m).Some?
    ensures |CheckAll(Refuse(n, position), root, visits, m).value.bound| == |m.bound| + Operands(visits)
    decreases |visits|
  {
    if visits != [] {
      var next := CheckVisit(Refuse(n, position), root, visits[0], m);
      assert Placed(root, width, visits[0]) && visits[0].idx < width(visits[0].path);
      PassBefore(n, position, root, width, visits[1..], next.value);
    }
  }

  // So it does after the refusal
  lemma {:induction false} PassAfter(
      n: nat, position: nat, root: Dag, width: Path -> nat, visits: seq<Visit>, m: Matched<Log>)
    requires AllPlaced(root, width, visits) && AllFit(width, visits) && |m.bound| > n
    ensures CheckAll(Refuse(n, position), root, visits, m).Some?
    decreases |visits|
  {
    if visits != [] {
      var next := CheckVisit(Refuse(n, position), root, visits[0], m);
      assert Placed(root, width, visits[0]) && visits[0].idx < width(visits[0].path);
      PassAfter(n, position, root, width, visits[1..], next.value);
    }
  }

  // Similar visits that are placed and fit give the same result
  lemma {:induction false} SimilarSame<S>(
      accepts: Accepts<S>, root: Dag, width: Path -> nat, a: seq<Visit>, b: seq<Visit>, m: Matched<S>)
    requires AllSimilar(a, b) && AllPlaced(root, width, b) && AllFit(width, a) && AllFit(width, b)
    ensures CheckAll(accepts, root, a, m) == CheckAll(accepts, root, b, m)
    decreases |a|
  {
    if a != [] {
      assert Similar(a[0], b[0]) && Placed(root, width, b[0]);
      assert a[0].idx < width(a[0].path) && b[0].idx < width(b[0].path);
      var next := CheckVisit(accepts, root, b[0], m);
      assert CheckVisit(accepts, root, a[0], m) == next;
      if next.Some? {
        SimilarSame(accepts, root, width, a[1..], b[1..], next.value);
      }
    }
  }

  lemma {:induction false} UnfitFails<S>(
      accepts: Accepts<S>, root: Dag, width: Path -> nat, visits: seq<Visit>, i: nat, m: Matched<S>)
    requires i < |visits| && Placed(root, width, visits[i]) && visits[i].idx >= width(visits[i].path)
    ensures CheckAll(accepts, root, visits, m) == None
    decreases i
  {
    if i > 0 {
      var next := CheckVisit(accepts, root, visits[0], m);
      if next.Some? {
        UnfitFails(accepts, root, width, visits[1..], i - 1, next.value);
      }
    }
  }

  /* ---------------------------------------------------------------------- */
  // A node and checks on which the two disagree
  /* ---------------------------------------------------------------------- */

  const NOTHING: Matched<Log> := Matched([], [])

  ghost predicate Disagree(n: nat, position: nat, root: Dag, a: seq<Visit>, b: seq<Visit>) {
    CheckAll(Refuse(n, position), root, a, NOTHING) != CheckAll(Refuse(n, position), root, b, NOTHING)
  }

  // Splitting the checks at one visit
  lemma CheckAround<S>(accepts: Accepts<S>, root: Dag, visits: seq<Visit>, k: nat, m: Matched<S>)
    requires k < |visits|
    ensures CheckAll(accepts, root, visits, m) ==
            match CheckAll(accepts, root, visits[..k], m)
            case None => None
            case Some(r) => ThenCheck(accepts, root, visits[k + 1..], CheckVisit(accepts, root, visits[k], r))
  {
    assert visits == visits[..k] + ([visits[k]] + visits[k + 1..]);
    CheckConcat(accepts, root, visits[..k], [visits[k]] + visits[k + 1..], m);
    var before := CheckAll(accepts, root, visits[..k], m);
    if before.Some? {
      CheckFirst(accepts, root, visits[k], visits[k + 1..], before.value);
    }
  }

  // The checks of both sides up to the first difference
  lemma SameUntil(n: nat, position: nat, root: Dag, width: Path -> nat, a: seq<Visit>, b: seq<Visit>, k: nat)
    returns (r: Matched<Log>)
    requires Diverges(a, b, k) && AllPlaced(root, width, b) && AllFit(width, b) && AllFit(width, a[..k])
    requires Operands(b[..k]) <= n
    ensures CheckAll(Refuse(n, position), root, b[..k], NOTHING) == Some(r)
    ensures CheckAll(Refuse(n, position), root, a[..k], NOTHING) == Some(r)
    ensures |r.bound| == Operands(b[..k])
  {
    PassBefore(n, position, root, width, b[..k], NOTHING);
    SimilarSame(Refuse(n, position), root, width, a[..k], b[..k], NOTHING);
    r := CheckAll(Refuse(n, position), root, b[..k], NOTHING).value;
  }

  // A different operand: a check that accepts only the right one
  lemma OperandsDisagree(root: Dag, width: Path -> nat, a: seq<Visit>, b: seq<Visit>, k: nat)
    requires Diverges(a, b, k) && AllPlaced(root, width, b) && AllFit(width, b) && AllFit(width, a[..k])
    requires !a[k].op.Push?
    ensures Disagree(Operands(b[..k]), b[k].idx, root, a, b)
  {
    var n, position := Operands(b[..k]), b[k].idx;
    var r := SameUntil(n, position, root, width, a, b, k);
    CheckAround(Refuse(n, position), root, a, k, NOTHING);
    CheckAround(Refuse(n, position), root, b, k, NOTHING);
    assert Placed(root, width, b[k]) && b[k].idx < width(b[k].path);
    assert CheckVisit(Refuse(n, position), root, a[k], r) == None;
    var next := CheckVisit(Refuse(n, position), root, b[k], r);
    PassAfter(n, position, root, width, b[k + 1..], next.value);
  }

  // A different group: another node is covered
  lemma GroupsDisagree(root: Dag, width: Path -> nat, a: seq<Visit>, b: seq<Visit>, k: nat)
    requires Diverges(a, b, k) && AllPlaced(root, width, b) && AllFit(width, b) && AllFit(width, a[..k])
    requires a[k].op.Push?
    ensures Disagree(Operands(b[..k]) + Operands(b[k + 1..]), 0, root, a, b)
  {
    var n := Operands(b[..k]) + Operands(b[k + 1..]);
    var r := SameUntil(n, 0, root, width, a, b, k);
    CheckAround(Refuse(n, 0), root, a, k, NOTHING);
    CheckAround(Refuse(n, 0), root, b, k, NOTHING);
    assert Placed(root, width, b[k]) && b[k].idx < width(b[k].path);
    var node := NodeAt(root, b[k].path).value;
    var next := r.(covered := r.covered + [node.kids[b[k].idx]]);
    assert CheckVisit(Refuse(n, 0), root, b[k], r) == Some(next);
    PassBefore(n, 0, root, width, b[k + 1..], next);
    CoveredGrows(Refuse(n, 0), root, b[k + 1..], next);
    var end := CheckAll(Refuse(n, 0), root, b, NOTHING);
    assert end.value.covered[|r.covered|] == node.kids[b[k].idx];
    if CheckAll(Refuse(n, 0), root, a, NOTHING).Some? {
      var other := r.(covered := r.covered + [node.kids[a[k].idx]]);
      CoveredGrows(Refuse(n, 0), root, a[k + 1..], other);
      assert CheckAll(Refuse(n, 0), root, a, NOTHING).value.covered[|r.covered|] == node.kids[a[k].idx];
    }
  }

  function MaxIdx(visits: seq<Visit>): (max: nat)
    ensures forall i :: 0 <= i < |visits| ==> visits[i].idx <= max
  {
    if visits == [] then 0
    else
      assert visits == [visits[0]] + visits[1..];
      Max(visits[0].idx, MaxIdx(visits[1..]))
  }

  lemma DivergingDisagree(items: seq<Item>, k: nat)
    requires Coherent(items, KindOf(items)) && Diverges(Actual(0, [], 0, items), Aim([], 0, items), k)
    ensures exists n: nat, position: nat, root: Dag ::
              Disagree(n, position, root, Actual(0, [], 0, items), Aim([], 0, items))
  {
    var a, b := Actual(0, [], 0, items), Aim([], 0, items);
    var w := Max(MaxIdx(a), MaxIdx(b)) + 1;
    var width := (p: Path) => w;
    var root := Build(width, [], items, 0);
    BuiltHasRoom(width, [], items, 0);
    VisitsArePlaced(root, width, [], 0, items, root);
    if a[k].op.Push? {
      GroupsDisagree(root, width, a, b, k);
    } else {
      OperandsDisagree(root, width, a, b, k);
    }
  }

  // What similar visits record fits where the larger side's request does not
  lemma RecordedFitNarrow(a: seq<Visit>, b: seq<Visit>, p: Path, width: Path -> nat)
    requires AllSimilar(a, b) && Asks(a, p) != Asks(b, p) && width(p) == Max(Asks(a, p), Asks(b, p)) - 1
    requires forall i :: 0 <= i < |b| && b[i].path != p ==> b[i].idx < width(b[i].path)
    ensures RecordedFit(width, b)
  {
    AsksBound(a, p);
    AsksBound(b, p);
    forall i | 0 <= i < |b| && Recorded(b[i].op)
      ensures b[i].idx < width(b[i].path)
    {
      assert Similar(a[i], b[i]);
    }
  }

  lemma SimilarPlaced(root: Dag, width: Path -> nat, a: seq<Visit>, b: seq<Visit>)
    requires AllSimilar(a, b) && AllPlaced(root, width, b)
    ensures AllPlaced(root, width, a)
  {
    forall i | 0 <= i < |a|
      ensures Placed(root, width, a[i])
    {
      assert Similar(a[i], b[i]) && Placed(root, width, b[i]);
    }
  }

  // The side that asks for more fails, and the other passes
  lemma NarrowDisagree(root: Dag, width: Path -> nat, fits: seq<Visit>, other: seq<Visit>, p: Path)
    requires AllPlaced(root, width, fits) && AllPlaced(root, width, other)
    requires Asks(fits, p) < Asks(other, p) == width(p) + 1
    requires forall i :: 0 <= i < |fits| && fits[i].path != p ==> fits[i].idx < width(fits[i].path)
    ensures Disagree(Operands(fits), 0, root, fits, other)
  {
    AsksBound(fits, p);
    AsksBound(other, p);
    PassBefore(Operands(fits), 0, root, width, fits, NOTHING);
    var i :| 0 <= i < |other| && other[i].path == p && other[i].idx + 1 == Asks(other, p);
    UnfitFails(Refuse(Operands(fits), 0), root, width, other, i, NOTHING);
  }

  // A node with just too few children at one path for one side
  lemma AskingDisagree(items: seq<Item>, p: Path)
    requires Coherent(items, KindOf(items)) && AllSimilar(Actual(0, [], 0, items), Aim([], 0, items))
    requires Asks(Actual(0, [], 0, items), p) != Asks(Aim([], 0, items), p)
    ensures exists n: nat, position: nat, root: Dag ::
              Disagree(n, position, root, Actual(0, [], 0, items), Aim([], 0, items))
  {
    var a, b := Actual(0, [], 0, items), Aim([], 0, items);
    var w := Max(MaxIdx(a), MaxIdx(b)) + 1;
    var narrow: nat := Max(Asks(a, p), Asks(b, p)) - 1;
    var width := (q: Path) => if q == p then narrow else w;
    var root := Build(width, [], items, 0);
    RecordedFitNarrow(a, b, p, width);
    BuiltHasRoom(width, [], items, 0);
    VisitsArePlaced(root, width, [], 0, items, root);
    SimilarPlaced(root, width, a, b);
    if Asks(a, p) < Asks(b, p) {
      NarrowDisagree(root, width, a, b, p);
    } else {
      NarrowDisagree(root, width, b, a, p);
      assert Disagree(Operands(b), 0, root, a, b);
    }
  }

  /** Some node matches a pattern exactly when no group of it asks for two kinds. */
  lemma MatchableIff(items: seq<Item>)
    ensures Matchable(items) <==> Coherent(items, KindOf(items))
  {
    if Coherent(items, KindOf(items)) {
      CoherentIsMatchable(items);
    }
    if accepts: Accepts<Log>, root: Dag, m: Matched<Log> :| Match(accepts, items, root, 0, m).Some? {
      MatchIsCoherent(accepts, items, root, 0, m);
      CoherentKind(items, root.kind);
    }
  }

  /** The matcher agrees with the pattern on every node and under all checks exactly when the
      pattern is aligned, or some group of it asks for two kinds. */
  lemma AgreesIff(items: seq<Item>)
    ensures Agrees(items) <==> Aligned(0, 0, items) || !Coherent(items, KindOf(items))
  {
    MatchableIff(items);
    if Aligned(0, 0, items) {
      AlignedAgrees(items);
    } else if !Matchable(items) {
      UnmatchableAgrees(items);
    } else {
      MisalignedDisagrees(items);
    }
  }

  lemma AlignedAgrees(items: seq<Item>)
    requires Aligned(0, 0, items)
    ensures Agrees(items)
  {
    VisitsAreRightIff(items);
    forall accepts: Accepts<Log>, root: Dag, m: Matched<Log>
      ensures CheckAll(accepts, root, Visits(START, Flat(items)), m) == Match(accepts, items, root, 0, m)
    {
      MatchIsCheckAll(accepts, root, [], items, root, 0, m);
    }
  }

  lemma CoherentIsMatchable(items: seq<Item>)
    requires Coherent(items, KindOf(items))
    ensures Matchable(items)
  {
    var b := Aim([], 0, items);
    var w := MaxIdx(b) + 1;
    var width := (p: Path) => w;
    var root := Build(width, [], items, 0);
    BuiltHasRoom(width, [], items, 0);
    VisitsArePlaced(root, width, [], 0, items, root);
    PassBefore(Operands(b), 0, root, width, b, NOTHING);
    MatchIsCheckAll(Refuse(Operands(b), 0), root, [], items, root, 0, NOTHING);
    assert Match(Refuse(Operands(b), 0), items, root, 0, NOTHING).Some?;
  }

  lemma UnmatchableAgrees(items: seq<Item>)
    requires !Matchable(items)
    ensures Agrees(items)
  {
    VisitsAreActual(items);
    forall accepts: Accepts<Log>, root: Dag, m: Matched<Log>
      ensures CheckAll(accepts, root, Visits(START, Flat(items)), m) == Match(accepts, items, root, 0, m)
    {
      if CheckAll(accepts, root, Actual(0, [], 0, items), m).Some? {
        AcceptedIsCoherent(accepts, root, 0, [], 0, items, root, m);
        CoherentKind(items, root.kind);
        CoherentIsMatchable(items);
      }
    }
  }

  lemma MisalignedDisagrees(items: seq<Item>)
    requires !Aligned(0, 0, items) && Matchable(items)
    ensures !Agrees(items)
  {
    var accepts: Accepts<Log>, root: Dag, m: Matched<Log> :| Match(accepts, items, root, 0, m).Some?;
    MatchIsCoherent(accepts, items, root, 0, m);
    CoherentKind(items, root.kind);
    ActualIsAimIff(0, [], 0, items);
    var a, b := Actual(0, [], 0, items), Aim([], 0, items);
    var k := FirstDifference(0, [], 0, items);
    if k < |a| {
      DivergingDisagree(items, k);
    } else {
      var p := AskDifferently(0, [], 0, items);
      AskingDisagree(items, p);
    }
    var n: nat, position: nat, node: Dag :| Disagree(n, position, node, a, b);
    MatchIsCheckAll(Refuse(n, position), node, [], items, node, 0, NOTHING);
    VisitsAreActual(items);
    assert CheckAll(Refuse(n, position), node, Visits(START, Flat(items)), NOTHING) !=
           Match(Refuse(n, position), items, node, 0, NOTHING);
  }
}
