/** Running a pattern's tape against a node of the selection graph.

    The matcher walks the graph with a stack of (position, node) pairs.  After a Pop it goes
    on behind the position of the node it returns to, not behind the position of the group
    that ended.  This module says exactly for which patterns that is the same. */
module PatternMatch {
  import opened Sequences
  import opened Wrappers
  import opened PatternTape

  // A node as the matcher sees it; chains are not operands
  datatype Dag = Dag(kind: Half, id: nat, kids: seq<Dag>)

  /** How a node is checked against an operand of the definition.  Checks may depend on the
      nodes bound by earlier ones. */
  type Accepts<!S> = (S, nat, Dag) -> Option<S>

  // What a match has bound, and the nodes it covers
  datatype Matched<S> = Matched(bound: S, covered: seq<Dag>)

  /* ---------------------------------------------------------------------- */
  // What a pattern means
  /* ---------------------------------------------------------------------- */

  // Each operand of a group is matched with the next child of the node
  function Match<S>(accepts: Accepts<S>, items: seq<Item>, node: Dag, idx: nat, m: Matched<S>): Option<Matched<S>>
    decreases items
  {
    if items == [] then Some(m)
    else if idx >= |node.kids| then None
    else
      match items[0]
      case Leaf(NodeType(kind)) =>
        if node.kind != kind then None else Match(accepts, items[1..], node, idx, m)
      case Leaf(OperandType(index)) =>
        (match accepts(m.bound, index, node.kids[idx])
         case None => None
         case Some(bound) => Match(accepts, items[1..], node, idx + 1, m.(bound := bound)))
      case Nested(inner) =>
        var child := node.kids[idx];
        match Match(accepts, inner, child, 0, m.(covered := m.covered + [child]))
        case None => None
        case Some(next) => Match(accepts, items[1..], node, idx + 1, next)
  }

  /* ---------------------------------------------------------------------- */
  // Which places are visited
  /* ---------------------------------------------------------------------- */

  type Path = seq<nat>

  // An operand of the tape, the node it is run at, and the child that is next
  datatype Visit = Visit(path: Path, idx: nat, op: Operand)

  datatype Entry = Entry(idx: nat, path: Path)

  datatype Cursor = Cursor(path: Path, idx: nat, stack: seq<Entry>)

  const START: Cursor := Cursor([], 0, [Entry(0, [])])

  // None when the stack runs empty
  function Move(c: Cursor, op: Operand): Option<Cursor> {
    match op
    case Push => Some(Cursor(c.path + [c.idx], 0, c.stack + [Entry(c.idx, c.path + [c.idx])]))
    case Pop =>
      if |c.stack| < 2 then None
      else
        var top := c.stack[|c.stack| - 2];
        Some(Cursor(top.path, top.idx + 1, c.stack[..|c.stack| - 1]))
    case Do(NodeType(_)) => Some(c)
    case Do(OperandType(_)) => Some(c.(idx := c.idx + 1))
  }

  function Seen(c: Cursor, op: Operand): seq<Visit> {
    if op.Pop? then [] else [Visit(c.path, c.idx, op)]
  }

  // The visits of the matcher, as long as nothing fails
  function Visits(c: Cursor, tape: seq<Operand>): seq<Visit>
    decreases |tape|
  {
    if tape == [] then []
    else
      Seen(c, tape[0]) + match Move(c, tape[0]) case None => [] case Some(next) => Visits(next, tape[1..])
  }

  // The visits that the pattern's shape asks for
  function Aim(path: Path, idx: nat, items: seq<Item>): seq<Visit>
    decreases items
  {
    if items == [] then []
    else
      match items[0]
      case Leaf(check) =>
        [Visit(path, idx, Do(check))] + Aim(path, if check.NodeType? then idx else idx + 1, items[1..])
      case Nested(inner) =>
        [Visit(path, idx, Push)] + Aim(path + [idx], 0, inner) + Aim(path, idx + 1, items[1..])
  }

  // The visits of the matcher to a group that sits at position `own` itself
  function Actual(own: nat, path: Path, idx: nat, items: seq<Item>): seq<Visit>
    decreases items, 0
  {
    if items == [] then []
    else ActualItem(path, idx, items[0]) + Actual(own, path, Next(own, idx, items[0]), items[1..])
  }

  function ActualItem(path: Path, idx: nat, item: Item): seq<Visit>
    decreases item, 1
  {
    match item
    case Leaf(check) => [Visit(path, idx, Do(check))]
    case Nested(inner) => [Visit(path, idx, Push)] + Actual(idx, path + [idx], 0, inner)
  }

  // The position after an item: after a group, it is the one behind the group around it
  function Next(own: nat, idx: nat, item: Item): nat {
    match item
    case Leaf(NodeType(_)) => idx
    case Leaf(OperandType(_)) => idx + 1
    case Nested(_) => own + 1
  }

  function After(own: nat, idx: nat, items: seq<Item>): nat
    decreases items
  {
    if items == [] then idx else After(own, Next(own, idx, items[0]), items[1..])
  }

  // The position after an item, as the pattern's shape has it
  function Shift(idx: nat, item: Item): nat {
    if item.Leaf? && item.check.NodeType? then idx else idx + 1
  }

  /** Every group inside that is not the last item of its own group is at the same position
      as the group around it. */
  predicate Aligned(own: nat, idx: nat, items: seq<Item>)
    decreases items, 0
  {
    items == [] ||
    (AlignedItem(own, idx, items[0], items[1..] == []) && Aligned(own, Shift(idx, items[0]), items[1..]))
  }

  predicate AlignedItem(own: nat, idx: nat, item: Item, last: bool)
    decreases item, 1
  {
    match item
    case Leaf(_) => true
    case Nested(inner) => Aligned(idx, 0, inner) && (last || idx == own)
  }

  lemma VisitsNext(c: Cursor, op: Operand, rest: seq<Operand>)
    ensures Visits(c, [op] + rest) ==
            Seen(c, op) + match Move(c, op) case None => [] case Some(next) => Visits(next, rest)
  {
    assert ([op] + rest)[1..] == rest;
  }

  lemma {:induction false} VisitsOfItems(
      own: nat, path: Path, idx: nat, below: seq<Entry>, items: seq<Item>, rest: seq<Operand>)
    ensures Visits(Cursor(path, idx, below + [Entry(own, path)]), Flat(items) + rest) ==
            Actual(own, path, idx, items) +
            Visits(Cursor(path, After(own, idx, items), below + [Entry(own, path)]), rest)
    decreases items, 0
  {
    var stack := below + [Entry(own, path)];
    var visits := Visits(Cursor(path, After(own, idx, items), stack), rest);
    if items == [] {
      assert Flat(items) + rest == rest;
      assert [] + visits == visits;
    } else {
      var next := Next(own, idx, items[0]);
      VisitsOfItem(own, path, idx, below, items[0], Flat(items[1..]) + rest);
      VisitsOfItems(own, path, next, below, items[1..], rest);
      Regroup(FlatItem(items[0]), Flat(items[1..]), rest);
      Regroup(ActualItem(path, idx, items[0]), Actual(own, path, next, items[1..]), visits);
    }
  }

  lemma {:induction false} VisitsOfItem(
      own: nat, path: Path, idx: nat, below: seq<Entry>, item: Item, tail: seq<Operand>)
    ensures Visits(Cursor(path, idx, below + [Entry(own, path)]), FlatItem(item) + tail) ==
            ActualItem(path, idx, item) +
            Visits(Cursor(path, Next(own, idx, item), below + [Entry(own, path)]), tail)
    decreases item, 1
  {
    match item
    case Leaf(check) => VisitsNext(Cursor(path, idx, below + [Entry(own, path)]), Do(check), tail);
    case Nested(inner) => VisitsOfNested(own, path, idx, below, inner, tail);
  }

  lemma {:induction false} VisitsOfNested(
      own: nat, path: Path, idx: nat, below: seq<Entry>, inner: seq<Item>, tail: seq<Operand>)
    ensures Visits(Cursor(path, idx, below + [Entry(own, path)]), FlatItem(Nested(inner)) + tail) ==
            ([Visit(path, idx, Push)] + Actual(idx, path + [idx], 0, inner)) +
            Visits(Cursor(path, own + 1, below + [Entry(own, path)]), tail)
    decreases inner, 1
  {
    var stack := below + [Entry(own, path)];
    var last := Cursor(path + [idx], After(idx, 0, inner), stack + [Entry(idx, path + [idx])]);
    BracketTail(Flat(inner), tail);
    VisitsNext(Cursor(path, idx, stack), Push, Flat(inner) + ([Pop] + tail));
    VisitsOfItems(idx, path + [idx], 0, stack, inner, [Pop] + tail);
    PopReturns(own, path, idx, below, After(idx, 0, inner));
    VisitsNext(last, Pop, tail);
    var visits := Visits(Cursor(path, own + 1, stack), tail);
    assert [] + visits == visits;
    Regroup([Visit(path, idx, Push)], Actual(idx, path + [idx], 0, inner), visits);
  }

  lemma PopReturns(own: nat, path: Path, idx: nat, below: seq<Entry>, end: nat)
    ensures var stack := below + [Entry(own, path)];
            Move(Cursor(path + [idx], end, stack + [Entry(idx, path + [idx])]), Pop) ==
            Some(Cursor(path, own + 1, stack))
  {
    var stack := below + [Entry(own, path)];
    assert (stack + [Entry(idx, path + [idx])])[..|stack|] == stack;
  }

  lemma BracketTail(inner: seq<Operand>, tail: seq<Operand>)
    ensures ([Push] + inner + [Pop]) + tail == [Push] + (inner + ([Pop] + tail))
  {
  }

  // How many visits a list of items takes
  function Count(items: seq<Item>): nat
    decreases items
  {
    if items == [] then 0
    else 1 + (if items[0].Nested? then Count(items[0].items) else 0) + Count(items[1..])
  }

  lemma {:induction false} AimCount(path: Path, idx: nat, items: seq<Item>)
    ensures |Aim(path, idx, items)| == Count(items)
    ensures items != [] ==> Aim(path, idx, items)[0].idx == idx
    decreases items
  {
    if items != [] {
      match items[0]
      case Leaf(check) => AimCount(path, if check.NodeType? then idx else idx + 1, items[1..]);
      case Nested(inner) =>
        AimCount(path + [idx], 0, inner);
        AimCount(path, idx + 1, items[1..]);
    }
  }

  lemma {:induction false} ActualCount(own: nat, path: Path, idx: nat, items: seq<Item>)
    ensures |Actual(own, path, idx, items)| == Count(items)
    ensures items != [] ==> Actual(own, path, idx, items)[0].idx == idx
    decreases items
  {
    if items != [] {
      if items[0].Nested? {
        ActualCount(idx, path + [idx], 0, items[0].items);
      }
      ActualCount(own, path, Next(own, idx, items[0]), items[1..]);
    }
  }

  lemma SplitEqual<T>(v: T, a: seq<T>, b: seq<T>, c: seq<T>, d: seq<T>)
    requires |a| == |c|
    ensures [v] + a + b == [v] + c + d <==> a == c && b == d
  {
    if [v] + a + b == [v] + c + d {
      var n := |a| + 1;
      assert ([v] + a + b)[1..n] == a && ([v] + c + d)[1..n] == c;
      assert ([v] + a + b)[n..] == b && ([v] + c + d)[n..] == d;
    }
  }

  lemma TailEqual<T>(v: T, a: seq<T>, b: seq<T>)
    ensures [v] + a == [v] + b <==> a == b
  {
    if [v] + a == [v] + b {
      assert ([v] + a)[1..] == a && ([v] + b)[1..] == b;
    }
  }

  lemma {:induction false} ActualIsAimIff(own: nat, path: Path, idx: nat, items: seq<Item>)
    ensures Actual(own, path, idx, items) == Aim(path, idx, items) <==> Aligned(own, idx, items)
    decreases items, 0
  {
    if items != [] {
      match items[0]
      case Leaf(check) =>
        var next := Shift(idx, items[0]);
        ActualIsAimIff(own, path, next, items[1..]);
        TailEqual(Visit(path, idx, Do(check)), Actual(own, path, next, items[1..]), Aim(path, next, items[1..]));
      case Nested(inner) =>
        var p := path + [idx];
        ActualIsAimIff(idx, p, 0, inner);
        ActualCount(idx, p, 0, inner);
        AimCount(p, 0, inner);
        SplitEqual(Visit(path, idx, Push), Actual(idx, p, 0, inner), Actual(own, path, own + 1, items[1..]),
                   Aim(p, 0, inner), Aim(path, idx + 1, items[1..]));
        RestIsAimIff(own, path, idx, items[1..]);
    }
  }

  lemma {:induction false} RestIsAimIff(own: nat, path: Path, idx: nat, rest: seq<Item>)
    ensures Actual(own, path, own + 1, rest) == Aim(path, idx + 1, rest) <==>
            (rest != [] ==> idx == own) && Aligned(own, idx + 1, rest)
    decreases rest, 1
  {
    if idx == own {
      ActualIsAimIff(own, path, idx + 1, rest);
    } else {
      ActualCount(own, path, own + 1, rest);
      AimCount(path, idx + 1, rest);
    }
  }

  lemma VisitsAreActual(items: seq<Item>)
    ensures Visits(START, Flat(items)) == Actual(0, [], 0, items)
  {
    VisitsOfItems(0, [], 0, [], items, []);
    assert [] + [Entry(0, [])] == [Entry(0, [])];
    assert Flat(items) + [] == Flat(items);
    assert Actual(0, [], 0, items) + [] == Actual(0, [], 0, items);
  }

  /** The matcher visits the places that the pattern's shape asks for exactly when the
      pattern is aligned. */
  lemma VisitsAreRightIff(items: seq<Item>)
    ensures Visits(START, Flat(items)) == Aim([], 0, items) <==> Aligned(0, 0, items)
  {
    VisitsAreActual(items);
    ActualIsAimIff(0, [], 0, items);
  }

  /* ---------------------------------------------------------------------- */
  // Running the visits
  /* ---------------------------------------------------------------------- */

  function NodeAt(root: Dag, path: Path): Option<Dag> {
    if path == [] then Some(root)
    else
      match NodeAt(root, path[..|path| - 1])
      case None => None
      case Some(node) =>
        if path[|path| - 1] < |node.kids| then Some(node.kids[path[|path| - 1]]) else None
  }

  lemma NodeAtNext(root: Dag, path: Path, idx: nat)
    requires NodeAt(root, path).Some? && idx < |NodeAt(root, path).value.kids|
    ensures NodeAt(root, path + [idx]) == Some(NodeAt(root, path).value.kids[idx])
  {
    assert (path + [idx])[..|path|] == path;
  }

  // One operand at one node
  function CheckAt<S>(accepts: Accepts<S>, node: Dag, idx: nat, op: Operand, m: Matched<S>): Option<Matched<S>> {
    if idx >= |node.kids| then None
    else
      match op
      case Push => Some(m.(covered := m.covered + [node.kids[idx]]))
      case Pop => Some(m)
      case Do(NodeType(kind)) => if node.kind == kind then Some(m) else None
      case Do(OperandType(index)) =>
        match accepts(m.bound, index, node.kids[idx])
        case None => None
        case Some(bound) => Some(m.(bound := bound))
  }

  function CheckVisit<S>(accepts: Accepts<S>, root: Dag, v: Visit, m: Matched<S>): Option<Matched<S>> {
    match NodeAt(root, v.path)
    case None => None
    case Some(node) => CheckAt(accepts, node, v.idx, v.op, m)
  }

  function CheckAll<S>(accepts: Accepts<S>, root: Dag, visits: seq<Visit>, m: Matched<S>): Option<Matched<S>>
    decreases |visits|
  {
    if visits == [] then Some(m)
    else
      match CheckVisit(accepts, root, visits[0], m)
      case None => None
      case Some(next) => CheckAll(accepts, root, visits[1..], next)
  }

  function ThenCheck<S>(accepts: Accepts<S>, root: Dag, visits: seq<Visit>, m: Option<Matched<S>>): Option<Matched<S>> {
    match m case None => None case Some(next) => CheckAll(accepts, root, visits, next)
  }

  lemma {:induction false} CheckConcat<S>(
      accepts: Accepts<S>, root: Dag, a: seq<Visit>, b: seq<Visit>, m: Matched<S>)
    ensures CheckAll(accepts, root, a + b, m) == ThenCheck(accepts, root, b, CheckAll(accepts, root, a, m))
    decreases |a|
  {
    if a == [] {
      assert a + b == b;
    } else {
      assert (a + b)[1..] == a[1..] + b;
      var first := CheckVisit(accepts, root, a[0], m);
      if first.Some? {
        CheckConcat(accepts, root, a[1..], b, first.value);
      }
    }
  }

  lemma CheckFirst<S>(accepts: Accepts<S>, root: Dag, v: Visit, rest: seq<Visit>, m: Matched<S>)
    ensures CheckAll(accepts, root, [v] + rest, m) ==
            ThenCheck(accepts, root, rest, CheckVisit(accepts, root, v, m))
  {
    assert ([v] + rest)[1..] == rest;
  }

  /** Matching a pattern is checking the visits it asks for. */
  lemma {:induction false} MatchIsCheckAll<S>(
      accepts: Accepts<S>, root: Dag, path: Path, items: seq<Item>, node: Dag, idx: nat, m: Matched<S>)
    requires NodeAt(root, path) == Some(node)
    ensures Match(accepts, items, node, idx, m) == CheckAll(accepts, root, Aim(path, idx, items), m)
    decreases items
  {
    if items != [] {
      match items[0]
      case Leaf(check) =>
        var next := if check.NodeType? then idx else idx + 1;
        var visit := Visit(path, idx, Do(check));
        CheckFirst(accepts, root, visit, Aim(path, next, items[1..]), m);
        var checked := CheckVisit(accepts, root, visit, m);
        if checked.Some? {
          MatchIsCheckAll(accepts, root, path, items[1..], node, next, checked.value);
        }
      case Nested(inner) =>
        var p := path + [idx];
        var visit := Visit(path, idx, Push);
        var rest := Aim(path, idx + 1, items[1..]);
        Regroup([visit], Aim(p, 0, inner), rest);
        CheckFirst(accepts, root, visit, Aim(p, 0, inner) + rest, m);
        if idx < |node.kids| {
          NodeAtNext(root, path, idx);
          var entered := m.(covered := m.covered + [node.kids[idx]]);
          CheckConcat(accepts, root, Aim(p, 0, inner), rest, entered);
          MatchIsCheckAll(accepts, root, p, inner, node.kids[idx], 0, entered);
          var matched := Match(accepts, inner, node.kids[idx], 0, entered);
          if matched.Some? {
            MatchIsCheckAll(accepts, root, path, items[1..], node, idx + 1, matched.value);
          }
        }
    }
  }

  /** Running the tape of an aligned pattern is matching the pattern. */
  lemma AlignedIsMatched<S>(accepts: Accepts<S>, root: Dag, t: Pattern, m: Matched<S>)
    requires Aligned(0, 0, Norm(t))
    ensures CheckAll(accepts, root, Visits(START, Tape(t)), m) == Match(accepts, Norm(t), root, 0, m)
  {
    TapeIsFlat(t);
    VisitsAreRightIff(Norm(t));
    MatchIsCheckAll(accepts, root, [], Norm(t), root, 0, m);
  }

  lemma VisitsStep<S>(accepts: Accepts<S>, root: Dag, c: Cursor, tape: seq<Operand>, i: nat, m: Matched<S>)
    requires i < |tape| && Move(c, tape[i]).Some?
    ensures CheckAll(accepts, root, Visits(c, tape[i..]), m) ==
            ThenCheck(accepts, root, Visits(Move(c, tape[i]).value, tape[i + 1..]),
                      if tape[i].Pop? then Some(m) else CheckVisit(accepts, root, Visit(c.path, c.idx, tape[i]), m))
  {
    var rest := Visits(Move(c, tape[i]).value, tape[i + 1..]);
    assert tape[i..] == [tape[i]] + tape[i + 1..];
    VisitsNext(c, tape[i], tape[i + 1..]);
    if tape[i].Pop? {
      assert [] + rest == rest;
    } else {
      CheckFirst(accepts, root, Visit(c.path, c.idx, tape[i]), rest, m);
    }
  }

  // The matcher's stack is where the cursor says
  ghost predicate Follows(root: Dag, stack: seq<(nat, Dag)>, c: Cursor) {
    && |stack| == |c.stack| > 0
    && c.stack[|c.stack| - 1].path == c.path
    && forall k :: 0 <= k < |stack| ==>
         stack[k].0 == c.stack[k].idx && NodeAt(root, c.stack[k].path) == Some(stack[k].1)
  }

  // One operand of the tape; None when the check fails
  method Step<S>(accepts: Accepts<S>, op: Operand, stack: seq<(nat, Dag)>, childIdx: nat, m: Matched<S>,
                 ghost root: Dag, ghost c: Cursor)
    returns (stack': seq<(nat, Dag)>, childIdx': nat, result: Option<Matched<S>>)
    requires Follows(root, stack, c) && childIdx == c.idx && (op.Pop? ==> |stack| > 1)
    ensures result == if op.Pop? then Some(m) else CheckVisit(accepts, root, Visit(c.path, c.idx, op), m)
    ensures result.Some? ==>
              && Move(c, op).Some? && Follows(root, stack', Move(c, op).value) && childIdx' == Move(c, op).value.idx
              && |stack'| == |stack| + if op.Push? then 1 else if op.Pop? then -1 else 0
  {
    stack', childIdx' := stack, childIdx;
    var node := stack[|stack| - 1].1;
    if !op.Pop? && childIdx >= |node.kids| {
      return stack', childIdx', None;
    }
    match op
    case Push =>
      NodeAtNext(root, c.path, childIdx);
      node := node.kids[childIdx];
      stack', childIdx' := stack + [(childIdx, node)], 0;
      result := Some(m.(covered := m.covered + [node]));
    case Pop =>
      stack' := stack[..|stack| - 1];
      childIdx' := stack'[|stack'| - 1].0 + 1;
      result := Some(m);
    case Do(NodeType(kind)) =>
      result := if node.kind == kind then Some(m) else None;
    case Do(OperandType(index)) =>
      var bound := accepts(m.bound, index, node.kids[childIdx]);
      childIdx' := childIdx + 1;
      result := match bound case None => None case Some(b) => Some(m.(bound := b));
  }

  /** Runs a tape against a node. */
  method Matches<S>(accepts: Accepts<S>, tape: seq<Operand>, root: Dag, bound: S)
    returns (result: Option<Matched<S>>)
    requires Balanced(tape, 0)
    ensures result == CheckAll(accepts, root, Visits(START, tape), Matched(bound, [root]))
  {
    ghost var c := START;
    var m := Matched(bound, [root]);
    var stack: seq<(nat, Dag)> := [(0, root)];
    var childIdx: nat := 0;
    assert tape[0..] == tape;
    for i := 0 to |tape|
      invariant Follows(root, stack, c) && childIdx == c.idx && Balanced(tape[i..], |stack| - 1)
      invariant CheckAll(accepts, root, Visits(START, tape), Matched(bound, [root])) ==
                CheckAll(accepts, root, Visits(c, tape[i..]), m)
    {
      BalancedNext(tape, i, |stack| - 1);
      var op := tape[i];
      var next;
      stack, childIdx, next := Step(accepts, op, stack, childIdx, m, root, c);
      if next.None? {
        FailsHere(accepts, root, c, tape, i, m);
        return None;
      }
      VisitsStep(accepts, root, c, tape, i, m);
      c := Move(c, op).value;
      m := next.value;
    }
    return Some(m);
  }

  // The one output of a definition, if it has one
  datatype Output = RegisterOutput(registerClass: nat) | OtherOutput

  // A node without a type fits a definition without output; a register must hold the type
  predicate OutputFits(holds: (nat, nat) -> bool, outputs: seq<Output>, bits: nat) {
    if outputs == [] then bits == 0
    else outputs[0].RegisterOutput? ==> holds(outputs[0].registerClass, bits)
  }

  /** Matches a pattern of a definition with at most one output: the type of the node is
      checked first. */
  method MatchesDefinition<S>(
      accepts: Accepts<S>, holds: (nat, nat) -> bool, outputs: seq<Output>, tape: seq<Operand>,
      root: Dag, bits: nat, bound: S)
    returns (result: Option<Matched<S>>)
    requires |outputs| <= 1 && Balanced(tape, 0)
    ensures result == if OutputFits(holds, outputs, bits) then
                        CheckAll(accepts, root, Visits(START, tape), Matched(bound, [root]))
                      else None
    ensures result.Some? && outputs == [] ==> bits == 0
    ensures result.Some? && |outputs| == 1 && outputs[0].RegisterOutput? ==> holds(outputs[0].registerClass, bits)
    ensures (if outputs == [] then bits == 0
             else outputs[0].OtherOutput? || holds(outputs[0].registerClass, bits)) ==>
              result == CheckAll(accepts, root, Visits(START, tape), Matched(bound, [root]))
  {
    if |outputs| == 0 {
      if bits != 0 {
        return None;
      }
    } else if |outputs| == 1 {
      if outputs[0].RegisterOutput? {
        if !holds(outputs[0].registerClass, bits) {
          return None;
        }
      }
    }
    result := Matches(accepts, tape, root, bound);
  }

  lemma BalancedNext(tape: seq<Operand>, i: nat, depth: nat)
    requires i < |tape| && Balanced(tape[i..], depth)
    ensures tape[i].Pop? ==> depth > 0
    ensures Balanced(tape[i + 1..], depth + if tape[i].Push? then 1 else if tape[i].Pop? then -1 else 0)
  {
    assert tape[i..][1..] == tape[i + 1..];
  }

  lemma FailsHere<S>(accepts: Accepts<S>, root: Dag, c: Cursor, tape: seq<Operand>, i: nat, m: Matched<S>)
    requires i < |tape| && !tape[i].Pop?
    requires CheckVisit(accepts, root, Visit(c.path, c.idx, tape[i]), m) == None
    ensures CheckAll(accepts, root, Visits(c, tape[i..]), m) == None
  {
    assert tape[i..] == [tape[i]] + tape[i + 1..];
    VisitsNext(c, tape[i], tape[i + 1..]);
  }

  /* ---------------------------------------------------------------------- */
  // Patterns in use, and one that would go wrong
  /* ---------------------------------------------------------------------- */

  // A child that becomes one item
  predicate Becomes(t: Pattern, item: Item) {
    Nest(Norm(t)) == [item]
  }

  lemma NormOfTwo(s: Pattern, t: Pattern, i: Item, j: Item)
    requires Becomes(s, i) && Becomes(t, j)
    ensures Norm(Group([s, t])) == [i, j] && Becomes(Group([s, t]), Nested([i, j]))
  {
    assert [s, t][1..] == [t] && [t][1..] == [];
    assert NormAll([t]) == Nest(Norm(t)) + NormAll([]);
  }

  lemma NormOfThree(s: Pattern, t: Pattern, u: Pattern, i: Item, j: Item, k: Item)
    requires Becomes(s, i) && Becomes(t, j) && Becomes(u, k)
    ensures Norm(Group([s, t, u])) == [i, j, k] && Becomes(Group([s, t, u]), Nested([i, j, k]))
  {
    NormOfTwo(t, u, j, k);
    assert [s, t, u][1..] == [t, u];
  }

  lemma AlignedOfTwo(own: nat, i: Item, j: Item)
    ensures Aligned(own, 0, [i, j]) <==> AlignedItem(own, 0, i, false) && AlignedItem(own, Shift(0, i), j, true)
  {
    AlignedOfOne(own, Shift(0, i), j);
    assert [i, j][1..] == [j];
  }

  lemma AlignedOfOne(own: nat, idx: nat, i: Item)
    ensures Aligned(own, idx, [i]) <==> AlignedItem(own, idx, i, true)
  {
    assert [i][1..] == [];
  }

  lemma AlignedOfThree(own: nat, i: Item, j: Item, k: Item)
    ensures Aligned(own, 0, [i, j, k]) <==>
              && AlignedItem(own, 0, i, false) && AlignedItem(own, Shift(0, i), j, false)
              && AlignedItem(own, Shift(Shift(0, i), j), k, true)
  {
    var idx := Shift(0, i);
    AlignedOfOne(own, Shift(idx, j), k);
    assert [j, k][1..] == [k];
    assert Aligned(own, idx, [j, k]) <==> AlignedItem(own, idx, j, false) && AlignedItem(own, Shift(idx, j), k, true);
    assert [i, j, k][1..] == [j, k];
  }

  /** All shapes of patterns that the x86 target defines are aligned. */
  lemma ShippedPatternsAreAligned(node: Half, load: Half, store: Half, a: Half, b: Half, c: Half)
    ensures var n, x, y, z :=
              Single(NodeType(node)), Single(OperandType(a)), Single(OperandType(b)), Single(OperandType(c));
            var read, write := Group([Single(NodeType(load)), y]), Single(NodeType(store));
            && Aligned(0, 0, Norm(Group([n, x])))
            && Aligned(0, 0, Norm(Group([n, x, y])))
            && Aligned(0, 0, Norm(Group([n, x, read])))
            && Aligned(0, 0, Norm(Group([n, read, x])))
            && Aligned(0, 0, Norm(Group([write, Group([n, read, x]), z])))
            && Aligned(0, 0, Norm(Group([write, Group([n, x, read]), z])))
  {
    var n, x, y, z :=
      Single(NodeType(node)), Single(OperandType(a)), Single(OperandType(b)), Single(OperandType(c));
    var read, write := Group([Single(NodeType(load)), y]), Single(NodeType(store));
    var N, X, Y, Z, L, W :=
      Leaf(NodeType(node)), Leaf(OperandType(a)), Leaf(OperandType(b)), Leaf(OperandType(c)),
      Leaf(NodeType(load)), Leaf(NodeType(store));
    NormOfTwo(Single(NodeType(load)), y, L, Y);
    var R := Nested([L, Y]);
    AlignedOfTwo(0, L, Y);
    AlignedOfTwo(1, L, Y);
    NormOfTwo(n, x, N, X);
    AlignedOfTwo(0, N, X);
    NormOfThree(n, x, y, N, X, Y);
    AlignedOfThree(0, N, X, Y);
    NormOfThree(n, x, read, N, X, R);
    AlignedOfThree(0, N, X, R);
    NormOfThree(n, read, x, N, R, X);
    AlignedOfThree(0, N, R, X);
    NormOfThree(write, Group([n, read, x]), z, W, Nested([N, R, X]), Z);
    AlignedOfThree(0, W, Nested([N, R, X]), Z);
    NormOfThree(write, Group([n, x, read]), z, W, Nested([N, X, R]), Z);
    AlignedOfThree(0, W, Nested([N, X, R]), Z);
  }

  lemma MatchNext<S>(accepts: Accepts<S>, item: Item, rest: seq<Item>, node: Dag, idx: nat, m: Matched<S>)
    requires item.Leaf? && item.check.OperandType? && idx < |node.kids|
    requires accepts(m.bound, item.check.index, node.kids[idx]) == Some(m.bound)
    ensures Match(accepts, [item] + rest, node, idx, m) == Match(accepts, rest, node, idx + 1, m)
  {
    assert ([item] + rest)[1..] == rest;
    assert m.(bound := m.bound) == m;
  }

  lemma LastFails<S>(accepts: Accepts<S>, root: Dag, visits: seq<Visit>, v: Visit, m: Matched<S>)
    requires forall n: Matched<S> {:trigger CheckVisit(accepts, root, v, n)} :: CheckVisit(accepts, root, v, n) == None
    ensures CheckAll(accepts, root, visits + [v], m) == None
  {
    CheckConcat(accepts, root, visits, [v], m);
    assert [v] + [] == [v];
    var before := CheckAll(accepts, root, visits, m);
    if before.Some? {
      CheckFirst(accepts, root, v, [], before.value);
      assert CheckVisit(accepts, root, v, before.value) == None;
    }
  }

  // A leading node type checks the node and moves nothing
  lemma LeadingType<S>(accepts: Accepts<S>, kind: Half, rest: seq<Item>, node: Dag, m: Matched<S>)
    requires node.kind == kind && node.kids != []
    ensures var items := [Leaf(NodeType(kind))] + rest;
            && Match(accepts, items, node, 0, m) == Match(accepts, rest, node, 0, m)
            && (Aligned(0, 0, items) <==> Aligned(0, 0, rest))
            && Flat(items) != [] && Flat(items)[0] == Do(NodeType(kind))
            && Actual(0, [], 0, items) == [Visit([], 0, Do(NodeType(kind)))] + Actual(0, [], 0, rest)
  {
    assert ([Leaf(NodeType(kind))] + rest)[1..] == rest;
  }

  // A node type, an operand, a group, and another operand
  function GroupBetween(kind: Half, a: Half, inner: seq<Item>, b: Half): seq<Item> {
    [Leaf(NodeType(kind))] + [Leaf(OperandType(a)), Nested(inner), Leaf(OperandType(b))]
  }

  /** A pattern for nodes of some kind, with a group behind an operand and another operand
      behind the group, never matches a node whose second child is refused for that operand,
      although the operand belongs to the third child. */
  lemma MisalignedComparesAgain<S>(
      accepts: Accepts<S>, root: Dag, a: Half, inner: seq<Item>, b: Half, m: Matched<S>)
    requires |root.kids| == 3
    requires forall s: S {:trigger accepts(s, b, root.kids[1])} :: accepts(s, b, root.kids[1]) == None
    ensures var items := GroupBetween(root.kind, a, inner, b);
            && Flat(items) != [] && Flat(items)[0] == Do(NodeType(root.kind))
            && !Aligned(0, 0, items) && CheckAll(accepts, root, Visits(START, Flat(items)), m) == None
  {
    var A, N, B := Leaf(OperandType(a)), Nested(inner), Leaf(OperandType(b));
    var rest := [A, N, B];
    AlignedOfThree(0, A, N, B);
    LeadingType(accepts, root.kind, rest, root, m);
    VisitsAreActual(GroupBetween(root.kind, a, inner, b));
    var v := Visit([], 1, Do(OperandType(b)));
    assert rest[1..] == [N, B] && [N, B][1..] == [B] && [B][1..] == [];
    assert Actual(0, [], 1, [B]) == [v] + [];
    assert Actual(0, [], 1, [N, B]) == ActualItem([], 1, N) + [v];
    var lead := [Visit([], 0, Do(NodeType(root.kind)))];
    var front := lead + (ActualItem([], 0, A) + ActualItem([], 1, N));
    assert lead + Actual(0, [], 0, rest) == front + [v];
    LastFails(accepts, root, front, v, m);
  }

  /** A pattern and a node of the pattern's kind that it should match and does not. */
  lemma MisalignedGoesWrong()
    ensures var inner := [Leaf(OperandType(1)), Leaf(OperandType(3))];
            var items := GroupBetween(7, 0, inner, 2);
            var root := Dag(7, 9, [Dag(0, 0, []), Dag(2, 8, [Dag(0, 1, []), Dag(0, 3, [])]), Dag(0, 2, [])]);
            var accepts: Accepts<bool> := (s, index, d: Dag) => if d.id == index then Some(s) else None;
            && Flat(items) != [] && Flat(items)[0] == Do(NodeType(root.kind))
            && Match(accepts, items, root, 0, Matched(true, [])).Some?
            && CheckAll(accepts, root, Visits(START, Flat(items)), Matched(true, [])) == None
  {
    var inner := [Leaf(OperandType(1)), Leaf(OperandType(3))];
    var rest := [Leaf(OperandType(0)), Nested(inner), Leaf(OperandType(2))];
    var child := Dag(2, 8, [Dag(0, 1, []), Dag(0, 3, [])]);
    var root := Dag(7, 9, [Dag(0, 0, []), child, Dag(0, 2, [])]);
    var accepts: Accepts<bool> := (s, index, d: Dag) => if d.id == index then Some(s) else None;
    MisalignedComparesAgain(accepts, root, 0, inner, 2, Matched(true, []));
    var m, n := Matched(true, []), Matched(true, [child]);
    LeadingType(accepts, 7, rest, root, m);
    assert rest == [rest[0]] + [rest[1], rest[2]] && [rest[1], rest[2]][1..] == [rest[2]];
    MatchNext(accepts, rest[0], [rest[1], rest[2]], root, 0, m);
    assert inner == [inner[0]] + [inner[1]] && [inner[1]] == [inner[1]] + [] && [rest[2]] == [rest[2]] + [];
    MatchNext(accepts, inner[0], [inner[1]], child, 0, n);
    MatchNext(accepts, inner[1], [], child, 1, n);
    MatchNext(accepts, rest[2], [], root, 2, n);
    assert m.(covered := m.covered + [child]) == n;
  }
}
