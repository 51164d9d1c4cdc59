/** Expressions as lists of nodes in postfix order, and their evaluation.

    The evaluator runs a stack machine over the list; next to the operand stack it
    keeps a stack of source ranges, one for each operand.  Its callbacks are
    abstract.  This module proves that the machine computes exactly what a direct
    recursion over the expression tree computes, and on exactly which lists. */
module ExprSpec {
  import opened Sequences
  import opened Wrappers
  import opened SourceRange

  datatype Kind =
    | Value
    | Unary
    | Binary
    | MemberAccess
    | MethodInvocation(nargs: int)
    | ClassInstanceCreation(nargs: int)
    | ArrayInstanceCreation
    | ArrayAccess
    | Cast

  datatype Node = Node(id: int, kind: Kind, loc: Range)

  predicate IsCall(kind: Kind) {
    kind.MethodInvocation? || kind.ClassInstanceCreation?
  }

  // The number of arguments an operator was built with
  function Nargs(kind: Kind): int {
    match kind
    case Value => 0
    case Unary => 1
    case MethodInvocation(n) => n
    case ClassInstanceCreation(n) => n
    case _ => 2
  }

  // How many operands an operator pops: a call always pops what it calls
  function Arity(kind: Kind): (k: nat)
    requires !kind.Value?
    ensures k > 0
  {
    if IsCall(kind) && Nargs(kind) <= 1 then 1 else Nargs(kind)
  }

  /** What an evaluator computes: a value for each value node, and for each operator a
      value from its operands, as delivered, and the source ranges of its arguments. */
  datatype Callbacks<!T> = Callbacks(
    mapValue: Node -> T,
    apply: (Node, seq<T>, seq<Range>) -> T)

  // Operands are delivered in source order, but the arguments of a call last one first
  function Deliver<T>(kind: Kind, operands: seq<T>): seq<T>
    requires operands != []
  {
    if IsCall(kind) then [operands[0]] + Reverse(operands[1..]) else operands
  }

  /* ---------------------------------------------------------------------- */
  // The stack machine
  /* ---------------------------------------------------------------------- */

  // Both stacks have their top at the end
  datatype Machine<T> = Machine(ops: seq<T>, locs: seq<Range>)

  // Merges `acc` with the last `k` ranges; None when an assertion fails
  function MergeDown(locs: seq<Range>, acc: Range, k: nat): Option<seq<Range>> {
    if k == 0 then Some(locs + [acc])
    else if locs == [] || !SameFile(acc, locs[|locs| - 1]) then None
    else MergeDown(locs[..|locs| - 1], Merge(acc, locs[|locs| - 1]), k - 1)
  }

  function MergeTop(locs: seq<Range>, k: nat): Option<seq<Range>>
    requires k > 0
  {
    if locs == [] then None else MergeDown(locs[..|locs| - 1], locs[|locs| - 1], k - 1)
  }

  // What a callback can ask for: the range of each argument
  function ArgLocations(kind: Kind, locs: seq<Range>): seq<Range> {
    if 1 <= Nargs(kind) <= |locs| then locs[|locs| - Nargs(kind)..] else []
  }

  // None when the operand stack underflows or merged ranges lie in different files
  function Step<T>(cb: Callbacks<T>, m: Machine<T>, node: Node): Option<Machine<T>> {
    if node.kind.Value? then
      Some(Machine(m.ops + [cb.mapValue(node)], m.locs + [node.loc]))
    else
      var k := Arity(node.kind);
      if |m.ops| < k then None
      else
        var rest, operands := m.ops[..|m.ops| - k], m.ops[|m.ops| - k..];
        var value := cb.apply(node, Deliver(node.kind, operands), ArgLocations(node.kind, m.locs));
        match MergeTop(m.locs, k)
        case None => None
        case Some(locs) => Some(Machine(rest + [value], locs))
  }

  // The stacks while the callback of a node runs
  function Called<T>(m: Machine<T>, node: Node): Option<Machine<T>> {
    if node.kind.Value? then Some(m.(locs := m.locs + [node.loc]))
    else if |m.ops| < Arity(node.kind) then None
    else Some(m.(ops := m.ops[..|m.ops| - Arity(node.kind)]))
  }

  // The same, for node `i` of a list that is evaluated; None when that callback is not reached
  function CalledAt<T>(cb: Callbacks<T>, locs: seq<Range>, nodes: seq<Node>, i: nat): Option<Machine<T>>
    requires i < |nodes|
  {
    match Run(cb, Machine([], locs), nodes[..i])
    case None => None
    case Some(m) => Called(m, nodes[i])
  }

  function Run<T>(cb: Callbacks<T>, m: Machine<T>, nodes: seq<Node>): Option<Machine<T>>
    decreases |nodes|
  {
    if nodes == [] then Some(m)
    else match Step(cb, m, nodes[0])
      case None => None
      case Some(next) => Run(cb, next, nodes[1..])
  }

  // The evaluator clears the operand stack first, but not the ranges, and demands
  // exactly one operand at the end
  function Evaluate<T>(cb: Callbacks<T>, start: Machine<T>, nodes: seq<Node>): Option<(T, seq<Range>)> {
    match Run(cb, Machine([], start.locs), nodes)
    case None => None
    case Some(m) => if |m.ops| == 1 then Some((m.ops[0], m.locs)) else None
  }

  /* ---------------------------------------------------------------------- */
  // In which order operands reach a callback
  /* ---------------------------------------------------------------------- */

  lemma {:induction false} ReverseAt<T>(xs: seq<T>, i: nat)
    requires i < |xs|
    ensures |Reverse(xs)| == |xs| && Reverse(xs)[i] == xs[|xs| - 1 - i]
    decreases |xs|
  {
    if |xs| > 1 {
      ReverseAt(xs[..|xs| - 1], if i > 0 then i - 1 else 0);
    }
  }

  lemma ReverseLength<T>(xs: seq<T>)
    ensures |Reverse(xs)| == |xs|
  {
    if xs != [] {
      ReverseAt(xs, 0);
    }
  }

  /** Operands are delivered in source order; of a call the first one, which is called, comes
      first, and then the arguments, last one first. */
  lemma DeliveredAt<T>(kind: Kind, xs: seq<T>)
    requires xs != []
    ensures !(kind.MethodInvocation? || kind.ClassInstanceCreation?) ==> Deliver(kind, xs) == xs
    ensures kind.MethodInvocation? || kind.ClassInstanceCreation? ==>
              && |Deliver(kind, xs)| == |xs| && Deliver(kind, xs)[0] == xs[0]
              && forall i :: 1 <= i < |xs| ==> Deliver(kind, xs)[i] == xs[|xs| - i]
  {
    ReverseLength(xs[1..]);
    forall k | 0 <= k < |xs| - 1
      ensures Reverse(xs[1..])[k] == xs[|xs| - 1 - k]
    {
      ReverseAt(xs[1..], k);
    }
  }

  // These are the operands `xs`, as the program hands them to a callback
  ghost predicate InOrder<T>(kind: Kind, xs: seq<T>, delivered: seq<T>) {
    match kind
    case MethodInvocation(_) => ArgumentsBackwards(xs, delivered)
    case ClassInstanceCreation(_) => ArgumentsBackwards(xs, delivered)
    case _ => delivered == xs
  }

  ghost predicate ArgumentsBackwards<T>(xs: seq<T>, delivered: seq<T>) {
    |delivered| == |xs| > 0 && delivered[0] == xs[0] && forall i :: 1 <= i < |xs| ==> delivered[i] == xs[|xs| - i]
  }

  // How many operands there are: two, but one for a unary operator, and for a call at least
  // what is called
  predicate Takes(kind: Kind, k: nat) {
    match kind
    case Value => k == 0
    case Unary => k == 1
    case MethodInvocation(n) => k == if n <= 1 then 1 else n
    case ClassInstanceCreation(n) => k == if n <= 1 then 1 else n
    case _ => k == 2
  }

  lemma DeliverIsInOrder<T>(kind: Kind, xs: seq<T>, delivered: seq<T>)
    requires !kind.Value? && Takes(kind, |xs|)
    ensures |xs| == Arity(kind) && (InOrder(kind, xs, delivered) <==> delivered == Deliver(kind, xs))
  {
    DeliveredAt(kind, xs);
  }

  // The ranges a callback can ask for: those of its operands, if it was built with any
  ghost predicate Located(kind: Kind, locs: seq<Range>, ranges: seq<Range>) {
    match kind
    case MethodInvocation(n) => ranges == if n >= 1 then locs else []
    case ClassInstanceCreation(n) => ranges == if n >= 1 then locs else []
    case _ => ranges == locs
  }

  /** An operator takes its operands from the top of the stack, hands them to its callback in
      order, with their ranges, and leaves the value there. */
  lemma {:induction false} StepDelivers<T>(
      cb: Callbacks<T>, rest: seq<T>, xs: seq<T>, below: seq<Range>, locs: seq<Range>,
      node: Node, delivered: seq<T>, ranges: seq<Range>)
    requires !node.kind.Value? && Takes(node.kind, |xs|) && |locs| == |xs|
    requires InOrder(node.kind, xs, delivered) && Located(node.kind, locs, ranges)
    requires Step(cb, Machine(rest + xs, below + locs), node).Some?
    ensures Step(cb, Machine(rest + xs, below + locs), node).value.ops == rest + [cb.apply(node, delivered, ranges)]
  {
    DeliverIsInOrder(node.kind, xs, delivered);
    assert (rest + xs)[|rest|..] == xs && (rest + xs)[..|rest|] == rest;
    assert (below + locs)[|below|..] == locs;
  }

  /* ---------------------------------------------------------------------- */
  // Trees
  /* ---------------------------------------------------------------------- */

  datatype Tree = Leaf(node: Node) | Branch(node: Node, kids: seq<Tree>)

  predicate WellFormed(t: Tree)
    decreases t, 1
  {
    match t
    case Leaf(node) => node.kind.Value?
    case Branch(node, kids) => !node.kind.Value? && |kids| == Arity(node.kind) && AllWellFormed(kids)
  }

  predicate AllWellFormed(ts: seq<Tree>)
    decreases ts, 0
  {
    ts == [] || (WellFormed(ts[0]) && AllWellFormed(ts[1..]))
  }

  function Postfix(t: Tree): seq<Node>
    decreases t, 1
  {
    match t
    case Leaf(node) => [node]
    case Branch(node, kids) => PostfixAll(kids) + [node]
  }

  function PostfixAll(ts: seq<Tree>): seq<Node>
    decreases ts, 0
  {
    if ts == [] then [] else Postfix(ts[0]) + PostfixAll(ts[1..])
  }

  // The ranges of the values in a tree, from left to right
  function Ranges(t: Tree): seq<Range>
    decreases t, 1
  {
    match t
    case Leaf(node) => [node.loc]
    case Branch(_, kids) => RangesAll(kids)
  }

  function RangesAll(ts: seq<Tree>): seq<Range>
    decreases ts, 0
  {
    if ts == [] then [] else Ranges(ts[0]) + RangesAll(ts[1..])
  }

  // Merges ranges from right to left; None when two of them lie in different files
  function MergeAll(ranges: seq<Range>): Option<Range>
    requires ranges != []
  {
    if |ranges| == 1 then Some(ranges[0])
    else match MergeAll(ranges[1..])
      case None => None
      case Some(acc) => if SameFile(acc, ranges[0]) then Some(Merge(acc, ranges[0])) else None
  }

  /** The meaning of a tree by direct recursion: its value and its bounding box. */
  function Denote<T>(cb: Callbacks<T>, t: Tree): Option<(T, Range)>
    requires WellFormed(t)
    decreases t, 1
  {
    match t
    case Leaf(node) => Some((cb.mapValue(node), node.loc))
    case Branch(node, kids) =>
      match DenoteAll(cb, kids)
      case None => None
      case Some((values, boxes)) =>
        match MergeAll(boxes)
        case None => None
        case Some(box) =>
          var locations := if Nargs(node.kind) >= 1 then boxes else [];
          Some((cb.apply(node, Deliver(node.kind, values), locations), box))
  }

  function DenoteAll<T>(cb: Callbacks<T>, ts: seq<Tree>): (r: Option<(seq<T>, seq<Range>)>)
    requires AllWellFormed(ts)
    ensures r.Some? ==> |r.value.0| == |r.value.1| == |ts|
    decreases ts, 0
  {
    if ts == [] then Some(([], []))
    else
      match Denote(cb, ts[0])
      case None => None
      case Some((v, box)) =>
        match DenoteAll(cb, ts[1..])
        case None => None
        case Some((vs, boxes)) => Some(([v] + vs, [box] + boxes))
  }

  lemma {:induction false} DenoteAllAt<T>(cb: Callbacks<T>, ts: seq<Tree>, i: nat)
    requires AllWellFormed(ts) && DenoteAll(cb, ts).Some? && i < |ts|
    ensures WellFormed(ts[i]) && Denote(cb, ts[i]).Some?
    ensures Denote(cb, ts[i]).value == (DenoteAll(cb, ts).value.0[i], DenoteAll(cb, ts).value.1[i])
    decreases |ts|
  {
    if i > 0 {
      DenoteAllAt(cb, ts[1..], i - 1);
    }
  }

  /** The meaning of an operator comes from the meanings of its operands: their values are
      handed to its callback in order, with their ranges. */
  lemma {:induction false} DenoteDelivers<T>(
      cb: Callbacks<T>, node: Node, kids: seq<Tree>, xs: seq<T>, locs: seq<Range>,
      delivered: seq<T>, ranges: seq<Range>)
    requires WellFormed(Branch(node, kids)) && Denote(cb, Branch(node, kids)).Some?
    requires |xs| == |locs| == |kids|
    requires forall i :: 0 <= i < |kids| ==> WellFormed(kids[i]) && Denote(cb, kids[i]) == Some((xs[i], locs[i]))
    requires InOrder(node.kind, xs, delivered) && Located(node.kind, locs, ranges)
    ensures !node.kind.Value? && Takes(node.kind, |kids|)
    ensures Denote(cb, Branch(node, kids)).value.0 == cb.apply(node, delivered, ranges)
  {
    var (values, boxes) := DenoteAll(cb, kids).value;
    forall i | 0 <= i < |kids|
      ensures values[i] == xs[i] && boxes[i] == locs[i]
    {
      DenoteAllAt(cb, kids, i);
    }
    assert values == xs && boxes == locs;
    DeliverIsInOrder(node.kind, xs, delivered);
  }

  /** So a binary operation is applied to its left operand and then its right one, which are
      written in this order before the operator. */
  lemma {:induction false} LeftBeforeRight<T>(cb: Callbacks<T>, node: Node, left: Tree, right: Tree)
    requires node.kind.Binary? || node.kind.MemberAccess? || node.kind.ArrayInstanceCreation?
             || node.kind.ArrayAccess? || node.kind.Cast?
    requires WellFormed(left) && WellFormed(right)
    ensures WellFormed(Branch(node, [left, right]))
    ensures Postfix(Branch(node, [left, right])) == Postfix(left) + Postfix(right) + [node]
    ensures Denote(cb, Branch(node, [left, right])).Some? ==>
              && Denote(cb, left).Some? && Denote(cb, right).Some?
              && var (x, y) := (Denote(cb, left).value, Denote(cb, right).value);
                 Denote(cb, Branch(node, [left, right])).value.0 == cb.apply(node, [x.0, y.0], [x.1, y.1])
  {
    var kids := [left, right];
    assert kids[1..] == [right] && [right][1..] == [];
    assert AllWellFormed([right]) && AllWellFormed(kids);
    assert PostfixAll([right]) == Postfix(right) + [] == Postfix(right);
    if Denote(cb, Branch(node, kids)).Some? {
      DenoteAllAt(cb, kids, 0);
      DenoteAllAt(cb, kids, 1);
      var (x, y) := (Denote(cb, left).value, Denote(cb, right).value);
      DenoteDelivers(cb, node, kids, [x.0, y.0], [x.1, y.1], [x.0, y.0], [x.1, y.1]);
    }
  }

  /* ---------------------------------------------------------------------- */
  // Rebuilding the trees of a list
  /* ---------------------------------------------------------------------- */

  // The machine's moves on trees instead of values
  function ParseStep(ts: seq<Tree>, node: Node): Option<seq<Tree>> {
    if node.kind.Value? then Some(ts + [Leaf(node)])
    else
      var k := Arity(node.kind);
      if |ts| < k then None else Some(ts[..|ts| - k] + [Branch(node, ts[|ts| - k..])])
  }

  function Parse(ts: seq<Tree>, nodes: seq<Node>): Option<seq<Tree>>
    decreases |nodes|
  {
    if nodes == [] then Some(ts)
    else match ParseStep(ts, nodes[0])
      case None => None
      case Some(next) => Parse(next, nodes[1..])
  }

  lemma {:induction false} AllWellFormedConcat(a: seq<Tree>, b: seq<Tree>)
    ensures AllWellFormed(a + b) <==> AllWellFormed(a) && AllWellFormed(b)
  {
    if a == [] {
      assert a + b == b;
    } else {
      assert (a + b)[1..] == a[1..] + b;
      AllWellFormedConcat(a[1..], b);
    }
  }

  lemma {:induction false} PostfixAllConcat(a: seq<Tree>, b: seq<Tree>)
    ensures PostfixAll(a + b) == PostfixAll(a) + PostfixAll(b)
  {
    if a == [] {
      assert a + b == b;
    } else {
      assert (a + b)[1..] == a[1..] + b;
      PostfixAllConcat(a[1..], b);
    }
  }

  lemma {:induction false} ParseConcat(ts: seq<Tree>, a: seq<Node>, b: seq<Node>)
    ensures Parse(ts, a + b) == match Parse(ts, a) case None => None case Some(us) => Parse(us, b)
    decreases |a|
  {
    if a == [] {
      assert a + b == b;
    } else {
      assert (a + b)[1..] == a[1..] + b;
      match ParseStep(ts, a[0])
      case None =>
      case Some(next) => ParseConcat(next, a[1..], b);
    }
  }

  // Parsing the postfix form of a tree pushes exactly that tree
  lemma {:induction false} ParsePostfix(ts: seq<Tree>, t: Tree)
    requires WellFormed(t)
    ensures Parse(ts, Postfix(t)) == Some(ts + [t])
    decreases t, 1
  {
    match t
    case Leaf(node) =>
      assert Parse(ts + [t], [node][1..]) == Some(ts + [t]);
    case Branch(node, kids) =>
      ParsePostfixAll(ts, kids);
      ParseConcat(ts, PostfixAll(kids), [node]);
      assert Parse(ts + [t], [node][1..]) == Some(ts + [t]);
      assert (ts + kids)[|ts|..] == kids && (ts + kids)[..|ts|] == ts;
  }

  lemma {:induction false} ParsePostfixAll(ts: seq<Tree>, us: seq<Tree>)
    requires AllWellFormed(us)
    ensures Parse(ts, PostfixAll(us)) == Some(ts + us)
    decreases us, 0
  {
    if us == [] {
      assert ts + us == ts;
    } else {
      ParsePostfix(ts, us[0]);
      ParsePostfixAll(ts + [us[0]], us[1..]);
      ParseConcat(ts, Postfix(us[0]), PostfixAll(us[1..]));
      assert ts + [us[0]] + us[1..] == ts + us;
    }
  }

  // Whatever is parsed, the trees are well formed and spell the nodes read so far
  lemma {:induction false} ParseSpells(ts: seq<Tree>, nodes: seq<Node>)
    requires AllWellFormed(ts) && Parse(ts, nodes).Some?
    ensures AllWellFormed(Parse(ts, nodes).value)
    ensures PostfixAll(Parse(ts, nodes).value) == PostfixAll(ts) + nodes
    decreases |nodes|
  {
    if nodes != [] {
      var next := ParseStep(ts, nodes[0]).value;
      ParseStepSpells(ts, nodes[0]);
      ParseSpells(next, nodes[1..]);
      assert PostfixAll(ts) + [nodes[0]] + nodes[1..] == PostfixAll(ts) + nodes;
    }
  }

  lemma ParseStepSpells(ts: seq<Tree>, node: Node)
    requires AllWellFormed(ts) && ParseStep(ts, node).Some?
    ensures AllWellFormed(ParseStep(ts, node).value)
    ensures PostfixAll(ParseStep(ts, node).value) == PostfixAll(ts) + [node]
  {
    if node.kind.Value? {
      AllWellFormedConcat(ts, [Leaf(node)]);
      PostfixAllConcat(ts, [Leaf(node)]);
    } else {
      var n := |ts| - Arity(node.kind);
      var kids := ts[n..];
      assert ts == ts[..n] + kids;
      AllWellFormedConcat(ts[..n], kids);
      AllWellFormedConcat(ts[..n], [Branch(node, kids)]);
      PostfixAllConcat(ts[..n], kids);
      PostfixAllConcat(ts[..n], [Branch(node, kids)]);
      assert PostfixAll([Branch(node, kids)]) == PostfixAll(kids) + [node];
    }
  }

  /** The postfix form determines the tree. */
  lemma PostfixIsInjective(t: Tree, u: Tree)
    requires WellFormed(t) && WellFormed(u) && Postfix(t) == Postfix(u)
    ensures t == u
  {
    ParsePostfix([], t);
    ParsePostfix([], u);
    assert ([] + [t])[0] == t && ([] + [u])[0] == u;
  }

  /** A list parses to a single tree exactly when it is the postfix form of one. */
  lemma ParsesToTreeIff(nodes: seq<Node>)
    ensures (exists t :: WellFormed(t) && Postfix(t) == nodes) <==>
            (Parse([], nodes).Some? && |Parse([], nodes).value| == 1)
  {
    if t :| WellFormed(t) && Postfix(t) == nodes {
      ParsePostfix([], t);
    }
    if Parse([], nodes).Some? && |Parse([], nodes).value| == 1 {
      var ts := Parse([], nodes).value;
      ParseSpells([], nodes);
      assert ts[1..] == [] && PostfixAll(ts) == Postfix(ts[0]) + [] == Postfix(ts[0]);
      assert PostfixAll([]) + nodes == nodes;
      assert WellFormed(ts[0]) && Postfix(ts[0]) == nodes;
    }
  }

  /* ---------------------------------------------------------------------- */
  // The machine computes the meaning
  /* ---------------------------------------------------------------------- */

  // The stack with a merged range on top, if the merge went through
  function Pushed(below: seq<Range>, box: Option<Range>): Option<seq<Range>> {
    match box
    case None => None
    case Some(r) => Some(below + [r])
  }

  lemma {:induction false} MergeDownIsMergeAll(below: seq<Range>, ranges: seq<Range>, acc: Range)
    ensures MergeDown(below + ranges, acc, |ranges|) == Pushed(below, MergeOnto(ranges, acc))
    decreases |ranges|
  {
    if ranges == [] {
      assert below + ranges == below;
    } else {
      var n := |ranges| - 1;
      assert (below + ranges)[..|below| + n] == below + ranges[..n];
      if SameFile(acc, ranges[n]) {
        MergeDownIsMergeAll(below, ranges[..n], Merge(acc, ranges[n]));
      }
    }
  }

  // Merges `acc` with ranges from right to left
  function MergeOnto(ranges: seq<Range>, acc: Range): Option<Range> {
    if ranges == [] then Some(acc)
    else if SameFile(acc, ranges[|ranges| - 1]) then
      MergeOnto(ranges[..|ranges| - 1], Merge(acc, ranges[|ranges| - 1]))
    else None
  }

  lemma {:induction false} MergeOntoIsMergeAll(ranges: seq<Range>, last: Range)
    ensures MergeAll(ranges + [last]) == MergeOnto(ranges, last)
    decreases |ranges|
  {
    if ranges == [] {
      assert ranges + [last] == [last];
    } else {
      MergeFirstLast(ranges, last);
      assert (ranges + [last])[1..] == ranges[1..] + [last];
      MergeOntoIsMergeAll(ranges[1..], last);
    }
  }

  lemma {:induction false} MergeFirstLast(ranges: seq<Range>, acc: Range)
    requires ranges != []
    ensures MergeOnto(ranges, acc) ==
            match MergeOnto(ranges[1..], acc)
            case None => None
            case Some(box) => if SameFile(box, ranges[0]) then Some(Merge(box, ranges[0])) else None
    decreases |ranges|
  {
    var n := |ranges| - 1;
    if n > 0 {
      assert ranges[1..][..n - 1] == ranges[..n][1..];
      if SameFile(acc, ranges[n]) {
        MergeFirstLast(ranges[..n], Merge(acc, ranges[n]));
      }
    }
  }

  lemma MergeTopStarts(below: seq<Range>, front: seq<Range>, last: Range)
    ensures MergeTop((below + front) + [last], |front| + 1) == MergeDown(below + front, last, |front|)
  {
    var locs := (below + front) + [last];
    assert locs[..|locs| - 1] == below + front;
  }

  lemma MergeTopIsMergeAll(below: seq<Range>, ranges: seq<Range>)
    requires ranges != []
    ensures MergeTop(below + ranges, |ranges|) == Pushed(below, MergeAll(ranges))
  {
    var n := |ranges| - 1;
    var front, last := ranges[..n], ranges[n];
    assert front + [last] == ranges;
    Regroup(below, front, [last]);
    MergeTopStarts(below, front, last);
    MergeDownIsMergeAll(below, front, last);
    MergeOntoIsMergeAll(front, last);
  }

  // Two lists of values and ranges, one after the other
  function Joined<T>(a: Option<(seq<T>, seq<Range>)>, b: Option<(seq<T>, seq<Range>)>): Option<(seq<T>, seq<Range>)> {
    if a.None? || b.None? then None else Some((a.value.0 + b.value.0, a.value.1 + b.value.1))
  }

  lemma JoinedFirst<T>(v: T, box: Range, a: (seq<T>, seq<Range>), b: (seq<T>, seq<Range>))
    ensures [v] + (a.0 + b.0) == ([v] + a.0) + b.0 && [box] + (a.1 + b.1) == ([box] + a.1) + b.1
  {
  }

  lemma {:induction false} DenoteAllConcat<T>(cb: Callbacks<T>, a: seq<Tree>, b: seq<Tree>)
    requires AllWellFormed(a) && AllWellFormed(b)
    ensures AllWellFormed(a + b)
    ensures DenoteAll(cb, a + b) == Joined(DenoteAll(cb, a), DenoteAll(cb, b))
    decreases |a|
  {
    AllWellFormedConcat(a, b);
    if a == [] {
      assert a + b == b;
      if DenoteAll(cb, b).Some? {
        var (vb, bb) := DenoteAll(cb, b).value;
        assert [] + vb == vb && [] + bb == bb;
      }
    } else {
      assert (a + b)[1..] == a[1..] + b && (a + b)[0] == a[0];
      DenoteAllConcat(cb, a[1..], b);
      if Denote(cb, a[0]).Some? && DenoteAll(cb, a[1..]).Some? && DenoteAll(cb, b).Some? {
        var (v, box) := Denote(cb, a[0]).value;
        JoinedFirst(v, box, DenoteAll(cb, a[1..]).value, DenoteAll(cb, b).value);
      }
    }
  }

  lemma DenoteOne<T>(cb: Callbacks<T>, t: Tree)
    requires WellFormed(t)
    ensures AllWellFormed([t])
    ensures DenoteAll(cb, [t]) == match Denote(cb, t) case None => None case Some((v, box)) => Some(([v], [box]))
  {
    assert [t][1..] == [];
    if Denote(cb, t).Some? {
      var (v, box) := Denote(cb, t).value;
      assert [v] + [] == [v] && [box] + [] == [box];
    }
  }

  // What the machine holds when the trees read so far are `ts`, above `below`
  function Holding<T>(cb: Callbacks<T>, below: seq<Range>, ts: seq<Tree>): Option<Machine<T>>
    requires AllWellFormed(ts)
  {
    match DenoteAll(cb, ts)
    case None => None
    case Some((values, boxes)) => Some(Machine(values, below + boxes))
  }

  lemma ValueStepHolds<T>(cb: Callbacks<T>, below: seq<Range>, ts: seq<Tree>, node: Node)
    requires AllWellFormed(ts) && Holding(cb, below, ts).Some? && node.kind.Value?
    ensures AllWellFormed(ts + [Leaf(node)])
    ensures Step(cb, Holding(cb, below, ts).value, node) == Holding(cb, below, ts + [Leaf(node)])
  {
    DenoteOne(cb, Leaf(node));
    DenoteAllConcat(cb, ts, [Leaf(node)]);
    var (_, boxes) := DenoteAll(cb, ts).value;
    Regroup(below, boxes, [node.loc]);
  }

  lemma OperatorStep<T>(cb: Callbacks<T>, rest: seq<T>, xs: seq<T>, below: seq<Range>, locs: seq<Range>, node: Node)
    requires !node.kind.Value? && |xs| == |locs| == Arity(node.kind)
    ensures Step(cb, Machine(rest + xs, below + locs), node) ==
            match MergeAll(locs)
            case None => None
            case Some(box) =>
              var value := cb.apply(node, Deliver(node.kind, xs), if Nargs(node.kind) >= 1 then locs else []);
              Some(Machine(rest + [value], below + [box]))
  {
    assert (rest + xs)[..|rest|] == rest && (rest + xs)[|rest|..] == xs;
    MergeTopIsMergeAll(below, locs);
    assert ArgLocations(node.kind, below + locs) == if Nargs(node.kind) >= 1 then locs else [];
  }

  lemma OperatorStepHolds<T>(cb: Callbacks<T>, below: seq<Range>, rest: seq<Tree>, kids: seq<Tree>, node: Node)
    requires AllWellFormed(rest) && AllWellFormed(kids) && !node.kind.Value? && |kids| == Arity(node.kind)
    requires AllWellFormed(rest + kids) && Holding(cb, below, rest + kids).Some?
    ensures AllWellFormed(rest + [Branch(node, kids)])
    ensures Step(cb, Holding(cb, below, rest + kids).value, node) == Holding(cb, below, rest + [Branch(node, kids)])
  {
    var m := Holding(cb, below, rest + kids).value;
    DenoteAllConcat(cb, rest, kids);
    DenoteOne(cb, Branch(node, kids));
    DenoteAllConcat(cb, rest, [Branch(node, kids)]);
    var (vr, br) := DenoteAll(cb, rest).value;
    var (vk, bk) := DenoteAll(cb, kids).value;
    Regroup(below, br, bk);
    assert m == Machine(vr + vk, (below + br) + bk);
    OperatorStep(cb, vr, vk, below + br, bk, node);
    if MergeAll(bk).Some? {
      Regroup(below, br, [MergeAll(bk).value]);
    }
  }

  /** One step of the machine follows one step of rebuilding the trees. */
  lemma StepHolds<T>(cb: Callbacks<T>, below: seq<Range>, ts: seq<Tree>, node: Node)
    requires AllWellFormed(ts) && Holding(cb, below, ts).Some?
    ensures match ParseStep(ts, node)
            case None => Step(cb, Holding(cb, below, ts).value, node) == None
            case Some(next) =>
              AllWellFormed(next) && Step(cb, Holding(cb, below, ts).value, node) == Holding(cb, below, next)
  {
    if node.kind.Value? {
      ValueStepHolds(cb, below, ts, node);
    } else if Arity(node.kind) <= |ts| {
      var n := |ts| - Arity(node.kind);
      assert ts == ts[..n] + ts[n..];
      AllWellFormedConcat(ts[..n], ts[n..]);
      OperatorStepHolds(cb, below, ts[..n], ts[n..], node);
    }
  }

  // A tree that cannot be evaluated stays on the stack, or inside a larger tree
  lemma {:induction false} LostStaysLost<T>(cb: Callbacks<T>, below: seq<Range>, ts: seq<Tree>, nodes: seq<Node>)
    requires AllWellFormed(ts) && Holding(cb, below, ts).None? && Parse(ts, nodes).Some?
    ensures AllWellFormed(Parse(ts, nodes).value) && Holding(cb, below, Parse(ts, nodes).value).None?
    decreases |nodes|
  {
    if nodes != [] {
      var node := nodes[0];
      var next := ParseStep(ts, node).value;
      ParseStepSpells(ts, node);
      if node.kind.Value? {
        DenoteOne(cb, Leaf(node));
        DenoteAllConcat(cb, ts, [Leaf(node)]);
      } else {
        var n := |ts| - Arity(node.kind);
        assert ts == ts[..n] + ts[n..];
        AllWellFormedConcat(ts[..n], ts[n..]);
        DenoteAllConcat(cb, ts[..n], ts[n..]);
        DenoteOne(cb, Branch(node, ts[n..]));
        DenoteAllConcat(cb, ts[..n], [Branch(node, ts[n..])]);
      }
      LostStaysLost(cb, below, next, nodes[1..]);
    }
  }

  lemma {:induction false} RunHolds<T>(cb: Callbacks<T>, below: seq<Range>, ts: seq<Tree>, nodes: seq<Node>)
    requires AllWellFormed(ts) && Holding(cb, below, ts).Some?
    ensures match Parse(ts, nodes)
            case None => Run(cb, Holding(cb, below, ts).value, nodes) == None
            case Some(us) =>
              AllWellFormed(us) && Run(cb, Holding(cb, below, ts).value, nodes) == Holding(cb, below, us)
    decreases |nodes|
  {
    if nodes != [] {
      StepHolds(cb, below, ts, nodes[0]);
      match ParseStep(ts, nodes[0])
      case None =>
      case Some(next) =>
        if Holding(cb, below, next).Some? {
          RunHolds(cb, below, next, nodes[1..]);
        } else if Parse(next, nodes[1..]).Some? {
          LostStaysLost(cb, below, next, nodes[1..]);
        }
    }
  }

  // What an evaluation returns for a tree: its value, and its box above the old ranges
  function Result<T>(below: seq<Range>, meaning: Option<(T, Range)>): Option<(T, seq<Range>)> {
    match meaning
    case None => None
    case Some((value, box)) => Some((value, below + [box]))
  }

  lemma EvaluateParsed<T>(cb: Callbacks<T>, start: Machine<T>, nodes: seq<Node>)
    ensures match Parse([], nodes)
            case Some(ts) =>
              && AllWellFormed(ts)
              && Evaluate(cb, start, nodes) == if |ts| == 1 then Result(start.locs, Denote(cb, ts[0])) else None
            case None => Evaluate(cb, start, nodes) == None
  {
    assert start.locs + [] == start.locs;
    assert Holding(cb, start.locs, []) == Some(Machine([], start.locs));
    RunHolds(cb, start.locs, [], nodes);
    match Parse([], nodes)
    case Some(ts) =>
      if |ts| == 1 {
        assert ts == [ts[0]];
        DenoteOne(cb, ts[0]);
      }
    case None =>
  }

  /** Evaluating the postfix form of a tree gives the meaning of the tree, whatever an
      earlier evaluation left on the two stacks; the ranges left stay below the box. */
  lemma EvaluatePostfix<T>(cb: Callbacks<T>, start: Machine<T>, t: Tree)
    requires WellFormed(t)
    ensures Evaluate(cb, start, Postfix(t)) == Result(start.locs, Denote(cb, t))
  {
    ParsePostfix([], t);
    assert [] + [t] == [t];
    EvaluateParsed(cb, start, Postfix(t));
  }

  ghost predicate OneFile(ranges: seq<Range>) {
    forall i, j :: 0 <= i < |ranges| && 0 <= j < |ranges| ==> SameFile(ranges[i], ranges[j])
  }

  // Merging the boxes of neighbouring trees gives the box of all their ranges
  lemma {:induction false} MergedBoxes<T>(cb: Callbacks<T>, ts: seq<Tree>)
    requires AllWellFormed(ts) && ts != [] && DenoteAll(cb, ts).Some?
    ensures RangesAll(ts) != []
    ensures MergeAll(DenoteAll(cb, ts).value.1).Some? <==> OneFile(RangesAll(ts))
    ensures MergeAll(DenoteAll(cb, ts).value.1).Some? ==>
              var box := MergeAll(DenoteAll(cb, ts).value.1).value;
              IsBox(box, RangesAll(ts)) && SameFile(box, RangesAll(ts)[0])
    decreases ts, 0
  {
    DenoteBox(cb, ts[0]);
    var xs, ys := RangesAll(ts[1..]), Ranges(ts[0]);
    assert RangesAll(ts) == ys + xs && RangesAll(ts)[0] == ys[0];
    if |ts| == 1 {
      assert ts[1..] == [] && ys + [] == ys;
    } else {
      MergedBoxes(cb, ts[1..]);
      var boxes := DenoteAll(cb, ts).value.1;
      assert boxes[1..] == DenoteAll(cb, ts[1..]).value.1;
      OneFileConcat(ys, xs);
      if MergeAll(boxes[1..]).Some? && SameFile(MergeAll(boxes[1..]).value, boxes[0]) {
        MergeIsBox(MergeAll(boxes[1..]).value, boxes[0], xs, ys);
      }
    }
  }

  lemma OneFileConcat(a: seq<Range>, b: seq<Range>)
    requires a != [] && b != []
    ensures OneFile(a + b) <==> OneFile(a) && OneFile(b) && SameFile(a[0], b[0])
  {
    if OneFile(a + b) {
      assert forall i :: 0 <= i < |a| ==> a[i] == (a + b)[i];
      assert forall i :: 0 <= i < |b| ==> b[i] == (a + b)[|a| + i];
    }
    if OneFile(a) && OneFile(b) && SameFile(a[0], b[0]) {
      assert forall i :: 0 <= i < |a + b| ==> SameFile((a + b)[i], a[0]);
    }
  }

  /** A tree has a meaning exactly when its values lie in one file, and then its range
      is the bounding box of all of them. */
  lemma {:induction false} DenoteBox<T>(cb: Callbacks<T>, t: Tree)
    requires WellFormed(t)
    ensures Ranges(t) != []
    ensures Denote(cb, t).Some? <==> OneFile(Ranges(t))
    ensures Denote(cb, t).Some? ==>
              IsBox(Denote(cb, t).value.1, Ranges(t)) && SameFile(Denote(cb, t).value.1, Ranges(t)[0])
    decreases t, 1
  {
    match t
    case Leaf(node) =>
      LeafBox(node.loc);
    case Branch(node, kids) =>
      DenoteAllBoxes(cb, kids);
      if DenoteAll(cb, kids).Some? {
        MergedBoxes(cb, kids);
      }
  }

  lemma LeafBox(r: Range)
    ensures IsBox(r, [r])
  {
    assert [r][0] == r;
    if r.IsValid() {
      assert HasValid([r]);
    }
  }

  /** During an operator's callback, the range of each argument is the bounding box of
      the ranges of that operand's values. */
  lemma {:induction false} DenoteAllBoxes<T>(cb: Callbacks<T>, ts: seq<Tree>)
    requires AllWellFormed(ts)
    ensures ts != [] ==> RangesAll(ts) != []
    ensures OneFile(RangesAll(ts)) ==> DenoteAll(cb, ts).Some?
    ensures DenoteAll(cb, ts).Some? ==>
              forall k :: 0 <= k < |ts| ==> IsBox(DenoteAll(cb, ts).value.1[k], Ranges(ts[k]))
    decreases ts, 0
  {
    if ts != [] {
      DenoteBox(cb, ts[0]);
      DenoteAllBoxes(cb, ts[1..]);
      if ts[1..] != [] {
        OneFileConcat(Ranges(ts[0]), RangesAll(ts[1..]));
      } else {
        assert Ranges(ts[0]) + [] == Ranges(ts[0]);
      }
    }
  }

  /** An evaluation succeeds exactly on the postfix forms of trees whose values lie in
      one file, independent of callbacks and leftovers. */
  lemma EvaluatesIff<T>(cb: Callbacks<T>, start: Machine<T>, nodes: seq<Node>)
    ensures Evaluate(cb, start, nodes).Some? <==>
            exists t :: WellFormed(t) && Postfix(t) == nodes && OneFile(Ranges(t))
  {
    EvaluateParsed(cb, start, nodes);
    if t :| WellFormed(t) && Postfix(t) == nodes && OneFile(Ranges(t)) {
      EvaluatePostfix(cb, start, t);
      DenoteBox(cb, t);
    }
    if Evaluate(cb, start, nodes).Some? {
      ParsesToTreeIff(nodes);
      var t :| WellFormed(t) && Postfix(t) == nodes;
      EvaluatePostfix(cb, start, t);
      DenoteBox(cb, t);
    }
  }

  /** Leftovers of earlier evaluations, finished or not, change nothing but what lies
      below: same success, same value, and the old ranges are still there. */
  lemma LeftoversDoNotMatter<T>(cb: Callbacks<T>, a: Machine<T>, b: Machine<T>, nodes: seq<Node>)
    ensures Evaluate(cb, a, nodes).Some? <==> Evaluate(cb, b, nodes).Some?
    ensures Evaluate(cb, a, nodes).Some? ==>
              var (va, la) := Evaluate(cb, a, nodes).value;
              var (vb, lb) := Evaluate(cb, b, nodes).value;
              && va == vb && a.locs <= la && b.locs <= lb
              && la[|a.locs|..] == lb[|b.locs|..] && |la| == |a.locs| + 1
  {
    EvaluateParsed(cb, a, nodes);
    EvaluateParsed(cb, b, nodes);
  }

  /** Every callback of a list that evaluates is reached, and may then throw. */
  lemma EveryCallbackIsReached<T>(cb: Callbacks<T>, start: Machine<T>, nodes: seq<Node>, i: nat)
    requires Evaluate(cb, start, nodes).Some? && i < |nodes|
    ensures CalledAt(cb, start.locs, nodes, i).Some?
  {
    RunReaches(cb, Machine([], start.locs), nodes, i);
  }

  lemma {:induction false} RunReaches<T>(cb: Callbacks<T>, m: Machine<T>, nodes: seq<Node>, i: nat)
    requires Run(cb, m, nodes).Some? && i < |nodes|
    ensures Run(cb, m, nodes[..i]).Some? && Called(Run(cb, m, nodes[..i]).value, nodes[i]).Some?
    decreases i
  {
    if i > 0 {
      RunReaches(cb, Step(cb, m, nodes[0]).value, nodes[1..], i - 1);
      assert nodes[..i][0] == nodes[0] && nodes[..i][1..] == nodes[1..][..i - 1];
    }
  }
}
