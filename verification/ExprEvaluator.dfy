/** The generic expression evaluator over linked node lists.

    The callbacks compute values and may relink nodes.  Locks protect the part of the
    list that is still to be read: the evaluation reads the nodes of the list it was
    given, in their order, whatever the callbacks relink. */
module ExprEvaluator {
  import opened Sequences
  import opened Wrappers
  import opened SourceRange
  import opened ExprNodes
  import Spec = ExprSpec

  // A callback's request to make `next` the successor of `target`
  datatype Relink = Relink(target: ExprNode, next: ExprNode?)

  ghost function Targets(requests: seq<Relink>): set<ExprNode> {
    set i | 0 <= i < |requests| :: requests[i].target
  }

  ghost function AllTargets(script: seq<seq<Relink>>): set<ExprNode> {
    set i, j | 0 <= i < |script| && 0 <= j < |script[i]| :: script[i][j].target
  }

  ghost function AllNodes(nodes: seq<ExprNode>, script: seq<seq<Relink>>): set<ExprNode> {
    AllTargets(script) + set i | 0 <= i < |nodes| :: nodes[i]
  }

  // The successor of `node` after some requests
  ghost function LastNext(requests: seq<Relink>, node: ExprNode, next: ExprNode?): ExprNode? {
    if requests == [] then next
    else
      var last := requests[|requests| - 1];
      if last.target == node then last.next else LastNext(requests[..|requests| - 1], node, next)
  }

  // The successor of `node` after the callbacks of the first `n` nodes
  ghost function NextAfter(script: seq<seq<Relink>>, n: nat, node: ExprNode, next: ExprNode?): ExprNode?
    requires n <= |script|
  {
    if n == 0 then next else LastNext(script[n - 1], node, NextAfter(script, n - 1, node, next))
  }

  // No callback relinks a node that is still to be read, or one that was locked before
  ghost predicate Allowed(nodes: seq<ExprNode>, n: nat, script: seq<seq<Relink>>, locked: set<ExprNode>)
    requires n <= |script| == |nodes|
  {
    forall i, j :: 0 <= i < n && 0 <= j < |script[i]| ==>
      AllowedTarget(nodes, i, script[i][j].target, locked)
  }

  // The same, for the requests of one callback
  ghost predicate AllAllowed(nodes: seq<ExprNode>, i: nat, requests: seq<Relink>, locked: set<ExprNode>)
    requires i < |nodes|
  {
    forall j :: 0 <= j < |requests| ==> AllowedTarget(nodes, i, requests[j].target, locked)
  }

  // What the callback of node `i` may relink
  ghost predicate AllowedTarget(nodes: seq<ExprNode>, i: nat, target: ExprNode, locked: set<ExprNode>)
    requires i < |nodes|
  {
    target !in nodes[i + 1..] && (target in nodes || target !in locked)
  }

  ghost predicate Read(nodes: seq<ExprNode>, n: nat)
    requires n <= |nodes|
    reads nodes
  {
    forall k {:trigger nodes[k].locked} :: 0 <= k < n ==> !nodes[k].locked
  }

  // The nodes from `n` on are locked and still linked as they were
  ghost predicate Unread(nodes: seq<ExprNode>, n: nat)
    requires n <= |nodes|
    reads nodes
  {
    forall k {:trigger nodes[k].locked} {:trigger nodes[k].next} :: n <= k < |nodes| ==>
      nodes[k].locked && nodes[k].next == At(nodes, k + 1)
  }

  // The locks while node `n` is being visited: the nodes before it are unlocked, and the
  // nodes outside the list are as before
  ghost predicate Locks(nodes: seq<ExprNode>, n: nat, targets: set<ExprNode>, locked: set<ExprNode>)
    requires n <= |nodes|
    reads nodes, targets
  {
    Read(nodes, n) && forall node :: node in targets && node !in nodes ==> (node.locked <==> node in locked)
  }

  lemma LockedIsForbidden(nodes: seq<ExprNode>, i: nat, targets: set<ExprNode>, locked: set<ExprNode>, target: ExprNode)
    requires i < |nodes| && Distinct(nodes) && Unread(nodes, i + 1) && Locks(nodes, i + 1, targets, locked)
    requires target in targets
    ensures target.locked <==> !AllowedTarget(nodes, i, target, locked)
  {
    if target in nodes {
      var k :| 0 <= k < |nodes| && nodes[k] == target;
      if k > i {
        assert nodes[i + 1..][k - i - 1] == target;
      }
    }
  }

  // Where every node points after the callbacks of the first `n` nodes
  ghost predicate Linked(all: set<ExprNode>, script: seq<seq<Relink>>, n: nat, initial: map<ExprNode, ExprNode?>)
    requires n <= |script|
    reads all
  {
    forall node :: node in all ==>
      node in initial && node.next == NextAfter(script, n, node, initial[node])
  }

  // Request `j` of callback `i` names the node, and no later one of the first `n` callbacks does
  ghost predicate IsLast(script: seq<seq<Relink>>, n: nat, node: ExprNode, i: nat, j: nat)
    requires i < n <= |script| && j < |script[i]|
  {
    && script[i][j].target == node
    && (forall k :: j < k < |script[i]| ==> script[i][k].target != node)
    && (forall h :: i < h < n ==> NoneNames(script[h], node))
  }

  ghost predicate NoneNames(requests: seq<Relink>, node: ExprNode) {
    forall k :: 0 <= k < |requests| ==> requests[k].target != node
  }

  /** A node is linked as the last request that names it asks. */
  lemma {:induction false} LastRequestWins(
      script: seq<seq<Relink>>, n: nat, node: ExprNode, next: ExprNode?, i: nat, j: nat)
    requires i < n <= |script| && j < |script[i]| && IsLast(script, n, node, i, j)
    ensures NextAfter(script, n, node, next) == script[i][j].next
    decreases n
  {
    if i == n - 1 {
      LastInCallback(script[i], node, NextAfter(script, i, node, next), j);
    } else {
      NoneKeepsNext(script[n - 1], node, NextAfter(script, n - 1, node, next));
      LastRequestWins(script, n - 1, node, next, i, j);
    }
  }

  /** And a node that no request names stays linked as it was. */
  lemma {:induction false} UnnamedStays(script: seq<seq<Relink>>, n: nat, node: ExprNode, next: ExprNode?)
    requires n <= |script| && forall h :: 0 <= h < n ==> NoneNames(script[h], node)
    ensures NextAfter(script, n, node, next) == next
    decreases n
  {
    if n > 0 {
      UnnamedStays(script, n - 1, node, next);
      NoneKeepsNext(script[n - 1], node, next);
    }
  }

  lemma {:induction false} NoneKeepsNext(requests: seq<Relink>, node: ExprNode, next: ExprNode?)
    requires NoneNames(requests, node)
    ensures LastNext(requests, node, next) == next
    decreases |requests|
  {
    if requests != [] {
      NoneKeepsNext(requests[..|requests| - 1], node, next);
    }
  }

  lemma {:induction false} LastInCallback(requests: seq<Relink>, node: ExprNode, next: ExprNode?, j: nat)
    requires j < |requests| && requests[j].target == node
    requires forall k :: j < k < |requests| ==> requests[k].target != node
    ensures LastNext(requests, node, next) == requests[j].next
    decreases |requests|
  {
    if j < |requests| - 1 {
      LastInCallback(requests[..|requests| - 1], node, next, j);
    }
  }

  class ExprEvaluator<!T(==)> {
    const callbacks: Spec.Callbacks<T>
    var opStack: seq<T>
    var argLocs: seq<Range>
    var curOp: Option<Spec.Node>

    constructor (callbacks: Spec.Callbacks<T>)
      ensures this.callbacks == callbacks && opStack == [] && argLocs == []
    {
      this.callbacks := callbacks;
      opStack, argLocs, curOp := [], [], None;
    }

    // None on a stack underflow
    method PopSafe() returns (value: Option<T>)
      modifies this`opStack
      ensures value.None? <==> old(opStack) == []
      ensures value.None? ==> opStack == []
      ensures value.Some? ==> old(opStack) == opStack + [value.value]
    {
      if opStack == [] {
        return None;
      }
      value := Some(opStack[|opStack| - 1]);
      opStack := opStack[..|opStack| - 1];
    }

    method ClearStack()
      modifies this`opStack
      ensures opStack == []
    {
      while opStack != []
        decreases |opStack|
      {
        var _ := PopSafe();
      }
    }

    // Pops the value that must be the only one left
    method TakeResult() returns (value: Option<T>)
      modifies this`opStack
      ensures value.Some? <==> |old(opStack)| == 1
      ensures value.Some? ==> value.value == old(opStack)[0] && opStack == []
    {
      value := PopSafe();
      if opStack != [] {
        return None;
      }
    }

    // Pops `n` operands, the topmost first
    method PopArgs(n: nat) returns (args: Option<seq<T>>)
      modifies this`opStack
      ensures args.Some? <==> n <= |old(opStack)|
      ensures args.Some? ==>
                && opStack == old(opStack)[..|old(opStack)| - n]
                && args.value == Reverse(old(opStack)[|old(opStack)| - n..])
    {
      var popped: seq<T> := [];
      ghost var all := opStack;
      for i := 0 to n
        invariant |popped| == i <= |all| && opStack == all[..|all| - i]
        invariant popped == Reverse(all[|all| - i..])
      {
        var value := PopSafe();
        if value.None? {
          return None;
        }
        ReverseMore(all, i);
        popped := popped + [value.value];
      }
      return Some(popped);
    }

    // Pops the operands of the operator at hand and delivers them to its callback: in source
    // order, but the arguments of a call last one first
    method Operands(kind: Spec.Kind) returns (operands: Option<seq<T>>)
      requires !kind.Value?
      modifies this`opStack
      ensures operands.Some? <==> Spec.Arity(kind) <= |old(opStack)|
      ensures operands.Some? ==>
                && opStack == old(opStack)[..|old(opStack)| - Spec.Arity(kind)]
                && operands.value == Spec.Deliver(kind, old(opStack)[|old(opStack)| - Spec.Arity(kind)..])
      ensures operands.Some? ==>
                |operands.value| == match kind
                  case Unary => 1
                  case MethodInvocation(n) => if n <= 1 then 1 else n
                  case ClassInstanceCreation(n) => if n <= 1 then 1 else n
                  case _ => 2
      ensures operands.Some? ==>
                && |operands.value| <= |old(opStack)|
                && var xs := old(opStack)[|old(opStack)| - |operands.value|..];
                   if kind.MethodInvocation? || kind.ClassInstanceCreation? then
                     && operands.value[0] == xs[0]
                     && forall i :: 1 <= i < |xs| ==> operands.value[i] == xs[|xs| - i]
                   else
                     operands.value == xs
    {
      ghost var all := opStack;
      operands := PopOperands(kind);
      if operands.Some? {
        Spec.DeliveredAt(kind, all[|all| - Spec.Arity(kind)..]);
      }
    }

    method PopOperands(kind: Spec.Kind) returns (operands: Option<seq<T>>)
      requires !kind.Value?
      modifies this`opStack
      ensures operands.Some? <==> Spec.Arity(kind) <= |old(opStack)|
      ensures operands.Some? ==>
                && opStack == old(opStack)[..|old(opStack)| - Spec.Arity(kind)]
                && operands.value == Spec.Deliver(kind, old(opStack)[|old(opStack)| - Spec.Arity(kind)..])
    {
      if kind.Unary? {
        var rhs := PopSafe();
        return match rhs case None => None case Some(r) => Some([r]);
      } else if Spec.IsCall(kind) {
        operands := CallOperands(kind);
      } else {
        var rhs := PopSafe();
        if rhs.None? {
          return None;
        }
        var lhs := PopSafe();
        return match lhs case None => None case Some(l) => Some([l, rhs.value]);
      }
    }

    method CallOperands(kind: Spec.Kind) returns (operands: Option<seq<T>>)
      requires Spec.IsCall(kind)
      modifies this`opStack
      ensures operands.Some? <==> Spec.Arity(kind) <= |old(opStack)|
      ensures operands.Some? ==>
                && opStack == old(opStack)[..|old(opStack)| - Spec.Arity(kind)]
                && operands.value == Spec.Deliver(kind, old(opStack)[|old(opStack)| - Spec.Arity(kind)..])
    {
      ghost var all, k := opStack, Spec.Arity(kind);
      var args: seq<T> := [];
      if Spec.Nargs(kind) > 1 {
        var popped := PopArgs(Spec.Nargs(kind) - 1);
        if popped.None? {
          return None;
        }
        args := popped.value;
      }
      var callee := PopSafe();
      if callee.None? {
        return None;
      }
      assert k <= |all|;
      assert all[|all| - k..] == [callee.value] + all[|all| - k + 1..];
      assert all[|all| - k..][1..] == all[|all| - k + 1..];
      return Some([callee.value] + args);
    }

    // The range of one argument of the operator at hand; None on a bad index
    method ArgLocation(argno: int) returns (range: Option<Range>)
      requires curOp.Some? && Spec.Nargs(curOp.value.kind) <= |argLocs|
      ensures range.Some? <==> 0 <= argno < Spec.Nargs(curOp.value.kind)
      ensures range.Some? ==> range.value == Spec.ArgLocations(curOp.value.kind, argLocs)[argno]
      ensures range.Some? ==> 0 <= |argLocs| - Spec.Nargs(curOp.value.kind) + argno < |argLocs|
      ensures range.Some? ==> range.value == argLocs[|argLocs| - Spec.Nargs(curOp.value.kind) + argno]
    {
      if !(0 <= argno < Spec.Nargs(curOp.value.kind)) {
        return None;
      }
      return Some(argLocs[|argLocs| - Spec.Nargs(curOp.value.kind) + argno]);
    }

    // Everything the callback can learn from ArgLocation
    method ArgLocations() returns (ranges: seq<Range>)
      requires curOp.Some? && Spec.Nargs(curOp.value.kind) <= |argLocs|
      ensures ranges == Spec.ArgLocations(curOp.value.kind, argLocs)
    {
      ranges := [];
      var i := 0;
      while i < Spec.Nargs(curOp.value.kind)
        invariant 0 <= i && (i <= Spec.Nargs(curOp.value.kind) || i == 0)
        invariant i == 0 ==> ranges == []
        invariant i > 0 ==> ranges == Spec.ArgLocations(curOp.value.kind, argLocs)[..i]
      {
        var range := ArgLocation(i);
        ranges := ranges + [range.value];
        i := i + 1;
      }
    }

    // False when two of the ranges lie in different files
    method MergeLocations(num: int) returns (ok: bool)
      requires argLocs != [] && num <= |argLocs|
      modifies this`argLocs
      ensures ok <==> Spec.MergeTop(old(argLocs), if num < 1 then 1 else num).Some?
      ensures ok ==> Some(argLocs) == Spec.MergeTop(old(argLocs), if num < 1 then 1 else num)
    {
      var loc := argLocs[|argLocs| - 1];
      argLocs := argLocs[..|argLocs| - 1];
      ghost var k := if num < 1 then 1 else num;
      var i := 1;
      while i < num
        invariant 1 <= i <= k && |argLocs| >= k - i
        invariant Spec.MergeTop(old(argLocs), k) == Spec.MergeDown(argLocs, loc, k - i)
      {
        var top := argLocs[|argLocs| - 1];
        if !SameFile(loc, top) {
          return false;
        }
        loc := Merge(loc, top);
        argLocs := argLocs[..|argLocs| - 1];
        i := i + 1;
      }
      argLocs := argLocs + [loc];
      return true;
    }

    // What happens to a node before its callback; None when there are too few operands
    method Prepare(item: Spec.Node) returns (operands: Option<seq<T>>)
      modifies this
      ensures operands.Some? <==> Spec.Called(old(Spec.Machine(opStack, argLocs)), item).Some?
      ensures operands.Some? ==>
                && Some(Spec.Machine(opStack, argLocs)) == Spec.Called(old(Spec.Machine(opStack, argLocs)), item)
                && curOp == (if item.kind.Value? then None else Some(item))
      ensures operands.Some? && !item.kind.Value? ==>
                operands.value == Spec.Deliver(item.kind, old(opStack)[|old(opStack)| - Spec.Arity(item.kind)..])
    {
      if item.kind.Value? {
        curOp := None;
        argLocs := argLocs + [item.loc];
        return Some([]);
      }
      curOp := Some(item);
      operands := Operands(item.kind);
    }

    // The effect of a node on the two stacks; false when an assertion fails
    method Process(item: Spec.Node) returns (ok: bool)
      requires |opStack| <= |argLocs|
      modifies this
      ensures ok <==> Spec.Step(callbacks, old(Spec.Machine(opStack, argLocs)), item).Some?
      ensures ok ==> Some(Spec.Machine(opStack, argLocs)) ==
                     Spec.Step(callbacks, old(Spec.Machine(opStack, argLocs)), item)
    {
      var operands := Prepare(item);
      if operands.None? {
        return false;
      }
      if item.kind.Value? {
        opStack := opStack + [callbacks.mapValue(item)];
        return true;
      }
      var ranges := ArgLocations();
      opStack := opStack + [callbacks.apply(item, operands.value, ranges)];
      ok := MergeLocations(Spec.Nargs(item.kind));
    }

    // The requests of one callback; false when one names a locked node
    static method Apply(requests: seq<Relink>) returns (ok: bool)
      modifies Targets(requests)
      ensures ok <==> forall j :: 0 <= j < |requests| ==> !old(requests[j].target.locked)
      ensures forall node :: node in Targets(requests) ==> node.locked == old(node.locked)
      ensures ok ==> forall node :: node in Targets(requests) ==>
                       node.next == LastNext(requests, node, old(node.next))
    {
      var i := 0;
      while i < |requests|
        invariant 0 <= i <= |requests|
        invariant forall j :: 0 <= j < i ==> !old(requests[j].target.locked)
        invariant forall node :: node in Targets(requests) ==> node.locked == old(node.locked)
        invariant forall node :: node in Targets(requests) ==>
                    node.next == LastNext(requests[..i], node, old(node.next))
      {
        var request := requests[i];
        assert request.target in Targets(requests);
        assert requests[..i + 1][..i] == requests[..i];
        if request.target.locked {
          return false;
        }
        request.target.SetNext(request.next);
        i := i + 1;
      }
      assert requests[..i] == requests;
      return true;
    }

    // Locks the nodes of a list, following its links
    static method LockAll(head: ExprNode?, size: nat, ghost nodes: seq<ExprNode>)
      requires Chain(nodes) && size == |nodes| && head == At(nodes, 0)
      modifies set node | node in nodes :: node`locked
      ensures Unread(nodes, 0)
    {
      var node := head;
      for i := 0 to size
        invariant node == At(nodes, i)
        invariant forall k {:trigger nodes[k].locked} :: 0 <= k < i ==> nodes[k].locked
      {
        assert node == nodes[i] && nodes[i] in nodes;
        node.locked := true;
        node := node.next;
      }
    }

    // The requests of the callback of node `i`; false when an assertion fails
    static method RunRequests(script: seq<seq<Relink>>, i: nat, ghost nodes: seq<ExprNode>,
                              ghost locked: set<ExprNode>, ghost initial: map<ExprNode, ExprNode?>)
      returns (ok: bool)
      requires i < |nodes| == |script| && Distinct(nodes)
      requires Unread(nodes, i + 1) && Locks(nodes, i + 1, AllTargets(script), locked)
      requires Linked(AllNodes(nodes, script), script, i, initial)
      modifies AllTargets(script)
      ensures ok <==> AllAllowed(nodes, i, script[i], locked)
      ensures ok ==>
                && Unread(nodes, i + 1) && Locks(nodes, i + 1, AllTargets(script), locked)
                && Linked(AllNodes(nodes, script), script, i + 1, initial)
    {
      var requests := script[i];
      TargetsOfStep(script, i);
      forall j | 0 <= j < |requests|
        ensures requests[j].target.locked <==> !AllowedTarget(nodes, i, requests[j].target, locked)
      {
        assert requests[j].target in Targets(requests);
        LockedIsForbidden(nodes, i, AllTargets(script), locked, requests[j].target);
      }
      ok := Apply(requests);
      if ok {
        UnreadIsUntouched(nodes, i, requests, locked);
        forall t | t in AllNodes(nodes, script)
          ensures t in initial && t.next == NextAfter(script, i + 1, t, initial[t])
        {
          assert t in initial && old(t.next) == NextAfter(script, i, t, initial[t]);
          if t !in Targets(requests) {
            UnnamedKeepsNext(requests, t, t.next);
          }
        }
      }
    }

    // Unlocks node `i`, which is read next
    static method Unlock(node: ExprNode, ghost nodes: seq<ExprNode>, ghost i: nat,
                         ghost targets: set<ExprNode>, ghost locked: set<ExprNode>)
      returns (next: ExprNode?)
      requires i < |nodes| && node == nodes[i] && Distinct(nodes)
      requires Unread(nodes, i) && Locks(nodes, i, targets, locked)
      modifies node`locked
      ensures next == At(nodes, i + 1) && Unread(nodes, i + 1) && Locks(nodes, i + 1, targets, locked)
    {
      next := node.next;
      node.locked := false;
    }

    // Reads node `i`; false when an assertion fails
    method Visit(node: ExprNode, script: seq<seq<Relink>>, i: nat, ghost nodes: seq<ExprNode>,
                 ghost locked: set<ExprNode>, ghost initial: map<ExprNode, ExprNode?>)
      returns (next: ExprNode?, ok: bool)
      requires i < |nodes| == |script| && node == nodes[i] && Distinct(nodes)
      requires Unread(nodes, i) && Locks(nodes, i, AllTargets(script), locked)
      requires |opStack| <= |argLocs|
      requires Linked(AllNodes(nodes, script), script, i, initial)
      modifies this, nodes, AllTargets(script)
      ensures ok <==>
                && Spec.Step(callbacks, old(Spec.Machine(opStack, argLocs)), node.item).Some?
                && AllAllowed(nodes, i, script[i], locked)
      ensures ok ==>
                && next == At(nodes, i + 1) && |opStack| <= |argLocs|
                && Some(Spec.Machine(opStack, argLocs)) ==
                   Spec.Step(callbacks, old(Spec.Machine(opStack, argLocs)), node.item)
                && Unread(nodes, i + 1) && Locks(nodes, i + 1, AllTargets(script), locked)
                && Linked(AllNodes(nodes, script), script, i + 1, initial)
    {
      ghost var before := Spec.Machine(opStack, argLocs);
      next := Unlock(node, nodes, i, AllTargets(script), locked);
      ok := Process(node.item);
      if ok {
        StepKeepsHeights(callbacks, before, node.item);
        ok := RunRequests(script, i, nodes, locked, initial);
      }
    }

    // Reads node `i` until its callback throws, after its requests; false when an assertion fails
    method Interrupt(node: ExprNode, script: seq<seq<Relink>>, i: nat, ghost nodes: seq<ExprNode>,
                     ghost locked: set<ExprNode>, ghost initial: map<ExprNode, ExprNode?>)
      returns (ok: bool)
      requires i < |nodes| == |script| && node == nodes[i] && Distinct(nodes)
      requires Unread(nodes, i) && Locks(nodes, i, AllTargets(script), locked)
      requires Linked(AllNodes(nodes, script), script, i, initial)
      modifies this, nodes, AllTargets(script)
      ensures ok <==>
                && Spec.Called(old(Spec.Machine(opStack, argLocs)), node.item).Some?
                && AllAllowed(nodes, i, script[i], locked)
      ensures ok ==>
                && Some(Spec.Machine(opStack, argLocs)) ==
                   Spec.Called(old(Spec.Machine(opStack, argLocs)), node.item)
                && Unread(nodes, i + 1) && Locks(nodes, i + 1, AllTargets(script), locked)
                && Linked(AllNodes(nodes, script), script, i + 1, initial)
    {
      var _ := Unlock(node, nodes, i, AllTargets(script), locked);
      var operands := Prepare(node.item);
      if operands.None? {
        return false;
      }
      ok := RunRequests(script, i, nodes, locked, initial);
    }

    // Reads the first `count` nodes of a locked list; false when an assertion fails
    method ReadNodes(head: ExprNode?, count: nat, script: seq<seq<Relink>>, ghost nodes: seq<ExprNode>,
                     ghost locked: set<ExprNode>, ghost initial: map<ExprNode, ExprNode?>)
      returns (node: ExprNode?, ok: bool)
      requires count <= |nodes| == |script| && Distinct(nodes) && head == At(nodes, 0)
      requires Unread(nodes, 0) && Locks(nodes, 0, AllTargets(script), locked)
      requires Linked(AllNodes(nodes, script), script, 0, initial)
      requires opStack == []
      modifies this, nodes, AllTargets(script)
      ensures ok <==>
                && Spec.Run(callbacks, Spec.Machine([], old(argLocs)), Items(nodes)[..count]).Some?
                && Allowed(nodes, count, script, locked)
      ensures ok ==>
                && Spec.Run(callbacks, Spec.Machine([], old(argLocs)), Items(nodes)[..count]) ==
                   Some(Spec.Machine(opStack, argLocs))
                && node == At(nodes, count) && |opStack| <= |argLocs|
                && Unread(nodes, count) && Locks(nodes, count, AllTargets(script), locked)
                && Linked(AllNodes(nodes, script), script, count, initial)
    {
      ghost var items := Items(nodes)[..count];
      assert items[0..] == items;
      node := head;
      var i := 0;
      while i < count
        invariant 0 <= i <= count && node == At(nodes, i)
        invariant Unread(nodes, i) && Locks(nodes, i, AllTargets(script), locked)
        invariant Allowed(nodes, i, script, locked)
        invariant |opStack| <= |argLocs|
        invariant Spec.Run(callbacks, Spec.Machine([], old(argLocs)), items) ==
                  Spec.Run(callbacks, Spec.Machine(opStack, argLocs), items[i..])
        invariant Linked(AllNodes(nodes, script), script, i, initial)
      {
        RunNext(callbacks, Spec.Machine(opStack, argLocs), items, i);
        AllowedNext(nodes, i, count, script, locked);
        node, ok := Visit(node, script, i, nodes, locked, initial);
        if !ok {
          return;
        }
        i := i + 1;
      }
      ok := true;
    }

    // Locks a list and reads its first `count` nodes; false when an assertion fails
    method LockAndRead(head: ExprNode?, size: nat, count: nat, script: seq<seq<Relink>>,
                       ghost nodes: seq<ExprNode>, ghost locked: set<ExprNode>,
                       ghost initial: map<ExprNode, ExprNode?>)
      returns (node: ExprNode?, ok: bool)
      requires count <= size == |nodes| == |script| && Chain(nodes) && head == At(nodes, 0)
      requires locked == set node | node in AllTargets(script) && node.locked
      requires Linked(AllNodes(nodes, script), script, 0, initial)
      requires opStack == []
      modifies this, nodes, AllTargets(script)
      ensures ok <==>
                && Spec.Run(callbacks, Spec.Machine([], old(argLocs)), Items(nodes)[..count]).Some?
                && Allowed(nodes, count, script, locked)
      ensures ok ==>
                && Spec.Run(callbacks, Spec.Machine([], old(argLocs)), Items(nodes)[..count]) ==
                   Some(Spec.Machine(opStack, argLocs))
                && node == At(nodes, count) && |opStack| <= |argLocs|
                && Unread(nodes, count) && Locks(nodes, count, AllTargets(script), locked)
                && Linked(AllNodes(nodes, script), script, count, initial)
    {
      LockAll(head, size, nodes);
      node, ok := ReadNodes(head, count, script, nodes, locked, initial);
    }

    /** Evaluates a list while its callbacks relink nodes: `script[i]` holds the requests
        made during the callback of node `i`.  None when an assertion fails. */
    method EvaluateList(list: ExprNodeList, script: seq<seq<Relink>>) returns (result: Option<T>)
      requires list.Valid() && |script| == list.size
      modifies this, list.nodes, AllTargets(script)
      ensures result.Some? <==>
                && Spec.Evaluate(callbacks, old(Spec.Machine(opStack, argLocs)), Items(old(list.nodes))).Some?
                && Allowed(old(list.nodes), |script|, script,
                           set node | node in AllTargets(script) && old(node.locked))
      ensures result.Some? ==>
                && Some((result.value, argLocs)) ==
                   Spec.Evaluate(callbacks, old(Spec.Machine(opStack, argLocs)), Items(old(list.nodes)))
                && opStack == []
                && Read(old(list.nodes), |script|)
      ensures result.Some? ==>
                forall node {:trigger node.next} :: node in AllNodes(old(list.nodes), script) ==>
                  node.next == NextAfter(script, |script|, node, old(node.next))
    {
      ghost var nodes := list.nodes;
      ghost var locked := set node | node in AllTargets(script) && node.locked;
      ghost var initial := map node | node in AllNodes(nodes, script) :: node.next;
      ClearStack();
      AllItems(nodes);
      var _, ok := LockAndRead(list.head, list.size, list.size, script, nodes, locked, initial);
      if !ok {
        return None;
      }
      result := TakeResult();
    }

    /** An evaluation that ends when the callback of node `stop` throws, after its requests.
        The nodes up to that one are unlocked and linked as last requested; all later ones
        stay locked and linked as they were.  False when an assertion fails before. */
    method EvaluateUntil(list: ExprNodeList, script: seq<seq<Relink>>, stop: nat) returns (ok: bool)
      requires list.Valid() && stop < |script| == list.size
      modifies this, list.nodes, AllTargets(script)
      ensures ok <==>
                && Spec.CalledAt(callbacks, old(argLocs), Items(old(list.nodes)), stop).Some?
                && Allowed(old(list.nodes), stop + 1, script,
                           set node | node in AllTargets(script) && old(node.locked))
      ensures ok ==>
                && Some(Spec.Machine(opStack, argLocs)) ==
                   Spec.CalledAt(callbacks, old(argLocs), Items(old(list.nodes)), stop)
                && Read(old(list.nodes), stop + 1) && Unread(old(list.nodes), stop + 1)
      ensures ok ==>
                forall node {:trigger node.next} :: node in AllNodes(old(list.nodes), script) ==>
                  node.next == NextAfter(script, stop + 1, node, old(node.next))
    {
      ghost var nodes := list.nodes;
      ghost var locked := set node | node in AllTargets(script) && node.locked;
      ghost var initial := map node | node in AllNodes(nodes, script) :: node.next;
      ClearStack();
      var node;
      node, ok := LockAndRead(list.head, list.size, stop, script, nodes, locked, initial);
      AllowedNext(nodes, stop, stop + 1, script, locked);
      if ok {
        ok := Interrupt(node, script, stop, nodes, locked, initial);
      }
    }
  }

  lemma AllItems(nodes: seq<ExprNode>)
    ensures Items(nodes)[..|nodes|] == Items(nodes)
  {
  }

  lemma UnreadIsUntouched(nodes: seq<ExprNode>, i: nat, requests: seq<Relink>, locked: set<ExprNode>)
    requires i < |nodes|
    requires AllAllowed(nodes, i, requests, locked)
    ensures forall k {:trigger nodes[k]} :: i < k < |nodes| ==> nodes[k] !in Targets(requests)
  {
    forall k | i < k < |nodes|
      ensures nodes[k] !in Targets(requests)
    {
      assert nodes[i + 1..][k - i - 1] == nodes[k];
    }
  }

  lemma TargetsOfStep(script: seq<seq<Relink>>, i: nat)
    requires i < |script|
    ensures Targets(script[i]) <= AllTargets(script)
  {
  }

  lemma UnnamedKeepsNext(requests: seq<Relink>, node: ExprNode, next: ExprNode?)
    requires node !in Targets(requests)
    ensures LastNext(requests, node, next) == next
  {
    assert forall k :: 0 <= k < |requests| ==> requests[k].target in Targets(requests);
    NoneKeepsNext(requests, node, next);
  }

  lemma RunNext<T>(cb: Spec.Callbacks<T>, m: Spec.Machine<T>, items: seq<Spec.Node>, i: nat)
    requires i < |items|
    ensures Spec.Run(cb, m, items[i..]) ==
            match Spec.Step(cb, m, items[i])
            case None => None
            case Some(next) => Spec.Run(cb, next, items[i + 1..])
  {
    assert items[i..][1..] == items[i + 1..];
  }

  lemma AllowedNext(nodes: seq<ExprNode>, i: nat, count: nat, script: seq<seq<Relink>>, locked: set<ExprNode>)
    requires i < count <= |script| == |nodes|
    ensures Allowed(nodes, count, script, locked) ==> Allowed(nodes, i + 1, script, locked)
    ensures Allowed(nodes, i + 1, script, locked) <==>
              Allowed(nodes, i, script, locked) && AllAllowed(nodes, i, script[i], locked)
  {
  }

  // Operands and ranges come and go together
  lemma StepKeepsHeights<T>(cb: Spec.Callbacks<T>, m: Spec.Machine<T>, node: Spec.Node)
    requires Spec.Step(cb, m, node).Some?
    ensures var next := Spec.Step(cb, m, node).value; |next.locs| - |next.ops| == |m.locs| - |m.ops|
  {
    if !node.kind.Value? {
      MergeDownLength(m.locs[..|m.locs| - 1], m.locs[|m.locs| - 1], Spec.Arity(node.kind) - 1);
    }
  }

  lemma {:induction false} MergeDownLength(locs: seq<Range>, acc: Range, k: nat)
    requires Spec.MergeDown(locs, acc, k).Some?
    ensures |Spec.MergeDown(locs, acc, k).value| == |locs| - k + 1
    decreases k
  {
    if k > 0 {
      MergeDownLength(locs[..|locs| - 1], Merge(acc, locs[|locs| - 1]), k - 1);
    }
  }

  lemma ReverseMore<T>(xs: seq<T>, i: nat)
    requires i < |xs|
    ensures Reverse(xs[|xs| - i - 1..]) == Reverse(xs[|xs| - i..]) + [xs[|xs| - i - 1]]
  {
    assert xs[|xs| - i - 1..] == [xs[|xs| - i - 1]] + xs[|xs| - i..];
    ReverseCons(xs[|xs| - i - 1], xs[|xs| - i..]);
  }

  lemma {:induction false} ReverseCons<T>(x: T, xs: seq<T>)
    ensures Reverse([x] + xs) == Reverse(xs) + [x]
    decreases |xs|
  {
    if xs == [] {
      assert [x] + xs == [x] && [x][..0] == [];
    } else {
      assert ([x] + xs)[..|xs|] == [x] + xs[..|xs| - 1];
      ReverseCons(x, xs[..|xs| - 1]);
    }
  }
}
