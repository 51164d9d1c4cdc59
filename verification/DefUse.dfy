/** The def-use graph: every node lists the nodes it uses (its children) and
    every node keeps the set of places that use it.  The two directions are
    updated separately, in place; the operations are proved against functions on
    a snapshot of the graph, and this module proves exactly when each operation
    keeps the two directions consistent. */
module DefUse {
  import opened Wrappers

  // Child number `fromIndex` of `user`
  datatype Use = Use(user: Node, fromIndex: nat)

  // The children and uses of a set of nodes at one moment
  datatype Graph = Graph(kids: map<Node, seq<Node?>>, uses: map<Node, set<Use>>)

  /* ---------------------------------------------------------------------- */
  // The two-way invariant
  /* ---------------------------------------------------------------------- */

  // Every non-null child knows about it
  ghost predicate UsesCoverKids(g: Graph) {
    forall u, i | u in g.kids && 0 <= i < |g.kids[u]| && g.kids[u][i] != null ::
      g.kids[u][i] in g.uses && Use(u, i) in g.uses[g.kids[u][i]]
  }

  // Every recorded use is a child slot holding the node
  ghost predicate UsesAreKids(g: Graph) {
    forall n, use | n in g.uses && use in g.uses[n] ::
      use.user in g.kids && use.fromIndex < |g.kids[use.user]| && g.kids[use.user][use.fromIndex] == n
  }

  ghost predicate Consistent(g: Graph) {
    g.kids.Keys == g.uses.Keys && UsesCoverKids(g) && UsesAreKids(g)
  }

  ghost predicate InGraph(g: Graph, n: Node?) {
    n != null ==> n in g.kids && n in g.uses
  }

  /** The invariant as one equivalence: slot `i` of `u` holds `n` exactly when the
      use is recorded at `n`. */
  lemma ConsistentMeans(g: Graph, u: Node, i: nat, n: Node)
    requires Consistent(g) && u in g.kids && n in g.uses
    ensures Use(u, i) in g.uses[n] <==> i < |g.kids[u]| && g.kids[u][i] == n
  {
    if Use(u, i) in g.uses[n] {
      assert Use(u, i).user == u;
    }
  }

  /* ---------------------------------------------------------------------- */
  // Operations on snapshots
  /* ---------------------------------------------------------------------- */

  function WithKids(g: Graph, u: Node, kids: seq<Node?>): Graph {
    g.(kids := g.kids[u := kids])
  }

  function WithUse(g: Graph, n: Node?, use: Use): Graph
    requires InGraph(g, n)
  {
    if n == null then g else g.(uses := g.uses[n := g.uses[n] + {use}])
  }

  function WithoutUse(g: Graph, n: Node, use: Use): Graph
    requires InGraph(g, n)
  {
    g.(uses := g.uses[n := g.uses[n] - {use}])
  }

  function AppendChild(g: Graph, u: Node, n: Node?): Graph
    requires u in g.kids && InGraph(g, n)
  {
    WithUse(WithKids(g, u, g.kids[u] + [n]), n, Use(u, |g.kids[u]|))
  }

  // Inserts in the middle; the shifted children keep their recorded indices
  function InsertChild(g: Graph, u: Node, n: Node?, idx: nat): Graph
    requires u in g.kids && InGraph(g, n) && idx <= |g.kids[u]|
  {
    WithUse(WithKids(g, u, g.kids[u][..idx] + [n] + g.kids[u][idx..]), n, Use(u, idx))
  }

  // Erases from the middle; the shifted children keep their recorded indices
  function RemoveChild(g: Graph, u: Node, idx: nat): Graph
    requires u in g.kids && idx < |g.kids[u]| && g.kids[u][idx] != null && InGraph(g, g.kids[u][idx])
  {
    WithKids(WithoutUse(g, g.kids[u][idx], Use(u, idx)), u, g.kids[u][..idx] + g.kids[u][idx + 1..])
  }

  function ReplaceChild(g: Graph, u: Node, idx: nat, n: Node?): Graph
    requires u in g.kids && idx < |g.kids[u]| && g.kids[u][idx] != null
    requires InGraph(g, g.kids[u][idx]) && InGraph(g, n)
  {
    WithUse(WithKids(WithoutUse(g, g.kids[u][idx], Use(u, idx)), u, g.kids[u][idx := n]), n, Use(u, idx))
  }

  function Resize(kids: seq<Node?>, n: nat): seq<Node?> {
    if n <= |kids| then kids[..n] else kids + seq(n - |kids|, i => null)
  }

  // Drops the children from `arity` up, and their uses
  function ClearChains(g: Graph, u: Node, arity: nat): Graph
    requires u in g.kids
  {
    Graph(
      g.kids[u := Resize(g.kids[u], arity)],
      map n | n in g.uses :: set use | use in g.uses[n] && !(use.user == u && use.fromIndex >= arity))
  }

  // The child a use stands for, or null
  function Slot(g: Graph, use: Use): Node? {
    if use.user in g.kids && use.fromIndex < |g.kids[use.user]| then g.kids[use.user][use.fromIndex] else null
  }

  // The uses when the children of `u` at indices from `lo` to before `hi` have released
  // theirs
  ghost function UsesReleased(g: Graph, u: Node, lo: nat, hi: nat): map<Node, set<Use>>
  {
    map n | n in g.uses ::
      set use | use in g.uses[n] && !(use.user == u && lo <= use.fromIndex < hi && Slot(g, use) == n)
  }

  // Drops the children from `arity` up, and the uses recorded for them there
  ghost function ReleaseChains(g: Graph, u: Node, arity: nat): Graph
    requires u in g.kids
  {
    Graph(g.kids[u := Resize(g.kids[u], arity)], UsesReleased(g, u, arity, |g.kids[u]|))
  }

  lemma ReleaseStart(g: Graph, u: Node, lo: nat)
    ensures g.(uses := UsesReleased(g, u, lo, lo)) == g
  {
    assert forall n | n in g.uses :: UsesReleased(g, u, lo, lo)[n] == g.uses[n];
    assert UsesReleased(g, u, lo, lo) == g.uses;
  }

  // Beyond the children there is nothing to release
  lemma ReleaseEnd(g: Graph, u: Node, lo: nat, hi: nat)
    requires u in g.kids && (|g.kids[u]| <= hi || (hi == lo && |g.kids[u]| <= lo))
    ensures UsesReleased(g, u, lo, hi) == UsesReleased(g, u, lo, |g.kids[u]|)
  {
    assert forall n | n in g.uses :: UsesReleased(g, u, lo, hi)[n] == UsesReleased(g, u, lo, |g.kids[u]|)[n];
  }

  lemma ReleaseStep(g: Graph, u: Node, lo: nat, i: nat)
    requires u in g.kids && lo <= i < |g.kids[u]| && g.kids[u][i] in g.uses
    ensures var uses, n := UsesReleased(g, u, lo, i), g.kids[u][i];
            uses[n := uses[n] - {Use(u, i)}] == UsesReleased(g, u, lo, i + 1)
  {
    var uses, n := UsesReleased(g, u, lo, i), g.kids[u][i];
    var next := uses[n := uses[n] - {Use(u, i)}];
    assert forall m | m in g.uses :: next[m] == UsesReleased(g, u, lo, i + 1)[m];
  }

  // Every use recorded for a child of `u` from `arity` up is recorded at that child
  ghost predicate ChainUsesAreKids(g: Graph, u: Node, arity: nat)
    requires u in g.kids
  {
    forall n, use | n in g.uses && use in g.uses[n] && use.user == u && use.fromIndex >= arity ::
      use.fromIndex < |g.kids[u]| && g.kids[u][use.fromIndex] == n
  }

  /** Dropping the chains releases every use recorded for them exactly when none of these
      uses is stale. */
  lemma ReleaseReleasesIff(g: Graph, u: Node, arity: nat)
    requires u in g.kids
    ensures ReleaseChains(g, u, arity) == ClearChains(g, u, arity) <==> ChainUsesAreKids(g, u, arity)
  {
    var h, target := ReleaseChains(g, u, arity), ClearChains(g, u, arity);
    if ChainUsesAreKids(g, u, arity) {
      assert forall n | n in g.uses :: h.uses[n] == target.uses[n];
      assert h.uses == target.uses;
    } else {
      var n, use :| n in g.uses && use in g.uses[n] && use.user == u && use.fromIndex >= arity
                    && !(use.fromIndex < |g.kids[u]| && g.kids[u][use.fromIndex] == n);
      assert use in h.uses[n] && use !in target.uses[n];
    }
  }

  function Redirect(kids: seq<Node?>, from: Node, to: Node?): seq<Node?> {
    seq(|kids|, i requires 0 <= i < |kids| => if kids[i] == from then to else kids[i])
  }

  // Every slot that held `from` holds `to`, and the uses move along
  function ReplaceAllUses(g: Graph, from: Node, to: Node?): Graph
    requires InGraph(g, from) && InGraph(g, to)
  {
    if from == to then g
    else
      Graph(
        map u | u in g.kids :: Redirect(g.kids[u], from, to),
        if to == null then g.uses[from := {}]
        else g.uses[from := {}][to := g.uses[to] + g.uses[from]])
  }

  // Every use recorded at `n` stands for some child, which the program follows
  ghost predicate UsesReach(g: Graph, n: Node) {
    n in g.uses && forall use | use in g.uses[n] ::
      Slot(g, use) != null && use.user in g.uses && Slot(g, use) in g.kids && Slot(g, use) in g.uses
  }

  // The uses recorded at `n` when those in `done` have been redirected
  ghost function UsesRedirected(g: Graph, n: Node, to: Node?, done: set<Use>): set<Use>
    requires n in g.uses
  {
    (set use | use in g.uses[n] && !(use in done && Slot(g, use) == n)) + if n == to then done else {}
  }

  // The slots of the uses in `done` hold `to`, and what they held has released the use
  ghost function ReplaceRecorded(g: Graph, to: Node?, done: set<Use>): Graph {
    Graph(
      map u | u in g.kids :: seq(|g.kids[u]|, i requires 0 <= i < |g.kids[u]| =>
        if Use(u, i) in done then to else g.kids[u][i]),
      map n | n in g.uses :: UsesRedirected(g, n, to, done))
  }

  ghost predicate ChainsInGraph(g: Graph, u: Node, arity: nat) {
    && u in g.kids && g.kids.Keys == g.uses.Keys
    && forall i :: arity <= i < |g.kids[u]| ==> g.kids[u][i] != null && g.kids[u][i] in g.uses
  }

  lemma RemoveKeepsChains(g: Graph, u: Node, arity: nat, idx: nat)
    requires ChainsInGraph(g, u, arity) && arity <= idx < |g.kids[u]|
    ensures ChainsInGraph(RemoveChild(g, u, idx), u, arity)
  {
  }

  // From slot `i` down to `arity`, removes each chain that has another user
  ghost function Pruned(g: Graph, u: Node, arity: nat, i: nat): (h: Graph)
    requires ChainsInGraph(g, u, arity) && arity <= i <= |g.kids[u]|
    decreases i
  {
    if i == arity then g
    else if |g.uses[g.kids[u][i - 1]]| > 1 then Pruned(RemoveChild(g, u, i - 1), u, arity, i - 1)
    else Pruned(g, u, arity, i - 1)
  }

  // How many of the first `i` children are not null
  function Rank(kids: seq<Node?>, i: nat): (r: nat)
    requires i <= |kids|
    ensures r <= i
  {
    if i == 0 then 0 else Rank(kids, i - 1) + if kids[i - 1] != null then 1 else 0
  }

  // What `destroy` removes from `n` for the first `upTo` children: the index it gives
  // for a child counts only the non-null ones before it
  ghost predicate DestroyRemoves(u: Node, kids: seq<Node?>, upTo: nat, n: Node, use: Use)
    requires upTo <= |kids|
  {
    exists i :: 0 <= i < upTo && kids[i] == n && use == Use(u, Rank(kids, i))
  }

  lemma DestroyRemovesStep(u: Node, kids: seq<Node?>, i: nat, n: Node, use: Use)
    requires i < |kids|
    ensures DestroyRemoves(u, kids, i + 1, n, use) <==>
            DestroyRemoves(u, kids, i, n, use) || (kids[i] == n && use == Use(u, Rank(kids, i)))
  {
    if DestroyRemoves(u, kids, i + 1, n, use) {
      var k :| 0 <= k < i + 1 && kids[k] == n && use == Use(u, Rank(kids, k));
    }
  }

  ghost function Destroyed(g: Graph, u: Node): Graph
    requires u in g.kids
  {
    g.(uses := map n | n in g.uses :: set use | use in g.uses[n] && !DestroyRemoves(u, g.kids[u], |g.kids[u]|, n, use))
  }

  /* ---------------------------------------------------------------------- */
  // What the operations mean, on every graph
  /* ---------------------------------------------------------------------- */

  // Nothing changes but the children of `u` and the uses of the nodes in `touched`
  ghost predicate OnlyChanges(g: Graph, h: Graph, u: Node, touched: set<Node?>)
    requires u in g.kids
  {
    && h.kids.Keys == g.kids.Keys && h.uses.Keys == g.uses.Keys
    && (forall v | v in g.kids && v != u :: h.kids[v] == g.kids[v])
    && (forall n | n in g.uses && n !in touched :: h.uses[n] == g.uses[n])
  }

  /** Appending: one more child, whose use is recorded at its index. */
  lemma AppendMeans(g: Graph, u: Node, n: Node?)
    requires u in g.kids && InGraph(g, n)
    ensures var h := AppendChild(g, u, n);
            && OnlyChanges(g, h, u, {n})
            && h.kids[u] == g.kids[u] + [n]
            && (n != null ==> h.uses[n] == g.uses[n] + {Use(u, |g.kids[u]|)})
  {
  }

  /** Inserting: the children from the index on move up by one, and only the new use is
      recorded. */
  lemma InsertMeans(g: Graph, u: Node, n: Node?, idx: nat)
    requires u in g.kids && InGraph(g, n) && idx <= |g.kids[u]|
    ensures var h := InsertChild(g, u, n, idx);
            && OnlyChanges(g, h, u, {n})
            && |h.kids[u]| == |g.kids[u]| + 1 && h.kids[u][idx] == n
            && (forall i :: 0 <= i < idx ==> h.kids[u][i] == g.kids[u][i])
            && (forall i :: idx <= i < |g.kids[u]| ==> h.kids[u][i + 1] == g.kids[u][i])
            && (n != null ==> h.uses[n] == g.uses[n] + {Use(u, idx)})
  {
  }

  /** Removing: the children behind the index move down by one, and only this use is
      released. */
  lemma RemoveMeans(g: Graph, u: Node, idx: nat)
    requires u in g.kids && idx < |g.kids[u]| && g.kids[u][idx] != null && InGraph(g, g.kids[u][idx])
    ensures var h, c := RemoveChild(g, u, idx), g.kids[u][idx];
            && OnlyChanges(g, h, u, {c})
            && |h.kids[u]| == |g.kids[u]| - 1
            && (forall i :: 0 <= i < idx ==> h.kids[u][i] == g.kids[u][i])
            && (forall i :: idx < i < |g.kids[u]| ==> h.kids[u][i - 1] == g.kids[u][i])
            && h.uses[c] == g.uses[c] - {Use(u, idx)}
  {
  }

  /** Replacing: one slot changes, its old child releases the use, and the new one has it. */
  lemma ReplaceMeans(g: Graph, u: Node, idx: nat, n: Node?)
    requires u in g.kids && idx < |g.kids[u]| && g.kids[u][idx] != null
    requires InGraph(g, g.kids[u][idx]) && InGraph(g, n)
    ensures var h, c := ReplaceChild(g, u, idx, n), g.kids[u][idx];
            && OnlyChanges(g, h, u, {c, n})
            && h.kids[u] == g.kids[u][idx := n]
            && (c != n ==> h.uses[c] == g.uses[c] - {Use(u, idx)})
            && (n != null ==> h.uses[n] == g.uses[n] + {Use(u, idx)})
  {
  }

  /** The index that `destroy` gives for a child: the number of children before it that are
      not null. */
  lemma {:induction false} RankCounts(kids: seq<Node?>, i: nat)
    requires i <= |kids|
    ensures Rank(kids, i) == |set k | 0 <= k < i && kids[k] != null|
  {
    if i > 0 {
      RankCounts(kids, i - 1);
      var before := set k | 0 <= k < i - 1 && kids[k] != null;
      var all := set k | 0 <= k < i && kids[k] != null;
      assert all == before + if kids[i - 1] != null then {i - 1} else {};
    }
  }

  /** Destroying: for each child, the use at this index is released there, and nothing else. */
  lemma DestroyMeans(g: Graph, u: Node, n: Node, use: Use)
    requires u in g.kids && n in g.uses
    ensures Destroyed(g, u).kids == g.kids && Destroyed(g, u).uses.Keys == g.uses.Keys
    ensures use in Destroyed(g, u).uses[n] <==>
            use in g.uses[n] && !exists i {:trigger g.kids[u][i]} ::
              && 0 <= i < |g.kids[u]| && g.kids[u][i] == n
              && use == Use(u, |set k | 0 <= k < i && g.kids[u][k] != null|)
  {
    forall i | 0 <= i < |g.kids[u]|
      ensures Rank(g.kids[u], i) == |set k | 0 <= k < i && g.kids[u][k] != null|
    {
      RankCounts(g.kids[u], i);
    }
  }

  /** Dropping the chains: of the children the first `arity` stay, and each of the others has
      released the use at its index. */
  lemma ReleaseMeans(g: Graph, u: Node, arity: nat, n: Node, use: Use)
    requires u in g.kids && n in g.uses
    ensures var h := ReleaseChains(g, u, arity);
            && OnlyChanges(g, h, u, g.uses.Keys)
            && |h.kids[u]| == arity
            && (forall i :: 0 <= i < arity ==> h.kids[u][i] == if i < |g.kids[u]| then g.kids[u][i] else null)
            && (use in h.uses[n] <==>
                  use in g.uses[n] &&
                  !(use.user == u && arity <= use.fromIndex < |g.kids[u]| && g.kids[u][use.fromIndex] == n))
  {
  }

  /** Redirecting all uses recorded at a node: their slots hold the new value, what the slots
      held has released the use, and the new value has it. */
  lemma ReplaceRecordedMeans(g: Graph, from: Node, to: Node?)
    requires UsesReach(g, from) && InGraph(g, to) && g.kids.Keys == g.uses.Keys
    ensures var h := ReplaceRecorded(g, to, g.uses[from]);
            && h.kids.Keys == g.kids.Keys && h.uses.Keys == g.uses.Keys
            && (forall u | u in g.kids :: |h.kids[u]| == |g.kids[u]|)
            && (forall u, i | u in g.kids && 0 <= i < |g.kids[u]| ::
                  h.kids[u][i] == if Use(u, i) in g.uses[from] then to else g.kids[u][i])
            && (forall n, use | n in g.uses ::
                  use in h.uses[n] <==>
                    || (n == to && use in g.uses[from])
                    || (use in g.uses[n] && !(use in g.uses[from] && g.kids[use.user][use.fromIndex] == n)))
  {
  }

  /* ---------------------------------------------------------------------- */
  // The graph in memory
  /* ---------------------------------------------------------------------- */

  // The children and uses of the nodes in `nodes`, now
  ghost function Snapshot(nodes: set<Node>): (g: Graph)
    reads nodes
    ensures g.kids.Keys == g.uses.Keys == nodes
  {
    Graph(map u | u in nodes :: u.children, map u | u in nodes :: u.uses)
  }

  /** A node of the graph. A node that uses nothing has no children. */
  class Node {
    var children: seq<Node?>
    var uses: set<Use>
    var destroyed: bool

    constructor ()
      ensures children == [] && uses == {} && !destroyed
    {
      children, uses, destroyed := [], {}, false;
    }

    method AddUse(use: Use, ghost nodes: set<Node>)
      requires this in nodes
      modifies this`uses
      ensures uses == old(uses) + {use}
      ensures Snapshot(nodes) == WithUse(old(Snapshot(nodes)), this, use)
    {
      uses := uses + {use};
    }

    method RemoveUse(use: Use, ghost nodes: set<Node>)
      requires this in nodes
      modifies this`uses
      ensures uses == old(uses) - {use}
      ensures Snapshot(nodes) == WithoutUse(old(Snapshot(nodes)), this, use)
    {
      uses := uses - {use};
    }

    // Every change of the children
    method SetChildren(kids: seq<Node?>, ghost nodes: set<Node>)
      requires this in nodes
      modifies this`children
      ensures children == kids
      ensures Snapshot(nodes) == WithKids(old(Snapshot(nodes)), this, kids)
    {
      children := kids;
    }

    method AddChild(operand: Node?, ghost nodes: set<Node>)
      requires this in nodes && (operand != null ==> operand in nodes)
      modifies this`children, nodes`uses
      ensures Snapshot(nodes) == AppendChild(old(Snapshot(nodes)), this, operand)
    {
      SetChildren(children + [operand], nodes);
      if operand == null {
        return;
      }
      operand.AddUse(Use(this, |children| - 1), nodes);
    }

    method InsertChildAt(operand: Node?, idx: nat, ghost nodes: set<Node>)
      requires this in nodes && (operand != null ==> operand in nodes) && idx <= |children|
      modifies this`children, nodes`uses
      ensures Snapshot(nodes) == InsertChild(old(Snapshot(nodes)), this, operand, idx)
    {
      SetChildren(children[..idx] + [operand] + children[idx..], nodes);
      if operand == null {
        return;
      }
      operand.AddUse(Use(this, idx), nodes);
    }

    method RemoveChildAt(idx: nat, ghost nodes: set<Node>)
      requires this in nodes && idx < |children| && children[idx] != null && children[idx] in nodes
      modifies this`children, nodes`uses
      ensures Snapshot(nodes) == RemoveChild(old(Snapshot(nodes)), this, idx)
    {
      children[idx].RemoveUse(Use(this, idx), nodes);
      SetChildren(children[..idx] + children[idx + 1..], nodes);
    }

    method ReplaceChildAt(idx: nat, operand: Node?, ghost nodes: set<Node>)
      requires this in nodes && idx < |children| && children[idx] != null && children[idx] in nodes
      requires operand != null ==> operand in nodes
      modifies this`children, nodes`uses
      ensures Snapshot(nodes) == ReplaceChild(old(Snapshot(nodes)), this, idx, operand)
    {
      children[idx].RemoveUse(Use(this, idx), nodes);
      SetChildren(children[idx := operand], nodes);
      if operand == null {
        return;
      }
      operand.AddUse(Use(this, idx), nodes);
    }

    // Releases the uses of the children; the index counts only the non-null ones
    method Destroy(ghost nodes: set<Node>)
      requires !destroyed && this in nodes
      requires forall i :: 0 <= i < |children| && children[i] != null ==> children[i] in nodes
      modifies nodes`uses
      ensures Snapshot(nodes) == Destroyed(old(Snapshot(nodes)), this)
    {
      ghost var g := Snapshot(nodes);
      var idx := 0;
      for i := 0 to |children|
        invariant idx == Rank(children, i)
        invariant forall n, use | n in nodes ::
                    use in n.uses <==> use in g.uses[n] && !DestroyRemoves(this, children, i, n, use)
      {
        var child := children[i];
        forall n, use | n in nodes {
          DestroyRemovesStep(this, children, i, n, use);
        }
        if child != null {
          child.RemoveUse(Use(this, idx), nodes);
          idx := idx + 1;
        }
      }
      forall n | n in nodes
        ensures n.uses == Destroyed(g, this).uses[n]
      {
        assert forall use :: use in n.uses <==> use in Destroyed(g, this).uses[n];
      }
      assert Snapshot(nodes).uses == Destroyed(g, this).uses;
      assert Snapshot(nodes).kids == g.kids;
    }

    // Drops the children from `arity` up, with their uses
    method ClearChainsFrom(arity: nat, ghost nodes: set<Node>)
      requires this in nodes
      requires forall i :: arity <= i < |children| ==> children[i] != null && children[i] in nodes
      modifies this`children, nodes`uses
      ensures Snapshot(nodes) == ReleaseChains(old(Snapshot(nodes)), this, arity)
    {
      ghost var g := Snapshot(nodes);
      var i := arity;
      ReleaseStart(g, this, arity);
      while i < |children|
        invariant arity <= i
        invariant Snapshot(nodes) == g.(uses := UsesReleased(g, this, arity, i))
      {
        ReleaseStep(g, this, arity, i);
        assert children == g.kids[this];
        children[i].RemoveUse(Use(this, i), nodes);
        i := i + 1;
      }
      ReleaseEnd(g, this, arity, i);
      SetChildren(if arity <= |children| then children[..arity] else children + seq(arity - |children|, _ => null),
                  nodes);
    }

    // Drops child `i` if it has another user
    method PruneChain(arity: nat, i: nat, ghost nodes: set<Node>)
      requires this in nodes && arity <= i < |children| && ChainsInGraph(Snapshot(nodes), this, arity)
      modifies this`children, nodes`uses
      ensures i <= |children| && ChainsInGraph(Snapshot(nodes), this, arity)
      ensures Pruned(Snapshot(nodes), this, arity, i) == Pruned(old(Snapshot(nodes)), this, arity, i + 1)
    {
      ghost var g := Snapshot(nodes);
      assert g.kids[this] == children && children[i].uses == g.uses[children[i]];
      if |children[i].uses| > 1 {
        RemoveChildAt(i, nodes);
        RemoveKeepsChains(g, this, arity, i);
      }
    }

    // Drops the chains (children from `arity` up) that have another user, last first
    method PruneChains(arity: nat, ghost nodes: set<Node>)
      requires this in nodes && arity <= |children| && ChainsInGraph(Snapshot(nodes), this, arity)
      modifies this`children, nodes`uses
      ensures Snapshot(nodes) == Pruned(old(Snapshot(nodes)), this, arity, |old(children)|)
    {
      var i := |children|;
      ghost var target := Pruned(Snapshot(nodes), this, arity, i);
      while i > arity
        invariant arity <= i <= |children| && ChainsInGraph(Snapshot(nodes), this, arity)
        invariant Pruned(Snapshot(nodes), this, arity, i) == target
      {
        i := i - 1;
        PruneChain(arity, i, nodes);
      }
    }

    // Redirects one use, after those in `done`
    static method RedirectUse(use: Use, newValue: Node?, ghost nodes: set<Node>, ghost g: Graph, ghost done: set<Use>)
      requires g.kids.Keys == g.uses.Keys == nodes && InGraph(g, newValue) && use !in done
      requires Slot(g, use) != null && Slot(g, use) in nodes
      requires Snapshot(nodes) == ReplaceRecorded(g, newValue, done)
      modifies nodes`children, nodes`uses
      ensures Snapshot(nodes) == ReplaceRecorded(g, newValue, done + {use})
    {
      ReplaceStep(g, newValue, done, use);
      assert Snapshot(nodes).kids[use.user] == use.user.children;
      use.user.ReplaceChildAt(use.fromIndex, newValue, nodes);
    }

    // Redirects every use of this node to `newValue`, in any order
    method ReplaceAllUsesWith(newValue: Node?, ghost nodes: set<Node>)
      requires this in nodes && (newValue != null ==> newValue in nodes) && UsesReach(Snapshot(nodes), this)
      modifies nodes`children, nodes`uses
      ensures Snapshot(nodes) == ReplaceRecorded(old(Snapshot(nodes)), newValue, old(uses))
    {
      ghost var g, all := Snapshot(nodes), uses;
      var remaining := uses;
      ghost var done: set<Use> := {};
      ReplaceStart(g, newValue);
      while remaining != {}
        invariant remaining <= all && done == all - remaining
        invariant Snapshot(nodes) == ReplaceRecorded(g, newValue, done)
        decreases remaining
      {
        var use :| use in remaining;
        RedirectUse(use, newValue, nodes, g, done);
        DoneNext(all, remaining, use);
        remaining, done := remaining - {use}, done + {use};
      }
      assert done == all;
    }
  }

  lemma DoneNext(all: set<Use>, remaining: set<Use>, use: Use)
    requires remaining <= all && use in remaining
    ensures (all - remaining) + {use} == all - (remaining - {use})
  {
  }

  /* ---------------------------------------------------------------------- */
  // The loop of ReplaceAllUsesWith
  /* ---------------------------------------------------------------------- */

  lemma ReplaceStart(g: Graph, to: Node?)
    ensures ReplaceRecorded(g, to, {}) == g
  {
    var h := ReplaceRecorded(g, to, {});
    assert forall u | u in g.kids :: h.kids[u] == g.kids[u];
    assert h.kids == g.kids;
    assert forall n | n in g.uses :: h.uses[n] == g.uses[n];
    assert h.uses == g.uses;
  }

  lemma ReplaceStepKids(g: Graph, to: Node?, done: set<Use>, use: Use)
    requires Slot(g, use) != null && use !in done
    ensures var h, target := ReplaceRecorded(g, to, done), ReplaceRecorded(g, to, done + {use});
            && Slot(h, use) == Slot(g, use)
            && h.kids[use.user := h.kids[use.user][use.fromIndex := to]] == target.kids
  {
    var h, target := ReplaceRecorded(g, to, done), ReplaceRecorded(g, to, done + {use});
    var next := h.kids[use.user := h.kids[use.user][use.fromIndex := to]];
    forall u | u in g.kids
      ensures next[u] == target.kids[u]
    {
      assert |next[u]| == |target.kids[u]|;
    }
  }

  lemma RedirectOne(g: Graph, n: Node, to: Node?, done: set<Use>, use: Use)
    requires n in g.uses && use !in done
    ensures UsesRedirected(g, n, to, done + {use}) ==
            UsesRedirected(g, n, to, done) - (if Slot(g, use) == n then {use} else {}) + if n == to then {use} else {}
  {
  }

  lemma ReplaceStepUses(g: Graph, to: Node?, done: set<Use>, use: Use)
    requires Slot(g, use) != null && InGraph(g, Slot(g, use)) && InGraph(g, to) && use !in done
    ensures var h := ReplaceRecorded(g, to, done);
            WithUse(WithoutUse(h, Slot(g, use), use), to, use).uses == ReplaceRecorded(g, to, done + {use}).uses
  {
    var h := ReplaceRecorded(g, to, done);
    var next := WithUse(WithoutUse(h, Slot(g, use), use), to, use).uses;
    forall n | n in g.uses
      ensures next[n] == UsesRedirected(g, n, to, done + {use})
    {
      RedirectOne(g, n, to, done, use);
    }
  }

  lemma ReplaceStep(g: Graph, to: Node?, done: set<Use>, use: Use)
    requires Slot(g, use) != null && InGraph(g, Slot(g, use)) && InGraph(g, to) && use !in done
    ensures var h := ReplaceRecorded(g, to, done);
            && use.user in h.kids && use.fromIndex < |h.kids[use.user]| && Slot(h, use) != null
            && InGraph(h, Slot(h, use)) && InGraph(h, to)
            && ReplaceChild(h, use.user, use.fromIndex, to) == ReplaceRecorded(g, to, done + {use})
  {
    ReplaceStepKids(g, to, done, use);
    ReplaceStepUses(g, to, done, use);
  }

  // What `to` is to replace is what the recorded uses stand for, or they hold `to` already
  ghost predicate RedirectsRight(g: Graph, from: Node, to: Node?)
    requires from in g.uses
  {
    && (forall use | use in g.uses[from] :: Slot(g, use) == from || Slot(g, use) == to)
    && (forall u, i: nat | u in g.kids && i < |g.kids[u]| && g.kids[u][i] == from && from != to ::
          Use(u, i) in g.uses[from])
  }

  /** On any graph, stale uses included, replacing all uses redirects exactly the slots that
      held the node exactly when each recorded use stands for such a slot, or for one that
      holds the new value already, and each such slot is recorded. */
  lemma ReplaceRedirectsIff(g: Graph, from: Node, to: Node?)
    requires UsesReach(g, from) && g.kids.Keys == g.uses.Keys
    ensures (forall u | u in g.kids ::
               ReplaceRecorded(g, to, g.uses[from]).kids[u] == Redirect(g.kids[u], from, to)) <==>
            RedirectsRight(g, from, to)
  {
    var h := ReplaceRecorded(g, to, g.uses[from]);
    if RedirectsRight(g, from, to) {
      forall u | u in g.kids
        ensures h.kids[u] == Redirect(g.kids[u], from, to)
      {
        forall i: nat | i < |g.kids[u]|
          ensures h.kids[u][i] == Redirect(g.kids[u], from, to)[i]
        {
          assert Use(u, i) in g.uses[from] ==> Slot(g, Use(u, i)) == g.kids[u][i];
        }
      }
    }
    if forall u | u in g.kids :: h.kids[u] == Redirect(g.kids[u], from, to) {
      forall use | use in g.uses[from]
        ensures Slot(g, use) == from || Slot(g, use) == to
      {
        assert h.kids[use.user][use.fromIndex] == Redirect(g.kids[use.user], from, to)[use.fromIndex];
      }
      forall u, i: nat | u in g.kids && i < |g.kids[u]| && g.kids[u][i] == from && from != to
        ensures Use(u, i) in g.uses[from]
      {
        assert h.kids[u][i] == Redirect(g.kids[u], from, to)[i];
      }
    }
  }

  // On a consistent graph the recorded uses are the slots that hold the node
  lemma ReplaceIsReplaceAll(g: Graph, from: Node, to: Node?)
    requires Consistent(g) && InGraph(g, from) && InGraph(g, to)
    ensures UsesReach(g, from) && ReplaceRecorded(g, to, g.uses[from]) == ReplaceAllUses(g, from, to)
  {
    ReplaceMovesSlots(g, from, to);
    ReplaceMovesUses(g, from, to);
  }

  lemma ReplaceMovesSlots(g: Graph, from: Node, to: Node?)
    requires Consistent(g) && InGraph(g, from) && InGraph(g, to)
    ensures ReplaceRecorded(g, to, g.uses[from]).kids == ReplaceAllUses(g, from, to).kids
  {
    var h, target := ReplaceRecorded(g, to, g.uses[from]), ReplaceAllUses(g, from, to);
    forall u | u in g.kids
      ensures h.kids[u] == target.kids[u]
    {
      forall i: nat | i < |g.kids[u]|
        ensures h.kids[u][i] == target.kids[u][i]
      {
        ConsistentMeans(g, u, i, from);
      }
    }
  }

  lemma MovedUses(g: Graph, from: Node, to: Node?, n: Node)
    requires Consistent(g) && InGraph(g, from) && InGraph(g, to) && n in g.uses
    ensures UsesRedirected(g, n, to, g.uses[from]) == ReplaceAllUses(g, from, to).uses[n]
  {
    assert forall use | use in g.uses[n] :: Slot(g, use) == n;
    assert forall use | use in g.uses[from] :: Slot(g, use) == from;
  }

  lemma ReplaceMovesUses(g: Graph, from: Node, to: Node?)
    requires Consistent(g) && InGraph(g, from) && InGraph(g, to)
    ensures ReplaceRecorded(g, to, g.uses[from]).uses == ReplaceAllUses(g, from, to).uses
  {
    var uses, target := ReplaceRecorded(g, to, g.uses[from]).uses, ReplaceAllUses(g, from, to).uses;
    assert uses.Keys == g.uses.Keys == target.Keys;
    forall n | n in g.uses
      ensures uses[n] == target[n]
    {
      MovedUses(g, from, to, n);
    }
  }

  /* ---------------------------------------------------------------------- */
  // When the operations keep the invariant
  /* ---------------------------------------------------------------------- */

  ghost predicate AllNull(kids: seq<Node?>) {
    forall i :: 0 <= i < |kids| ==> kids[i] == null
  }

  // No null child precedes a non-null one
  ghost predicate NullsLast(kids: seq<Node?>) {
    forall i, j :: 0 <= i < j < |kids| && kids[i] == null ==> kids[j] == null
  }

  lemma AppendKeeps(g: Graph, u: Node, n: Node?)
    requires Consistent(g) && u in g.kids && InGraph(g, n)
    ensures Consistent(AppendChild(g, u, n))
  {
  }

  lemma ReplaceKeeps(g: Graph, u: Node, idx: nat, n: Node?)
    requires Consistent(g) && u in g.kids && idx < |g.kids[u]| && g.kids[u][idx] != null && InGraph(g, n)
    ensures InGraph(g, g.kids[u][idx]) && Consistent(ReplaceChild(g, u, idx, n))
  {
  }

  lemma ClearKeeps(g: Graph, u: Node, arity: nat)
    requires Consistent(g) && u in g.kids
    ensures Consistent(ClearChains(g, u, arity))
  {
  }

  lemma ReplaceAllKeeps(g: Graph, from: Node, to: Node?)
    requires Consistent(g) && InGraph(g, from) && InGraph(g, to)
    ensures Consistent(ReplaceAllUses(g, from, to))
  {
  }

  /** What redirecting all uses means, slot by slot and use by use. */
  lemma ReplaceAllMeans(g: Graph, from: Node, to: Node?)
    requires Consistent(g) && InGraph(g, from) && InGraph(g, to)
    ensures from == to ==> ReplaceAllUses(g, from, to) == g
    ensures var h := ReplaceAllUses(g, from, to);
            && h.kids.Keys == g.kids.Keys && h.uses.Keys == g.uses.Keys
            && (from != to ==> h.uses[from] == {})
            && (to != null && from != to ==> h.uses[to] == g.uses[to] + g.uses[from] && g.uses[to] !! g.uses[from])
            && (forall n | n in g.uses && n != from && n != to :: h.uses[n] == g.uses[n])
            && (forall u | u in g.kids :: |h.kids[u]| == |g.kids[u]|)
            && (forall u, i | u in g.kids && 0 <= i < |g.kids[u]| ::
                  h.kids[u][i] == if g.kids[u][i] == from then to else g.kids[u][i])
  {
    assert to != null && from != to ==> forall use :: use in g.uses[to] ==> g.kids[use.user][use.fromIndex] == to;
  }

  // The last child that is not null
  lemma LastNonNull(kids: seq<Node?>) returns (j: nat)
    requires !AllNull(kids)
    ensures j < |kids| && kids[j] != null && forall k :: j < k < |kids| ==> kids[k] == null
  {
    j := |kids| - 1;
    while kids[j] == null
      invariant 0 <= j < |kids| && forall k :: j < k < |kids| ==> kids[k] == null
      decreases j
    {
      assert j > 0 by {
        if j == 0 {
          assert AllNull(kids);
        }
      }
      j := j - 1;
    }
  }

  lemma InsertKeepsIf(g: Graph, u: Node, n: Node?, idx: nat)
    requires Consistent(g) && u in g.kids && InGraph(g, n) && idx <= |g.kids[u]|
    requires AllNull(g.kids[u][idx..])
    ensures Consistent(InsertChild(g, u, n, idx))
  {
    var kids := g.kids[u];
    assert forall i | idx <= i < |kids| :: kids[i] == kids[idx..][i - idx] == null;
  }

  /** Inserting a child keeps the invariant exactly when every child it shifts is null. */
  lemma InsertKeepsIff(g: Graph, u: Node, n: Node?, idx: nat)
    requires Consistent(g) && u in g.kids && InGraph(g, n) && idx <= |g.kids[u]|
    ensures Consistent(InsertChild(g, u, n, idx)) <==> AllNull(g.kids[u][idx..])
  {
    if AllNull(g.kids[u][idx..]) {
      InsertKeepsIf(g, u, n, idx);
    } else {
      var j := LastNonNull(g.kids[u][idx..]);
      var c, h := g.kids[u][idx + j], InsertChild(g, u, n, idx);
      assert h.kids[u][idx + j + 1] == c;
      assert Use(u, idx + j + 1) !in g.uses[c] by {
        ConsistentMeans(g, u, idx + j + 1, c);
        assert idx + j + 1 < |g.kids[u]| ==> g.kids[u][idx..][j + 1] == g.kids[u][idx + j + 1];
      }
      assert Use(u, idx + j + 1) !in h.uses[c];
    }
  }

  lemma RemoveKeepsIf(g: Graph, u: Node, idx: nat)
    requires Consistent(g) && u in g.kids && idx < |g.kids[u]| && g.kids[u][idx] != null
    requires AllNull(g.kids[u][idx + 1..])
    ensures Consistent(RemoveChild(g, u, idx))
  {
    var kids := g.kids[u];
    assert forall i | idx < i < |kids| :: kids[i] == kids[idx + 1..][i - idx - 1] == null;
  }

  /** Removing a child keeps the invariant exactly when every child it shifts is null. */
  lemma RemoveKeepsIff(g: Graph, u: Node, idx: nat)
    requires Consistent(g) && u in g.kids && idx < |g.kids[u]| && g.kids[u][idx] != null
    ensures InGraph(g, g.kids[u][idx])
    ensures Consistent(RemoveChild(g, u, idx)) <==> AllNull(g.kids[u][idx + 1..])
  {
    if AllNull(g.kids[u][idx + 1..]) {
      RemoveKeepsIf(g, u, idx);
    } else {
      var j := LastNonNull(g.kids[u][idx + 1..]);
      var k := idx + 1 + j;
      var c, h := g.kids[u][k], RemoveChild(g, u, idx);
      assert Use(u, k) in h.uses[c];
      assert k < |h.kids[u]| ==> h.kids[u][k] == g.kids[u][k + 1] == g.kids[u][idx + 1..][j + 1];
      assert Use(u, k).user == u && Use(u, k).fromIndex == k;
    }
  }

  /* ---------------------------------------------------------------------- */
  // When destroy releases everything
  /* ---------------------------------------------------------------------- */

  ghost predicate UsedBy(g: Graph, u: Node) {
    exists n, use :: n in g.uses && use in g.uses[n] && use.user == u
  }

  lemma {:induction false} RankOfNullsLast(kids: seq<Node?>, i: nat)
    requires i <= |kids| && forall k :: 0 <= k < i ==> kids[k] != null
    ensures Rank(kids, i) == i
  {
    if i > 0 {
      RankOfNullsLast(kids, i - 1);
    }
  }

  lemma {:induction false} RankIsMonotone(kids: seq<Node?>, i: nat, j: nat)
    requires i <= j <= |kids|
    ensures Rank(kids, i) <= Rank(kids, j) && (i < j && kids[i] != null ==> Rank(kids, i) < Rank(kids, j))
    ensures forall k :: 0 <= k < j && kids[k] == null ==> Rank(kids, j) < j
    decreases j
  {
    if i < j {
      RankIsMonotone(kids, i, j - 1);
    } else if j > 0 {
      RankIsMonotone(kids, j - 1, j - 1);
    }
  }

  /** `destroy` releases every use held by a node exactly when none of its null
      children precedes a non-null one. */
  lemma DestroyReleasesIff(g: Graph, u: Node)
    requires Consistent(g) && u in g.kids
    ensures !UsedBy(Destroyed(g, u), u) <==> NullsLast(g.kids[u])
  {
    var kids, h := g.kids[u], Destroyed(g, u);
    if NullsLast(kids) {
      forall n, use | n in g.uses && use in g.uses[n] && use.user == u
        ensures use !in h.uses[n]
      {
        assert forall k :: 0 <= k < use.fromIndex ==> kids[k] != null;
        RankOfNullsLast(kids, use.fromIndex);
        assert DestroyRemoves(u, kids, |kids|, n, use);
      }
    } else {
      var a, b :| 0 <= a < b < |kids| && kids[a] == null && kids[b] != null;
      var j := LastNonNull(kids);
      assert b <= j;
      var use := Use(u, j);
      forall i | 0 <= i < |kids| && kids[i] == kids[j]
        ensures Rank(kids, i) != j
      {
        RankIsMonotone(kids, i, j);
      }
      assert use in h.uses[kids[j]];
    }
  }

  /** Then, and only then, the rest of the graph is consistent once the destroyed
      node's children are forgotten. */
  lemma DestroyKeepsRestIff(g: Graph, u: Node)
    requires Consistent(g) && u in g.kids
    ensures Consistent(WithKids(Destroyed(g, u), u, [])) <==> NullsLast(g.kids[u])
  {
    DestroyReleasesIff(g, u);
    var h := WithKids(Destroyed(g, u), u, []);
    if NullsLast(g.kids[u]) {
      forall v, i | v in h.kids && 0 <= i < |h.kids[v]| && h.kids[v][i] != null
        ensures h.kids[v][i] in h.uses && Use(v, i) in h.uses[h.kids[v][i]]
      {
        assert Use(v, i).user != u;
      }
      assert UsesAreKids(h) by {
        forall n, use | n in h.uses && use in h.uses[n]
          ensures use.user != u
        {
        }
      }
    } else {
      var n, use :| n in Destroyed(g, u).uses && use in Destroyed(g, u).uses[n] && use.user == u;
      assert use in h.uses[n] && |h.kids[use.user]| == 0;
    }
  }

  /** Destroying twice changes nothing more: the flag that should prevent it is
      never set. */
  lemma DestroyIsIdempotent(g: Graph, u: Node)
    requires u in g.kids
    ensures Destroyed(Destroyed(g, u), u) == Destroyed(g, u)
  {
    var h := Destroyed(g, u);
    assert forall n | n in g.uses :: Destroyed(h, u).uses[n] == h.uses[n];
  }

  /* ---------------------------------------------------------------------- */
  // When pruning the chains is safe
  /* ---------------------------------------------------------------------- */

  // Where the tail of chains that have another user begins, going down from `n`
  ghost function TailStart(g: Graph, u: Node, arity: nat, n: nat): (start: nat)
    requires ChainsInGraph(g, u, arity) && arity <= n <= |g.kids[u]|
    ensures arity <= start <= n
  {
    if n > arity && |ClearChains(g, u, n).uses[g.kids[u][n - 1]]| > 1 then TailStart(g, u, arity, n - 1) else n
  }

  lemma RemoveLast(g: Graph, u: Node)
    requires Consistent(g) && u in g.kids && g.kids[u] != [] && g.kids[u][|g.kids[u]| - 1] != null
    ensures var n := |g.kids[u]| - 1;
            && InGraph(g, g.kids[u][n])
            && RemoveChild(g, u, n) == ClearChains(g, u, n) && Consistent(ClearChains(g, u, n))
  {
    var n := |g.kids[u]| - 1;
    var h, target := RemoveChild(g, u, n), ClearChains(g, u, n);
    assert forall m, use | m in g.uses && use in g.uses[m] && use.user == u && use.fromIndex >= n ::
        use == Use(u, n) && m == g.kids[u][n];
    assert forall m | m in g.uses :: h.uses[m] == target.uses[m];
    assert h.uses == target.uses;
    assert h.kids[u] == target.kids[u];
    ClearKeeps(g, u, n);
  }

  lemma ClearTwice(g: Graph, u: Node, n: nat, k: nat)
    requires u in g.kids && k <= n <= |g.kids[u]|
    ensures ClearChains(ClearChains(g, u, n), u, k) == ClearChains(g, u, k)
  {
    var h := ClearChains(g, u, n);
    assert forall m | m in g.uses :: ClearChains(h, u, k).uses[m] == ClearChains(g, u, k).uses[m];
    assert ClearChains(h, u, k).kids[u] == ClearChains(g, u, k).kids[u];
  }

  lemma ClearNothing(g: Graph, u: Node)
    requires Consistent(g) && u in g.kids
    ensures ClearChains(g, u, |g.kids[u]|) == g
  {
    var h := ClearChains(g, u, |g.kids[u]|);
    assert forall m | m in g.uses :: h.uses[m] == g.uses[m];
    assert h.kids[u] == g.kids[u];
  }

  ghost predicate SingleUsers(g: Graph, u: Node, lo: nat, hi: nat)
    requires ChainsInGraph(g, u, lo) && hi <= |g.kids[u]|
  {
    forall j :: lo <= j < hi ==> |g.uses[g.kids[u][j]]| <= 1
  }

  lemma {:induction false} PruneSkipsSingleUsers(g: Graph, u: Node, arity: nat, i: nat)
    requires ChainsInGraph(g, u, arity) && arity <= i <= |g.kids[u]| && SingleUsers(g, u, arity, i)
    ensures Pruned(g, u, arity, i) == g
    decreases i
  {
    if i > arity {
      PruneSkipsSingleUsers(g, u, arity, i - 1);
    }
  }

  // A use of `u` recorded past the end of its children
  ghost predicate PastTheEnd(g: Graph, u: Node, n: Node, use: Use) {
    u in g.kids && n in g.uses && use in g.uses[n] && use.user == u && use.fromIndex >= |g.kids[u]|
  }

  lemma RemoveKeepsPastTheEnd(g: Graph, u: Node, idx: nat, n: Node, use: Use)
    requires PastTheEnd(g, u, n, use) && idx < |g.kids[u]| && g.kids[u][idx] != null && InGraph(g, g.kids[u][idx])
    ensures PastTheEnd(RemoveChild(g, u, idx), u, n, use)
  {
  }

  // Pruning never cleans it up
  lemma {:induction false} StaleUseStays(g: Graph, u: Node, arity: nat, i: nat, n: Node, use: Use)
    requires ChainsInGraph(g, u, arity) && arity <= i <= |g.kids[u]| && PastTheEnd(g, u, n, use)
    ensures PastTheEnd(Pruned(g, u, arity, i), u, n, use)
    decreases i
  {
    if i > arity {
      if |g.uses[g.kids[u][i - 1]]| > 1 {
        RemoveKeepsPastTheEnd(g, u, i - 1, n, use);
        StaleUseStays(RemoveChild(g, u, i - 1), u, arity, i - 1, n, use);
      } else {
        StaleUseStays(g, u, arity, i - 1, n, use);
      }
    }
  }

  lemma {:induction false} PruneBelowBreaks(g: Graph, u: Node, arity: nat, i: nat)
    requires Consistent(g) && ChainsInGraph(g, u, arity) && arity <= i < |g.kids[u]|
    requires !SingleUsers(g, u, arity, i)
    ensures !Consistent(Pruned(g, u, arity, i))
    decreases i
  {
    if |g.uses[g.kids[u][i - 1]]| > 1 {
      var last := |g.kids[u]| - 1;
      var h := RemoveChild(g, u, i - 1);
      assert Use(u, last) in h.uses[g.kids[u][last]];
      StaleUseStays(h, u, arity, i - 1, g.kids[u][last], Use(u, last));
    } else {
      PruneBelowBreaks(g, u, arity, i - 1);
    }
  }

  lemma ClearedChains(g: Graph, u: Node, arity: nat, n: nat)
    requires Consistent(g) && ChainsInGraph(g, u, arity) && arity <= n <= |g.kids[u]|
    ensures var h := ClearChains(g, u, n);
            Consistent(h) && ChainsInGraph(h, u, arity) && h.kids[u] == g.kids[u][..n]
  {
    ClearKeeps(g, u, n);
  }

  // Pruning the graph whose children from `n` up are already gone
  ghost function PrunedFrom(g: Graph, u: Node, arity: nat, n: nat): Graph
    requires Consistent(g) && ChainsInGraph(g, u, arity) && arity <= n <= |g.kids[u]|
  {
    ClearedChains(g, u, arity, n);
    Pruned(ClearChains(g, u, n), u, arity, n)
  }

  lemma PruneDropsLast(g: Graph, u: Node, arity: nat, n: nat)
    requires Consistent(g) && ChainsInGraph(g, u, arity) && arity < n <= |g.kids[u]|
    requires |ClearChains(g, u, n).uses[g.kids[u][n - 1]]| > 1
    ensures PrunedFrom(g, u, arity, n) == PrunedFrom(g, u, arity, n - 1)
  {
    var h := ClearChains(g, u, n);
    ClearedChains(g, u, arity, n);
    RemoveLast(h, u);
    ClearTwice(g, u, n, n - 1);
    assert h.kids[u][n - 1] == g.kids[u][n - 1];
    assert RemoveChild(h, u, n - 1) == ClearChains(g, u, n - 1);
  }

  lemma {:induction false} PruneDropsTail(g: Graph, u: Node, arity: nat, n: nat)
    requires Consistent(g) && ChainsInGraph(g, u, arity) && arity <= n <= |g.kids[u]|
    ensures PrunedFrom(g, u, arity, n) == PrunedFrom(g, u, arity, TailStart(g, u, arity, n))
    decreases n
  {
    if n > arity && |ClearChains(g, u, n).uses[g.kids[u][n - 1]]| > 1 {
      PruneDropsLast(g, u, arity, n);
      PruneDropsTail(g, u, arity, n - 1);
    }
  }

  // When the last chain is kept, any pruning below it shifts it
  lemma PruneBelowKept(h: Graph, u: Node, arity: nat)
    requires Consistent(h) && ChainsInGraph(h, u, arity) && arity <= |h.kids[u]|
    requires |h.kids[u]| > arity ==> |h.uses[h.kids[u][|h.kids[u]| - 1]]| <= 1
    ensures var n := |h.kids[u]|;
            && (Consistent(Pruned(h, u, arity, n)) <==> SingleUsers(h, u, arity, n))
            && (SingleUsers(h, u, arity, n) ==> Pruned(h, u, arity, n) == h)
  {
    var n := |h.kids[u]|;
    if SingleUsers(h, u, arity, n) {
      PruneSkipsSingleUsers(h, u, arity, n);
    } else {
      assert !SingleUsers(h, u, arity, n - 1);
      PruneBelowBreaks(h, u, arity, n - 1);
    }
  }

  lemma PruneReachesTail(g: Graph, u: Node, arity: nat)
    requires Consistent(g) && ChainsInGraph(g, u, arity) && arity <= |g.kids[u]|
    ensures var start := TailStart(g, u, arity, |g.kids[u]|);
            var h := ClearChains(g, u, start);
            && Consistent(h) && ChainsInGraph(h, u, arity)
            && h.kids[u] == g.kids[u][..start]
            && Pruned(g, u, arity, |g.kids[u]|) == Pruned(h, u, arity, start)
  {
    var n := |g.kids[u]|;
    ClearNothing(g, u);
    PruneDropsTail(g, u, arity, n);
    ClearedChains(g, u, arity, TailStart(g, u, arity, n));
  }

  /** Pruning the chains leaves a consistent graph exactly when, once the last chains
      with another user are gone, no remaining chain has another user; the result is
      then the graph without that tail. */
  lemma PruneKeepsIff(g: Graph, u: Node, arity: nat)
    requires Consistent(g) && ChainsInGraph(g, u, arity) && arity <= |g.kids[u]|
    ensures var start := TailStart(g, u, arity, |g.kids[u]|);
            var h := ClearChains(g, u, start);
            && ChainsInGraph(h, u, arity) && |h.kids[u]| == start
            && (Consistent(Pruned(g, u, arity, |g.kids[u]|)) <==> SingleUsers(h, u, arity, start))
            && (SingleUsers(h, u, arity, start) ==> Pruned(g, u, arity, |g.kids[u]|) == h)
  {
    var n := |g.kids[u]|;
    PruneReachesTail(g, u, arity);
    LastKeptIsSingle(g, u, arity, n);
    PruneBelowKept(ClearChains(g, u, TailStart(g, u, arity, n)), u, arity);
  }

  lemma {:induction false} LastKeptIsSingle(g: Graph, u: Node, arity: nat, n: nat)
    requires ChainsInGraph(g, u, arity) && arity <= n <= |g.kids[u]|
    ensures var start := TailStart(g, u, arity, n);
            start > arity ==> |ClearChains(g, u, start).uses[g.kids[u][start - 1]]| <= 1
    decreases n
  {
    if n > arity && |ClearChains(g, u, n).uses[g.kids[u][n - 1]]| > 1 {
      LastKeptIsSingle(g, u, arity, n - 1);
    }
  }

  // The uses of `n` that the children of `u` from `lo` to before `hi` release, unless kept
  ghost function DroppedUses(kids: seq<Node?>, u: Node, lo: nat, hi: nat, kept: set<nat>, n: Node?): set<Use>
    requires hi <= |kids|
  {
    set j: nat | lo <= j < hi && j !in kept && kids[j] == n :: Use(u, j)
  }

  // The kept ones among the children from `lo` to before `hi`, in order
  ghost function KeptKids(kids: seq<Node?>, lo: nat, hi: nat, kept: set<nat>): seq<Node?>
    requires hi <= |kids|
  {
    if hi <= lo then [] else KeptKids(kids, lo, hi - 1, kept) + if hi - 1 in kept then [kids[hi - 1]] else []
  }

  // A chain is kept when it has no other user, counting what the later ones have released
  ghost predicate KeepsSingleUsers(g: Graph, u: Node, arity: nat, i: nat, kept: set<nat>)
    requires ChainsInGraph(g, u, arity) && i <= |g.kids[u]|
  {
    forall k: nat :: arity <= k < i ==> KeptIfSingle(g, u, k, i, kept)
  }

  ghost predicate KeptIfSingle(g: Graph, u: Node, k: nat, i: nat, kept: set<nat>)
    requires u in g.kids && k < i <= |g.kids[u]| && g.kids[u][k] in g.uses
  {
    k in kept <==> |g.uses[g.kids[u][k]] - DroppedUses(g.kids[u], u, k + 1, i, kept, g.kids[u][k])| <= 1
  }

  lemma DroppedMore(kids: seq<Node?>, u: Node, lo: nat, i: nat, kept: set<nat>, n: Node?)
    requires lo < i <= |kids|
    ensures DroppedUses(kids, u, lo, i, kept, n) ==
            DroppedUses(kids, u, lo, i - 1, kept, n) +
            if i - 1 !in kept && kids[i - 1] == n then {Use(u, i - 1)} else {}
  {
  }

  lemma {:induction false} SameKids(
      a: seq<Node?>, b: seq<Node?>, u: Node, lo: nat, i: nat, kept: set<nat>, more: set<nat>)
    requires i <= |a| && i <= |b| && a[..i] == b[..i]
    requires forall k: nat :: k < i ==> (k in kept <==> k in more)
    ensures KeptKids(a, lo, i, kept) == KeptKids(b, lo, i, more)
    ensures forall n :: DroppedUses(a, u, lo, i, kept, n) == DroppedUses(b, u, lo, i, more, n)
    decreases i
  {
    assert forall k :: 0 <= k < i ==> a[k] == a[..i][k] == b[k];
    if i > lo {
      assert a[..i - 1] == b[..i - 1];
      SameKids(a, b, u, lo, i - 1, kept, more);
    }
  }

  // What pruning the children from `i` down to `arity` makes of a graph, with those kept
  ghost predicate Prunes(g: Graph, h: Graph, u: Node, arity: nat, i: nat, kept: set<nat>)
    requires ChainsInGraph(g, u, arity) && arity <= i <= |g.kids[u]|
  {
    && (forall k :: k in kept ==> arity <= k < i) && KeepsSingleUsers(g, u, arity, i, kept)
    && OnlyChanges(g, h, u, g.uses.Keys)
    && h.kids[u] == g.kids[u][..arity] + KeptKids(g.kids[u], arity, i, kept) + g.kids[u][i..]
    && forall n | n in g.uses :: h.uses[n] == g.uses[n] - DroppedUses(g.kids[u], u, arity, i, kept, n)
  }

  /** Pruning, on any graph: going down, each chain that has no other user left is kept, and
      each other one is dropped and has released its use; the kept ones stay in order. */
  lemma {:induction false} PruneMeans(g: Graph, u: Node, arity: nat, i: nat) returns (kept: set<nat>)
    requires ChainsInGraph(g, u, arity) && arity <= i <= |g.kids[u]|
    ensures Prunes(g, Pruned(g, u, arity, i), u, arity, i, kept)
    decreases i
  {
    if i == arity {
      kept := {};
      PruneNothing(g, u, arity);
    } else {
      var drops := |g.uses[g.kids[u][i - 1]]| > 1;
      var g' := if drops then RemoveChild(g, u, i - 1) else g;
      RemoveKeepsIfDropped(g, u, arity, i - 1, drops);
      var before := PruneMeans(g', u, arity, i - 1);
      kept := if drops then before else before + {i - 1};
      PruneOne(g, g', Pruned(g, u, arity, i), u, arity, i, before, kept);
    }
  }

  lemma PruneNothing(g: Graph, u: Node, arity: nat)
    requires ChainsInGraph(g, u, arity) && arity <= |g.kids[u]|
    ensures Prunes(g, g, u, arity, arity, {})
  {
    var kids := g.kids[u];
    assert kids[..arity] + [] + kids[arity..] == kids;
    assert forall n :: DroppedUses(kids, u, arity, arity, {}, n) == {};
  }

  lemma PruneOne(g: Graph, g': Graph, h: Graph, u: Node, arity: nat, i: nat, before: set<nat>, kept: set<nat>)
    requires PrunesOne(g, g', u, arity, i, before, kept)
    requires ChainsInGraph(g', u, arity) && i - 1 <= |g'.kids[u]| && Prunes(g', h, u, arity, i - 1, before)
    ensures Prunes(g, h, u, arity, i, kept)
  {
    PruneOneKeeps(g, g', u, arity, i, before, kept);
    PruneOneOrder(g, g', u, arity, i, before, kept);
    forall n | n in g.uses
      ensures h.uses[n] == g.uses[n] - DroppedUses(g.kids[u], u, arity, i, kept, n)
    {
      PruneOneDrops(g, g', u, arity, i, before, kept, arity, n);
    }
  }

  // The children from `i` down were treated, with `kept`: before that, `i - 1` was dropped or not
  ghost predicate PrunesOne(g: Graph, g': Graph, u: Node, arity: nat, i: nat, before: set<nat>, kept: set<nat>) {
    && ChainsInGraph(g, u, arity) && arity < i <= |g.kids[u]|
    && (forall k :: k in before ==> arity <= k < i - 1)
    && var drops := |g.uses[g.kids[u][i - 1]]| > 1;
       && g' == (if drops then RemoveChild(g, u, i - 1) else g)
       && kept == (if drops then before else before + {i - 1})
  }

  lemma PruneOneDrops(g: Graph, g': Graph, u: Node, arity: nat, i: nat, before: set<nat>, kept: set<nat>,
                      lo: nat, n: Node)
    requires PrunesOne(g, g', u, arity, i, before, kept) && arity <= lo < i && n in g.uses
    ensures ChainsInGraph(g', u, arity) && i - 1 <= |g'.kids[u]|
    ensures g'.uses[n] - DroppedUses(g'.kids[u], u, lo, i - 1, before, n) ==
            g.uses[n] - DroppedUses(g.kids[u], u, lo, i, kept, n)
  {
    RemoveKeepsIfDropped(g, u, arity, i - 1, |g.uses[g.kids[u][i - 1]]| > 1);
    SameKids(g.kids[u], g'.kids[u], u, lo, i - 1, kept, before);
    DroppedMore(g.kids[u], u, lo, i, kept, n);
  }

  lemma PruneOneKeeps(g: Graph, g': Graph, u: Node, arity: nat, i: nat, before: set<nat>, kept: set<nat>)
    requires PrunesOne(g, g', u, arity, i, before, kept)
    requires ChainsInGraph(g', u, arity) && i - 1 <= |g'.kids[u]| && KeepsSingleUsers(g', u, arity, i - 1, before)
    ensures KeepsSingleUsers(g, u, arity, i, kept)
  {
    forall k: nat | arity <= k < i
      ensures KeptIfSingle(g, u, k, i, kept)
    {
      if k == i - 1 {
        var n := g.kids[u][k];
        assert DroppedUses(g.kids[u], u, i, i, kept, n) == {};
        assert g.uses[n] - {} == g.uses[n];
      } else {
        KeptBelow(g, g', u, arity, i, before, kept, k);
      }
    }
  }

  lemma KeptBelow(g: Graph, g': Graph, u: Node, arity: nat, i: nat, before: set<nat>, kept: set<nat>, k: nat)
    requires PrunesOne(g, g', u, arity, i, before, kept) && arity <= k < i - 1
    requires ChainsInGraph(g', u, arity) && i - 1 <= |g'.kids[u]| && KeptIfSingle(g', u, k, i - 1, before)
    ensures KeptIfSingle(g, u, k, i, kept)
  {
    PruneOneSlot(g, g', u, arity, i, before, kept, k);
    var n := g.kids[u][k];
    PruneOneDrops(g, g', u, arity, i, before, kept, k + 1, n);
    var left := g.uses[n] - DroppedUses(g.kids[u], u, k + 1, i, kept, n);
    assert KeptIfSingle(g', u, k, i - 1, before) <==> (k in before <==> |left| <= 1);
  }

  lemma PruneOneSlot(g: Graph, g': Graph, u: Node, arity: nat, i: nat, before: set<nat>, kept: set<nat>, k: nat)
    requires PrunesOne(g, g', u, arity, i, before, kept) && k < i - 1
    ensures u in g'.kids && i - 1 <= |g'.kids[u]| && g'.kids[u][k] == g.kids[u][k] && (k in kept <==> k in before)
  {
    RemoveKeepsIfDropped(g, u, arity, i - 1, |g.uses[g.kids[u][i - 1]]| > 1);
    assert g'.kids[u][k] == g'.kids[u][..i - 1][k];
  }

  lemma PruneOneOrder(g: Graph, g': Graph, u: Node, arity: nat, i: nat, before: set<nat>, kept: set<nat>)
    requires PrunesOne(g, g', u, arity, i, before, kept)
    ensures ChainsInGraph(g', u, arity) && i - 1 <= |g'.kids[u]|
    ensures g'.kids[u][..arity] + KeptKids(g'.kids[u], arity, i - 1, before) + g'.kids[u][i - 1..] ==
            g.kids[u][..arity] + KeptKids(g.kids[u], arity, i, kept) + g.kids[u][i..]
  {
    var kids, drops := g.kids[u], |g.uses[g.kids[u][i - 1]]| > 1;
    RemoveKeepsIfDropped(g, u, arity, i - 1, drops);
    SameKids(kids, g'.kids[u], u, arity, i - 1, kept, before);
    assert g'.kids[u][..arity] == g'.kids[u][..i - 1][..arity] == kids[..arity];
    var front := kids[..arity] + KeptKids(kids, arity, i - 1, kept);
    if !drops {
      assert kids[i - 1..] == [kids[i - 1]] + kids[i..];
      assert front + ([kids[i - 1]] + kids[i..]) == (front + [kids[i - 1]]) + kids[i..];
      assert (kids[..arity] + KeptKids(kids, arity, i - 1, kept)) + [kids[i - 1]] ==
             kids[..arity] + (KeptKids(kids, arity, i - 1, kept) + [kids[i - 1]]);
    } else {
      assert KeptKids(kids, arity, i, kept) == KeptKids(kids, arity, i - 1, kept) + [];
    }
  }

  lemma RemoveKeepsIfDropped(g: Graph, u: Node, arity: nat, i: nat, drops: bool)
    requires ChainsInGraph(g, u, arity) && arity <= i < |g.kids[u]|
    ensures var g' := if drops then RemoveChild(g, u, i) else g;
            && ChainsInGraph(g', u, arity) && i <= |g'.kids[u]| && g'.kids[u][..i] == g.kids[u][..i]
            && g'.kids[u][i..] == g.kids[u][if drops then i + 1 else i..]
  {
    if drops {
      RemoveKeepsChains(g, u, arity, i);
    }
  }

  /* ---------------------------------------------------------------------- */
  // Building a phi node
  /* ---------------------------------------------------------------------- */

  ghost predicate AllInGraph(g: Graph, ns: seq<Node?>) {
    forall i :: 0 <= i < |ns| ==> InGraph(g, ns[i])
  }

  // Inserts the nodes at `idx`, `idx + 2`, ...; None when an index lies past the end
  ghost function InsertEveryOther(g: Graph, u: Node, ns: seq<Node?>, idx: nat): (r: Option<Graph>)
    requires u in g.kids && AllInGraph(g, ns)
    ensures r.Some? ==> r.value.kids.Keys == g.kids.Keys && r.value.uses.Keys == g.uses.Keys
    decreases |ns|
  {
    if ns == [] then Some(g)
    else if idx > |g.kids[u]| then None
    else InsertEveryOther(InsertChild(g, u, ns[0], idx), u, ns[1..], idx + 2)
  }

  // The values go to the even slots, then the blocks to the odd ones
  ghost function BuildPhi(g: Graph, u: Node, values: seq<Node?>, preds: seq<Node?>): Option<Graph>
    requires u in g.kids && AllInGraph(g, values) && AllInGraph(g, preds)
  {
    var r := InsertEveryOther(g, u, values, 0);
    if r.None? then None else InsertEveryOther(r.value, u, preds, 1)
  }

  lemma InsertOne(g: Graph, u: Node, operands: seq<Node?>, idx: nat)
    requires u in g.kids && AllInGraph(g, operands) && |operands| == 1 && idx <= |g.kids[u]|
    ensures InGraph(g, operands[0])
    ensures InsertEveryOther(g, u, operands, idx) == Some(InsertChild(g, u, operands[0], idx))
  {
    assert InsertEveryOther(InsertChild(g, u, operands[0], idx), u, operands[1..], idx + 2).Some?;
  }

  lemma InsertFirstTwo(g: Graph, u: Node, a: Node?, b: Node?)
    requires Consistent(g) && u in g.kids && g.kids[u] == [] && InGraph(g, a) && InGraph(g, b)
    ensures var h := InsertChild(g, u, a, 0);
            && u in h.kids && h.kids[u] == [a] && InGraph(h, b)
            && var k := InsertChild(h, u, b, 1); Consistent(k) && k.kids == g.kids[u := [a, b]]
  {
    var h := InsertChild(g, u, a, 0);
    InsertKeepsIff(g, u, a, 0);
    assert h.kids[u] == [a];
    InsertKeepsIff(h, u, b, 1);
    var k := InsertChild(h, u, b, 1);
    assert k.kids[u] == [a, b];
    assert k.kids == g.kids[u := [a, b]];
  }

  /** A phi node can be built from a list of incoming values exactly when the list
      has at most one, and then its children are the value and its block. */
  lemma PhiNeedsAtMostOneValue(g: Graph, u: Node, values: seq<Node?>, preds: seq<Node?>)
    requires Consistent(g) && u in g.kids && g.kids[u] == [] && |values| == |preds|
    requires AllInGraph(g, values) && AllInGraph(g, preds)
    ensures BuildPhi(g, u, values, preds).Some? <==> |values| <= 1
    ensures |values| == 1 ==>
              var h := BuildPhi(g, u, values, preds).value;
              Consistent(h) && h.kids == g.kids[u := [values[0], preds[0]]]
  {
    if |values| == 1 {
      var h := InsertChild(g, u, values[0], 0);
      InsertFirstTwo(g, u, values[0], preds[0]);
      InsertOne(g, u, values, 0);
      InsertOne(h, u, preds, 1);
    } else if |values| > 1 {
      assert InsertEveryOther(InsertChild(g, u, values[0], 0), u, values[1..], 2).None?;
    }
  }

  /* ---------------------------------------------------------------------- */
  // Runs
  /* ---------------------------------------------------------------------- */

  datatype Op =
    | Append(user: Node, operand: Node?)
    | Insert(user: Node, operand: Node?, idx: nat)
    | Remove(user: Node, idx: nat)
    | Replace(user: Node, idx: nat, operand: Node?)
    | Clear(user: Node, arity: nat)
    | Prune(user: Node, arity: nat)
    | Destroy(user: Node)
    | ReplaceAll(from: Node, operand: Node?)

  // A graph and the nodes destroyed so far: these are not used as users any more, and in
  // the graph of the living they count as having no children
  datatype World = World(g: Graph, dead: set<Node>)

  // What the program itself asks of a caller
  ghost predicate Legal(w: World, op: Op) {
    var g := w.g;
    && g.kids.Keys == g.uses.Keys
    && (!op.ReplaceAll? ==> op.user in g.kids && op.user !in w.dead)
    && match op
       case Append(u, n) => InGraph(g, n)
       case Insert(u, n, idx) => InGraph(g, n) && idx <= |g.kids[u]|
       case Remove(u, idx) => idx < |g.kids[u]| && g.kids[u][idx] != null && InGraph(g, g.kids[u][idx])
       case Replace(u, idx, n) =>
         idx < |g.kids[u]| && g.kids[u][idx] != null && InGraph(g, g.kids[u][idx]) && InGraph(g, n)
       case Clear(u, arity) => ChainsInGraph(g, u, arity)
       case Prune(u, arity) => ChainsInGraph(g, u, arity) && arity <= |g.kids[u]|
       case Destroy(u) => true
       case ReplaceAll(from, n) => InGraph(g, from) && InGraph(g, n) && UsesReach(g, from)
  }

  ghost function Apply(w: World, op: Op): World
    requires Legal(w, op)
  {
    var g := w.g;
    match op
    case Append(u, n) => w.(g := AppendChild(g, u, n))
    case Insert(u, n, idx) => w.(g := InsertChild(g, u, n, idx))
    case Remove(u, idx) => w.(g := RemoveChild(g, u, idx))
    case Replace(u, idx, n) => w.(g := ReplaceChild(g, u, idx, n))
    case Clear(u, arity) => w.(g := ReleaseChains(g, u, arity))
    case Prune(u, arity) => w.(g := Pruned(g, u, arity, |g.kids[u]|))
    case Destroy(u) => World(WithKids(Destroyed(g, u), u, []), w.dead + {u})
    case ReplaceAll(from, n) => w.(g := ReplaceRecorded(g, n, g.uses[from]))
  }

  // What a caller must check so that the two directions stay consistent
  ghost predicate Sound(w: World, op: Op)
    requires Legal(w, op)
  {
    var g := w.g;
    match op
    case Insert(u, _, idx) => AllNull(g.kids[u][idx..])
    case Remove(u, idx) => AllNull(g.kids[u][idx + 1..])
    case Prune(u, arity) => PrunesTail(g, u, arity)
    case Destroy(u) => NullsLast(g.kids[u])
    case _ => true
  }

  // Once the last chains with another user are gone, no remaining one has another user
  ghost predicate PrunesTail(g: Graph, u: Node, arity: nat)
    requires ChainsInGraph(g, u, arity) && arity <= |g.kids[u]|
  {
    var start := TailStart(g, u, arity, |g.kids[u]|);
    var h := ClearChains(g, u, start);
    ChainsInGraph(h, u, arity) && start <= |h.kids[u]| && SingleUsers(h, u, arity, start)
  }

  /** One operation keeps the living nodes consistent exactly when it is sound: it shifts no
      child, prunes only a tail, and destroys no node whose null children are not last. */
  lemma StepKeepsIff(w: World, op: Op)
    requires Consistent(w.g) && Legal(w, op)
    ensures Consistent(Apply(w, op).g) <==> Sound(w, op)
  {
    var g := w.g;
    match op
    case Append(u, n) => AppendKeeps(g, u, n);
    case Insert(u, n, idx) => InsertKeepsIff(g, u, n, idx);
    case Remove(u, idx) => RemoveKeepsIff(g, u, idx);
    case Replace(u, idx, n) => ReplaceKeeps(g, u, idx, n);
    case Clear(u, arity) =>
      ReleaseReleasesIff(g, u, arity);
      ClearKeeps(g, u, arity);
    case Prune(u, arity) => PruneKeepsIff(g, u, arity);
    case Destroy(u) => DestroyKeepsRestIff(g, u);
    case ReplaceAll(from, n) =>
      ReplaceIsReplaceAll(g, from, n);
      ReplaceAllKeeps(g, from, n);
  }

  ghost predicate LegalRun(w: World, ops: seq<Op>)
    decreases |ops|
  {
    ops != [] ==> Legal(w, ops[0]) && LegalRun(Apply(w, ops[0]), ops[1..])
  }

  // The worlds passed through, the first one included
  ghost function Worlds(w: World, ops: seq<Op>): (ws: seq<World>)
    requires LegalRun(w, ops)
    ensures |ws| == |ops| + 1 && ws[0] == w
    decreases |ops|
  {
    if ops == [] then [w] else [w] + Worlds(Apply(w, ops[0]), ops[1..])
  }

  ghost predicate SoundRun(w: World, ops: seq<Op>)
    requires LegalRun(w, ops)
    decreases |ops|
  {
    ops != [] ==> Sound(w, ops[0]) && SoundRun(Apply(w, ops[0]), ops[1..])
  }

  ghost predicate AllConsistent(ws: seq<World>) {
    forall i :: 0 <= i < |ws| ==> Consistent(ws[i].g)
  }

  lemma AllConsistentFirst(w: World, ws: seq<World>)
    ensures AllConsistent([w] + ws) <==> Consistent(w.g) && AllConsistent(ws)
  {
    var all := [w] + ws;
    assert all[0] == w;
    assert forall i :: 0 <= i < |ws| ==> all[i + 1] == ws[i];
  }

  /** A run keeps the living nodes consistent throughout exactly when every step is sound. */
  lemma {:induction false} RunKeepsIff(w: World, ops: seq<Op>)
    requires Consistent(w.g) && LegalRun(w, ops)
    ensures AllConsistent(Worlds(w, ops)) <==> SoundRun(w, ops)
    decreases |ops|
  {
    if ops != [] {
      var next := Apply(w, ops[0]);
      var rest := Worlds(next, ops[1..]);
      StepKeepsIff(w, ops[0]);
      AllConsistentFirst(w, rest);
      if Consistent(next.g) {
        RunKeepsIff(next, ops[1..]);
      } else {
        assert rest[0] == next;
      }
    }
  }

  /* ---------------------------------------------------------------------- */
  // Graphs on which the operations break the invariant
  /* ---------------------------------------------------------------------- */

  // Nodes without children
  ghost function Unconnected(nodes: set<Node>): Graph {
    Graph(map n | n in nodes :: [], map n | n in nodes :: {})
  }

  ghost function TwoChildren(nodes: set<Node>, u: Node, a: Node?, b: Node?): Graph
    requires u in nodes && (a != null ==> a in nodes) && (b != null ==> b in nodes)
  {
    AppendChild(AppendChild(Unconnected(nodes), u, a), u, b)
  }

  lemma TwoChildrenAre(nodes: set<Node>, u: Node, a: Node?, b: Node?)
    requires u in nodes && (a != null ==> a in nodes) && (b != null ==> b in nodes)
    ensures var g := TwoChildren(nodes, u, a, b);
            Consistent(g) && g.kids.Keys == g.uses.Keys == nodes && g.kids[u] == [a, b]
  {
    AppendKeeps(Unconnected(nodes), u, a);
    AppendKeeps(AppendChild(Unconnected(nodes), u, a), u, b);
  }

  /** Removing the first of two children breaks the graph. */
  lemma RemoveBreaks(nodes: set<Node>, u: Node, a: Node)
    requires u in nodes && a in nodes
    ensures var g := TwoChildren(nodes, u, a, a);
            && Consistent(g) && g.kids[u] == [a, a] && InGraph(g, a)
            && !Consistent(RemoveChild(g, u, 0))
  {
    var g := TwoChildren(nodes, u, a, a);
    TwoChildrenAre(nodes, u, a, a);
    RemoveKeepsIff(g, u, 0);
    assert g.kids[u][1..][0] == a;
  }

  /** Inserting before a child breaks it. */
  lemma InsertBreaks(nodes: set<Node>, u: Node, a: Node)
    requires u in nodes && a in nodes
    ensures var g := TwoChildren(nodes, u, a, a);
            && Consistent(g) && g.kids[u] == [a, a] && InGraph(g, a)
            && !Consistent(InsertChild(g, u, a, 0))
  {
    var g := TwoChildren(nodes, u, a, a);
    TwoChildrenAre(nodes, u, a, a);
    InsertKeepsIff(g, u, a, 0);
    assert g.kids[u][0..][0] == a;
  }

  /** Destroying a node with a null child before another leaves a use by it recorded. */
  lemma DestroyForgets(nodes: set<Node>, u: Node, a: Node)
    requires u in nodes && a in nodes
    ensures var g := TwoChildren(nodes, u, null, a);
            && Consistent(g) && g.kids[u] == [null, a]
            && UsedBy(Destroyed(g, u), u)
  {
    var g := TwoChildren(nodes, u, null, a);
    TwoChildrenAre(nodes, u, null, a);
    DestroyReleasesIff(g, u);
    assert g.kids[u][0] == null && g.kids[u][1] == a;
  }

  /** Pruning the chains of a branch breaks the graph when the first chain has another user
      and the last has not. */
  lemma PruneBreaks(nodes: set<Node>, branch: Node, user: Node, a: Node, b: Node)
    requires {branch, user, a, b} <= nodes && branch != user && a != b
    ensures var g := AppendChild(TwoChildren(nodes, branch, a, b), user, a);
            && Consistent(g) && g.kids[branch] == [a, b] && ChainsInGraph(g, branch, 0)
            && !Consistent(Pruned(g, branch, 0, 2))
  {
    var before := TwoChildren(nodes, branch, a, b);
    var g := AppendChild(before, user, a);
    TwoChildrenAre(nodes, branch, a, b);
    AppendKeeps(before, user, a);
    OnlyUse(g, nodes, branch, user, a, b);
    ClearNothing(g, branch);
    assert TailStart(g, branch, 0, 2) == 2;
    PruneKeepsIff(g, branch, 0);
  }

  lemma OnlyUse(g: Graph, nodes: set<Node>, branch: Node, user: Node, a: Node, b: Node)
    requires {branch, user, a, b} <= nodes && branch != user && a != b
    requires g == AppendChild(TwoChildren(nodes, branch, a, b), user, a)
    ensures |g.uses[b]| == 1 && |g.uses[a]| == 2
  {
    assert g.uses[b] == {Use(branch, 1)};
    assert g.uses[a] == {Use(branch, 0), Use(user, 0)};
    assert Use(branch, 0) != Use(user, 0);
  }

  /** After the first of three children is removed, replacing the next one by `n` overwrites
      the third instead. */
  lemma StaleUseRedirectsWrong(nodes: set<Node>, u: Node, a: Node, b: Node, c: Node, n: Node?)
    requires {u, a, b, c} <= nodes && b != c
    ensures var g := AppendChild(TwoChildren(nodes, u, a, b), u, c);
            && Consistent(g) && g.kids[u] == [a, b, c] && InGraph(g, a)
            && var h := RemoveChild(g, u, 0);
               UsesReach(h, b) && h.kids[u] == [b, c] && ReplaceRecorded(h, n, h.uses[b]).kids[u] == [b, n]
  {
    var before := TwoChildren(nodes, u, a, b);
    var g := AppendChild(before, u, c);
    TwoChildrenAre(nodes, u, a, b);
    AppendKeeps(before, u, c);
    assert g.kids[u] == [a, b, c];
    var h := RemoveChild(g, u, 0);
    assert h.kids[u] == [b, c];
    assert h.uses[b] == {Use(u, 1)};
    assert Slot(h, Use(u, 1)) == c;
  }

  /** The first of these, step by step in memory. */
  method RemoveInMemory() returns (u: Node, a: Node, ghost before: Graph)
    ensures Consistent(before) && !Consistent(Snapshot({u, a}))
    ensures before.kids.Keys == {u, a} && before.kids[u] == [a, a] && u.children == [a]
  {
    u := new Node();
    a := new Node();
    ghost var nodes := {u, a};
    assert Snapshot(nodes) == Unconnected(nodes);
    u.AddChild(a, nodes);
    u.AddChild(a, nodes);
    before := Snapshot(nodes);
    RemoveBreaks(nodes, u, a);
    assert u.children == before.kids[u];
    u.RemoveChildAt(0, nodes);
    assert u.children == Snapshot(nodes).kids[u];
  }
}
