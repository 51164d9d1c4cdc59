/** Lexical scopes as sequences of events.

    While a method body is parsed, a live symbol table says which locals are in
    scope.  Every expression and declaration also records a scope node, and the
    later passes, which no longer have the table, decide visibility from those
    nodes alone.  This module states both sides as functions of the run and
    proves that they agree for every use in every run. */
module ScopeSpec {
  import opened Wrappers

  // The null parent of the outermost nodes
  const NULL := -1

  // A scope node; the parent is the index of another node, or NULL
  datatype Node = Node(parent: int, pos: int)

  // A declaration is identified by its name and by its own scope node
  datatype Decl = Decl(name: string, scope: int)

  /* ---------------------------------------------------------------------- */
  // Scope trees and visibility
  /* ---------------------------------------------------------------------- */

  // Nodes are allocated after their parents
  ghost predicate Tree(nodes: seq<Node>) {
    forall i :: 0 <= i < |nodes| ==> NULL <= nodes[i].parent < i
  }

  // Siblings have different positions
  ghost predicate DistinctSiblings(nodes: seq<Node>) {
    forall i, j :: 0 <= i < j < |nodes| && nodes[i].parent == nodes[j].parent ==> nodes[i].pos != nodes[j].pos
  }

  predicate CanView(nodes: seq<Node>, a: nat, b: nat)
    requires Tree(nodes) && a < |nodes| && b < |nodes|
    decreases a
  {
    if nodes[a].parent == nodes[b].parent then
      nodes[a].pos >= nodes[b].pos
    else if nodes[a].parent != NULL then
      CanView(nodes, nodes[a].parent, b)
    else
      false
  }

  // The parents enclosing node `a`, outermost (NULL) first
  ghost function Path(nodes: seq<Node>, a: nat): (path: seq<int>)
    requires Tree(nodes) && a < |nodes|
    ensures |path| > 0 && path[0] == NULL && path[|path| - 1] == nodes[a].parent
    decreases a
  {
    if nodes[a].parent == NULL then [NULL] else Path(nodes, nodes[a].parent) + [nodes[a].parent]
  }

  // The path of `a` followed by `a` itself
  ghost function Spine(nodes: seq<Node>, a: nat): (spine: seq<int>)
    requires Tree(nodes) && a < |nodes|
    ensures |spine| == |Path(nodes, a)| + 1
  {
    Path(nodes, a) + [a]
  }

  lemma {:induction false} SpineIsAscending(nodes: seq<Node>, a: nat)
    requires Tree(nodes) && a < |nodes|
    ensures forall i, j :: 0 <= i < j < |Spine(nodes, a)| ==> Spine(nodes, a)[i] < Spine(nodes, a)[j]
    ensures forall j :: 0 < j < |Spine(nodes, a)| ==> 0 <= Spine(nodes, a)[j] <= a
    ensures forall j :: 0 <= j < |Path(nodes, a)| ==> Path(nodes, a)[j] <= nodes[a].parent
    decreases a
  {
    if nodes[a].parent != NULL {
      SpineIsAscending(nodes, nodes[a].parent);
      assert Path(nodes, a) == Spine(nodes, nodes[a].parent);
    }
  }

  // `b` is a child of the j-th enclosing parent of `a`, not later than the spine there
  ghost predicate SeenAt(nodes: seq<Node>, a: nat, b: nat, j: nat)
    requires Tree(nodes) && a < |nodes| && b < |nodes| && j < |Path(nodes, a)|
  {
    SpineIsAscending(nodes, a);
    && nodes[b].parent == Path(nodes, a)[j]
    && nodes[Spine(nodes, a)[j + 1]].pos >= nodes[b].pos
  }

  /** The recursive visibility test, unrolled: `a` views `b` exactly when `b` is
      declared in a scope that encloses `a`, no later than the way down to `a`. */
  lemma {:induction false} CanViewAlongPath(nodes: seq<Node>, a: nat, b: nat)
    requires Tree(nodes) && a < |nodes| && b < |nodes|
    ensures CanView(nodes, a, b) <==> exists j: nat :: j < |Path(nodes, a)| && SeenAt(nodes, a, b, j)
    decreases a
  {
    SpineIsAscending(nodes, a);
    var k := |Path(nodes, a)| - 1;
    if nodes[a].parent == nodes[b].parent {
      assert SeenAt(nodes, a, b, k) <==> nodes[a].pos >= nodes[b].pos;
      assert forall j: nat :: j < k ==> Path(nodes, a)[j] == Spine(nodes, a)[j] < Spine(nodes, a)[k] == nodes[a].parent;
      assert forall j: nat :: j < k ==> !SeenAt(nodes, a, b, j);
    } else if nodes[a].parent != NULL {
      var p := nodes[a].parent;
      CanViewAlongPath(nodes, p, b);
      SpineIsAscending(nodes, p);
      assert Path(nodes, a) == Spine(nodes, p);
      assert forall j: nat :: j < k ==> (SeenAt(nodes, a, b, j) <==> SeenAt(nodes, p, b, j));
      assert !SeenAt(nodes, a, b, k);
    }
  }

  // Nodes under the same enclosing parent have the same path
  lemma {:induction false} PathIsDeterminedByParent(nodes: seq<Node>, a: nat, b: nat, j: nat)
    requires Tree(nodes) && a < |nodes| && b < |nodes| && j < |Path(nodes, a)|
    requires nodes[b].parent == Path(nodes, a)[j]
    ensures Path(nodes, b) == Path(nodes, a)[..j + 1]
    decreases a
  {
    SpineIsAscending(nodes, a);
    if j == |Path(nodes, a)| - 1 {
      assert Path(nodes, a)[..j + 1] == Path(nodes, a);
    } else {
      var p := nodes[a].parent;
      assert Path(nodes, a) == Spine(nodes, p);
      PathIsDeterminedByParent(nodes, p, b, j);
      assert Path(nodes, a)[..j + 1] == Path(nodes, p)[..j + 1];
    }
  }

  /** Visibility is a preorder on every scope tree, and two nodes view each
      other exactly when they are siblings at the same position. */
  lemma {:induction false} CanViewIsPreorder(nodes: seq<Node>, a: nat, b: nat, c: nat)
    requires Tree(nodes) && a < |nodes| && b < |nodes| && c < |nodes|
    ensures CanView(nodes, a, a)
    ensures CanView(nodes, a, b) && CanView(nodes, b, c) ==> CanView(nodes, a, c)
    ensures CanView(nodes, a, b) && CanView(nodes, b, a) <==>
            nodes[a].parent == nodes[b].parent && nodes[a].pos == nodes[b].pos
  {
    CanViewAlongPath(nodes, a, b);
    CanViewAlongPath(nodes, b, a);
    if CanView(nodes, a, b) {
      var j: nat :| j < |Path(nodes, a)| && SeenAt(nodes, a, b, j);
      PathIsDeterminedByParent(nodes, a, b, j);
      if CanView(nodes, b, c) {
        CanViewAlongPath(nodes, b, c);
        CanViewAlongPath(nodes, a, c);
        var k: nat :| k < |Path(nodes, b)| && SeenAt(nodes, b, c, k);
        assert SeenAt(nodes, a, c, k);
      }
      if CanView(nodes, b, a) {
        var k: nat :| k < |Path(nodes, b)| && SeenAt(nodes, b, a, k);
        PathIsDeterminedByParent(nodes, b, a, k);
        assert |Path(nodes, a)| == |Path(nodes, b)|;
      }
    }
  }

  /** With distinct sibling positions the preorder is a partial order. */
  lemma CanViewIsAntisymmetric(nodes: seq<Node>, a: nat, b: nat)
    requires Tree(nodes) && DistinctSiblings(nodes) && a < |nodes| && b < |nodes|
    ensures CanView(nodes, a, b) && CanView(nodes, b, a) <==> a == b
  {
    CanViewIsPreorder(nodes, a, b, a);
    if nodes[a].parent == nodes[b].parent && nodes[a].pos == nodes[b].pos {
      assert !(a < b) && !(b < a);
    }
  }

  /* ---------------------------------------------------------------------- */
  // Field scopes
  /* ---------------------------------------------------------------------- */

  // The nodes after `n` calls of NextFieldScopeID: each is the parent of the next
  ghost function FieldScopes(n: nat): (nodes: seq<Node>)
    ensures |nodes| == n + 1
    ensures forall i :: 0 <= i <= n ==> nodes[i] == Node(i - 1, i)
  {
    if n == 0 then [Node(NULL, 0)]
    else var nodes := FieldScopes(n - 1); nodes + [Node(n - 1, nodes[n - 1].pos + 1)]
  }

  /** On the chain of field scopes, visibility is exactly declaration order. */
  lemma {:induction false} FieldVisibilityIsDeclarationOrder(n: nat, a: nat, b: nat)
    requires a <= n && b <= n
    ensures Tree(FieldScopes(n)) && (CanView(FieldScopes(n), a, b) <==> b <= a)
    decreases a
  {
    if a > 0 && a != b {
      FieldVisibilityIsDeclarationOrder(n, a - 1, b);
    }
  }

  /* ---------------------------------------------------------------------- */
  // Runs
  /* ---------------------------------------------------------------------- */

  // What the parser does to the scopes of one method. A use is not an event: it
  // reads the current scope, so every point of a run is a possible use.
  datatype Event = Enter | Exit | NextScope | Add(name: string)

  // The scope state, with two facts the callers hold: the sizes returned by the
  // scopes still open, and whether the current scope node belongs to a declaration
  // whose initializer is being visited
  datatype State = State(
    nodes: seq<Node>,
    cur: int,
    table: map<string, Decl>,
    decls: seq<Decl>,
    stack: seq<Decl>,
    marks: seq<nat>,
    pending: bool)

  const Initial: State := State([Node(NULL, 0)], 0, map[], [], [], [], false)

  // Allocates the node after the current one under `parent` and moves to it
  function MoveTo(s: State, parent: int): State
    requires 0 <= s.cur < |s.nodes|
  {
    s.(nodes := s.nodes + [Node(parent, s.nodes[s.cur].pos + 1)], cur := |s.nodes|)
  }

  function Names(decls: seq<Decl>): set<string> {
    set i | 0 <= i < |decls| :: decls[i].name
  }

  function EnterScope(s: State): State
    requires 0 <= s.cur < |s.nodes|
  {
    MoveTo(s, s.cur).(marks := s.marks + [|s.stack|], pending := false)
  }

  // Drops the declarations above `size` and moves to the node after the closed scope
  function ExitScope(s: State, size: nat): State
    requires 0 <= s.cur < |s.nodes| && 0 <= s.nodes[s.cur].parent < |s.nodes|
    requires size <= |s.stack| && |s.marks| > 0
  {
    MoveTo(s, s.nodes[s.nodes[s.cur].parent].parent).(
      table := s.table - Names(s.stack[size..]),
      stack := s.stack[..size],
      marks := s.marks[..|s.marks| - 1],
      pending := false)
  }

  function NextScopeId(s: State): State
    requires 0 <= s.cur < |s.nodes|
  {
    MoveTo(s, s.nodes[s.cur].parent).(pending := true)
  }

  // A name already in scope is rejected, and the declaration is not recorded
  function AddLocal(s: State, name: string): State {
    var d := Decl(name, s.cur);
    if name in s.table then
      s.(pending := false)
    else
      s.(table := s.table[name := d], decls := s.decls + [d], stack := s.stack + [d], pending := false)
  }

  // None when an assertion of the program fails or a caller has nothing to pass
  function Step(s: State, e: Event): Option<State>
    requires 0 <= s.cur < |s.nodes|
    ensures Step(s, e).Some? ==> 0 <= Step(s, e).value.cur < |Step(s, e).value.nodes|
  {
    match e
    case Enter => Some(EnterScope(s))
    case Exit =>
      if |s.marks| > 0 && 0 <= s.nodes[s.cur].parent < |s.nodes| && s.marks[|s.marks| - 1] <= |s.stack| then
        Some(ExitScope(s, s.marks[|s.marks| - 1]))
      else
        None
    case NextScope => Some(NextScopeId(s))
    case Add(name) => if s.pending then Some(AddLocal(s, name)) else None
  }

  // The events since the last reset
  datatype Trace = Start | Then(before: Trace, event: Event)

  function Run(t: Trace): (r: Option<State>)
    ensures r.Some? ==> 0 <= r.value.cur < |r.value.nodes|
  {
    match t
    case Start => Some(Initial)
    case Then(before, e) => var r := Run(before); if r.Some? then Step(r.value, e) else None
  }

  // How many scopes a step opens
  function Opened(e: Event): int {
    match e
    case Enter => 1
    case Exit => -1
    case _ => 0
  }

  // How many scopes are open after the events
  function Depth(t: Trace): int {
    match t
    case Start => 0
    case Then(before, e) => Depth(before) + Opened(e)
  }

  // The callers close only scopes they opened, and complete a declaration right
  // after they took its scope node (its initializer in between moves nothing)
  predicate WellBracketed(t: Trace) {
    match t
    case Start => true
    case Then(before, Exit) => WellBracketed(before) && Depth(before) > 0
    case Then(before, Add(_)) => WellBracketed(before) && before.Then? && before.event.NextScope?
    case Then(before, _) => WellBracketed(before)
  }

  // `p` is an earlier point of the run `t`, or `t` itself
  predicate Prefix(p: Trace, t: Trace) {
    p == t || (t.Then? && Prefix(p, t.before))
  }

  /* ---------------------------------------------------------------------- */
  // The invariant of every run
  /* ---------------------------------------------------------------------- */

  ghost predicate NodesInv(s: State) {
    && Tree(s.nodes)
    && 0 <= s.cur == |s.nodes| - 1
    && forall i :: 0 <= i < |s.nodes| ==> s.nodes[i].pos == i
  }

  // Everything allocated after a node of the current spine lies below that node
  ghost predicate NestingInv(s: State)
    requires NodesInv(s)
  {
    var spine := Spine(s.nodes, s.cur);
    forall j, n :: 0 < j < |spine| && 0 <= n < |s.nodes| && spine[j] < n ==> s.nodes[n].parent >= spine[j]
  }

  // One mark for each open scope, in the order they were opened
  ghost predicate FramesInv(s: State)
    requires NodesInv(s)
  {
    && |s.marks| + 1 == |Path(s.nodes, s.cur)|
    && (forall j :: 0 <= j < |s.marks| ==> s.marks[j] <= |s.stack|)
    && (forall j, k :: 0 <= j < k < |s.marks| ==> s.marks[j] <= s.marks[k])
  }

  ghost predicate DeclsInv(s: State)
    requires NodesInv(s)
  {
    && (forall i :: 0 <= i < |s.decls| ==> 0 <= s.decls[i].scope <= s.cur)
    && (forall i, j :: 0 <= i < j < |s.decls| ==> s.decls[i].scope < s.decls[j].scope)
    && (s.pending ==> forall i :: 0 <= i < |s.decls| ==> s.decls[i].scope < s.cur)
    && (forall i :: 0 <= i < |s.stack| ==> s.stack[i] in s.decls)
    && (forall d :: d in s.decls ==> (d in s.stack <==> s.nodes[d.scope].parent in Path(s.nodes, s.cur)))
  }

  // The declarations below a mark are those of the scopes opened before it
  ghost predicate MarksInv(s: State)
    requires NodesInv(s) && FramesInv(s) && DeclsInv(s)
  {
    forall i, j :: 0 <= i < |s.stack| && 0 <= j < |s.marks| ==>
      (i < s.marks[j] <==> s.nodes[s.stack[i].scope].parent < Path(s.nodes, s.cur)[j + 1])
  }

  // The table maps exactly the names on the stack, which are distinct
  ghost predicate TableInv(s: State) {
    && (forall i, j :: 0 <= i < j < |s.stack| ==> s.stack[i].name != s.stack[j].name)
    && (forall i, j :: 0 <= i < j < |s.stack| ==> s.stack[i].scope < s.stack[j].scope)
    && (forall name :: name in s.table ==> s.table[name] in s.stack && s.table[name].name == name)
    && (forall i :: 0 <= i < |s.stack| ==> s.stack[i].name in s.table && s.table[s.stack[i].name] == s.stack[i])
  }

  ghost predicate Inv(s: State) {
    NodesInv(s) && NestingInv(s) && FramesInv(s) && DeclsInv(s) && MarksInv(s) && TableInv(s)
  }

  // Appending a node leaves the paths of the old nodes unchanged
  lemma {:induction false} PathOfPrefix(nodes: seq<Node>, more: seq<Node>, a: nat)
    requires Tree(nodes + more) && a < |nodes|
    ensures Tree(nodes) && Path(nodes + more, a) == Path(nodes, a)
    decreases a
  {
    forall i | 0 <= i < |nodes| ensures NULL <= nodes[i].parent < i {
      assert (nodes + more)[i] == nodes[i];
    }
    if nodes[a].parent != NULL {
      PathOfPrefix(nodes, more, nodes[a].parent);
    }
  }

  lemma {:induction false} CanViewOfPrefix(nodes: seq<Node>, more: seq<Node>, a: nat, b: nat)
    requires Tree(nodes + more) && a < |nodes| && b < |nodes|
    ensures Tree(nodes) && CanView(nodes + more, a, b) == CanView(nodes, a, b)
    decreases a
  {
    PathOfPrefix(nodes, more, a);
    if nodes[a].parent != NULL {
      CanViewOfPrefix(nodes, more, nodes[a].parent, b);
    }
  }

  lemma CanViewLater(nodes: seq<Node>, later: seq<Node>, a: nat, b: nat)
    requires nodes <= later && Tree(later) && a < |nodes| && b < |nodes|
    ensures Tree(nodes) && CanView(later, a, b) == CanView(nodes, a, b)
  {
    assert later == nodes + later[|nodes|..];
    CanViewOfPrefix(nodes, later[|nodes|..], a, b);
  }

  lemma EnterExtendsPath(s: State)
    requires NodesInv(s) && NestingInv(s)
    ensures var t := EnterScope(s);
            NodesInv(t) && NestingInv(t) && Path(t.nodes, t.cur) == Spine(s.nodes, s.cur)
  {
    var t := EnterScope(s);
    SpineIsAscending(s.nodes, s.cur);
    assert Tree(t.nodes);
    PathOfPrefix(s.nodes, [t.nodes[t.cur]], s.cur);
    var spine := Spine(t.nodes, t.cur);
    forall j, n | 0 < j < |spine| && 0 <= n < |t.nodes| && spine[j] < n
      ensures t.nodes[n].parent >= spine[j]
    {
      assert spine[j] == Spine(s.nodes, s.cur)[j];
    }
  }

  lemma EnterKeepsDecls(s: State)
    requires Inv(s)
    ensures var t := EnterScope(s); NodesInv(t) && DeclsInv(t)
  {
    var t := EnterScope(s);
    EnterExtendsPath(s);
    forall d | d in t.decls
      ensures d in t.stack <==> t.nodes[d.scope].parent in Path(t.nodes, t.cur)
    {
      assert t.nodes[d.scope] == s.nodes[d.scope] && s.nodes[d.scope].parent != s.cur;
    }
  }

  lemma EnterKeepsFrames(s: State)
    requires NodesInv(s) && NestingInv(s) && FramesInv(s) && NodesInv(EnterScope(s))
    ensures FramesInv(EnterScope(s))
  {
    EnterExtendsPath(s);
  }

  lemma EnterKeepsMarks(s: State)
    requires Inv(s) && NodesInv(EnterScope(s)) && DeclsInv(EnterScope(s)) && FramesInv(EnterScope(s))
    ensures MarksInv(EnterScope(s))
  {
    var t := EnterScope(s);
    EnterExtendsPath(s);
    var path := Path(t.nodes, t.cur);
    forall i, j | 0 <= i < |t.stack| && 0 <= j < |t.marks|
      ensures i < t.marks[j] <==> t.nodes[t.stack[i].scope].parent < path[j + 1]
    {
      assert t.stack[i] in s.decls && t.stack[i] == s.stack[i];
      if j < |s.marks| {
        assert t.marks[j] == s.marks[j] && path[j + 1] == Path(s.nodes, s.cur)[j + 1];
      } else {
        assert path[j + 1] == s.cur;
      }
    }
  }

  lemma EnterKeepsInv(s: State)
    requires Inv(s)
    ensures Inv(EnterScope(s))
  {
    var t := EnterScope(s);
    EnterExtendsPath(s);
    EnterKeepsDecls(s);
    EnterKeepsFrames(s);
    EnterKeepsMarks(s);
    assert TableInv(t);
  }

  // Moving to a new sibling of `q` gives the path of `q`
  lemma MoveToSibling(s: State, q: nat)
    requires NodesInv(s) && q < |s.nodes|
    ensures var t := MoveTo(s, s.nodes[q].parent); NodesInv(t) && Path(t.nodes, t.cur) == Path(s.nodes, q)
  {
    var t := MoveTo(s, s.nodes[q].parent);
    assert Tree(t.nodes);
    PathOfPrefix(s.nodes, [t.nodes[t.cur]], q);
    PathIsDeterminedByParent(t.nodes, q, t.cur, |Path(t.nodes, q)| - 1);
  }

  // A new node under the last element of a shortened path keeps the nesting
  lemma NewNodeKeepsFrames(s: State, t: State, k: nat)
    requires NodesInv(s) && NodesInv(t) && NestingInv(s)
    requires 0 < k <= |Path(s.nodes, s.cur)| && Path(t.nodes, t.cur) == Path(s.nodes, s.cur)[..k]
    requires |t.nodes| == |s.nodes| + 1 && t.nodes[..|s.nodes|] == s.nodes
    ensures NestingInv(t)
  {
    SpineIsAscending(t.nodes, t.cur);
    var spine := Spine(t.nodes, t.cur);
    forall j, n | 0 < j < |spine| && 0 <= n < |t.nodes| && spine[j] < n
      ensures t.nodes[n].parent >= spine[j]
    {
      assert j < k;
      assert spine[j] == Path(t.nodes, t.cur)[j] == Spine(s.nodes, s.cur)[j];
    }
  }

  lemma NextKeepsInv(s: State)
    requires Inv(s)
    ensures Inv(NextScopeId(s))
  {
    var t := NextScopeId(s);
    MoveToSibling(s, s.cur);
    NewNodeKeepsFrames(s, t, |Path(s.nodes, s.cur)|);
  }

  lemma AddKeepsDecls(s: State, name: string)
    requires Inv(s) && s.pending && name !in s.table
    ensures DeclsInv(AddLocal(s, name))
  {
    var t := AddLocal(s, name);
    var d := Decl(name, s.cur);
    assert t.stack[|s.stack|] == d;
    assert Path(t.nodes, t.cur)[|Path(s.nodes, s.cur)| - 1] == t.nodes[d.scope].parent;
    forall i | 0 <= i < |t.stack|
      ensures t.stack[i] in t.decls
    {
      assert t.decls[|s.decls|] == d;
      assert i < |s.stack| ==> s.stack[i] in s.decls;
    }
  }

  lemma AddKeepsMarks(s: State, name: string)
    requires Inv(s) && s.pending && name !in s.table && DeclsInv(AddLocal(s, name))
    ensures FramesInv(AddLocal(s, name)) && MarksInv(AddLocal(s, name))
  {
    var t := AddLocal(s, name);
    SpineIsAscending(s.nodes, s.cur);
  }

  lemma AddKeepsTable(s: State, name: string)
    requires Inv(s) && s.pending && name !in s.table
    ensures TableInv(AddLocal(s, name))
  {
    var t := AddLocal(s, name);
    forall i | 0 <= i < |s.stack|
      ensures s.stack[i].scope < s.cur && s.stack[i].name != name
    {
      assert s.stack[i] in s.decls;
    }
  }

  lemma AddKeepsInv(s: State, name: string)
    requires Inv(s) && s.pending
    ensures Inv(AddLocal(s, name))
  {
    if name !in s.table {
      AddKeepsDecls(s, name);
      AddKeepsMarks(s, name);
      AddKeepsTable(s, name);
    }
  }

  // Below the last entry of a path are exactly the entries before it
  lemma BeforeLast(path: seq<int>, spine: seq<int>, k: nat, parent: int)
    requires |path| == k + 1 && |spine| == k + 2 && spine[..k + 1] == path && parent in path
    requires forall i, j :: 0 <= i < j < |spine| ==> spine[i] < spine[j]
    ensures parent < path[k] <==> parent in path[..k]
  {
    assert forall j :: 0 <= j <= k ==> path[j] == spine[j];
  }

  // The declarations that Exit drops are exactly those of the closed scope
  lemma ExitDropsTheClosedScope(s: State)
    requires Inv(s) && |s.marks| > 0
    ensures var size := s.marks[|s.marks| - 1];
            forall i :: 0 <= i < |s.stack| ==>
              (i < size <==> s.nodes[s.stack[i].scope].parent in Path(s.nodes, s.cur)[..|s.marks|])
  {
    SpineIsAscending(s.nodes, s.cur);
    var path, k := Path(s.nodes, s.cur), |s.marks|;
    forall i | 0 <= i < |s.stack|
      ensures i < s.marks[k - 1] <==> s.nodes[s.stack[i].scope].parent in path[..k]
    {
      assert s.stack[i] in s.decls;
      BeforeLast(path, Spine(s.nodes, s.cur), k, s.nodes[s.stack[i].scope].parent);
    }
  }

  lemma ExitKeepsDecls(s: State, t: State, size: nat)
    requires Inv(s) && |s.marks| > 0 && size == s.marks[|s.marks| - 1]
    requires NodesInv(t) && Path(t.nodes, t.cur) == Path(s.nodes, s.cur)[..|s.marks|]
    requires s.cur < t.cur && t.nodes[..|s.nodes|] == s.nodes
    requires t.decls == s.decls && t.stack == s.stack[..size] && !t.pending
    ensures DeclsInv(t)
  {
    ExitDropsTheClosedScope(s);
    forall d | d in t.decls
      ensures d in t.stack <==> t.nodes[d.scope].parent in Path(t.nodes, t.cur)
    {
      assert t.nodes[d.scope] == s.nodes[d.scope];
      if d in s.stack {
        var i :| 0 <= i < |s.stack| && s.stack[i] == d;
        assert i < size ==> t.stack[i] == d;
      }
    }
  }

  lemma ExitKeepsTable(s: State, size: nat)
    requires TableInv(s) && size <= |s.stack|
    ensures TableInv(s.(table := s.table - Names(s.stack[size..]), stack := s.stack[..size]))
  {
    forall i | 0 <= i < |s.stack|
      ensures i < size <==> s.stack[i].name !in Names(s.stack[size..])
    {
      assert i >= size ==> s.stack[size..][i - size] == s.stack[i];
    }
  }

  lemma ExitKeepsMarks(s: State, t: State)
    requires Inv(s) && |s.marks| > 0 && NodesInv(t) && DeclsInv(t)
    requires Path(t.nodes, t.cur) == Path(s.nodes, s.cur)[..|s.marks|]
    requires s.nodes <= t.nodes && t.marks == s.marks[..|s.marks| - 1]
    requires t.stack == s.stack[..s.marks[|s.marks| - 1]]
    ensures FramesInv(t) && MarksInv(t)
  {
    forall i, j | 0 <= i < |t.stack| && 0 <= j < |t.marks|
      ensures i < t.marks[j] <==> t.nodes[t.stack[i].scope].parent < Path(t.nodes, t.cur)[j + 1]
    {
      assert t.stack[i] == s.stack[i] && s.stack[i] in s.decls;
    }
  }

  lemma ExitMoves(s: State)
    requires Inv(s) && |s.marks| > 0
    ensures Step(s, Exit).Some?
    ensures var t := Step(s, Exit).value;
            NodesInv(t) && Path(t.nodes, t.cur) == Path(s.nodes, s.cur)[..|s.marks|]
  {
    var path, k := Path(s.nodes, s.cur), |s.marks|;
    SpineIsAscending(s.nodes, s.cur);
    assert path[k] == s.nodes[s.cur].parent == Spine(s.nodes, s.cur)[k] > Spine(s.nodes, s.cur)[0] == NULL;
    MoveToSibling(s, path[k]);
    assert path == Path(s.nodes, path[k]) + [path[k]];
  }

  lemma ExitKeepsInv(s: State)
    requires Inv(s) && |s.marks| > 0
    ensures Step(s, Exit).Some? && Inv(Step(s, Exit).value)
  {
    ExitMoves(s);
    var size := s.marks[|s.marks| - 1];
    var t := ExitScope(s, size);
    NewNodeKeepsFrames(s, t, |s.marks|);
    ExitKeepsDecls(s, t, size);
    ExitKeepsMarks(s, t);
    ExitKeepsTable(s, size);
  }

  /* ---------------------------------------------------------------------- */
  // Theorems about every run
  /* ---------------------------------------------------------------------- */

  lemma StepKeepsInv(s: State, e: Event)
    requires Inv(s) && (e.Exit? ==> |s.marks| > 0) && (e.Add? ==> s.pending)
    ensures Step(s, e).Some? && Inv(Step(s, e).value)
  {
    match e
    case Enter => EnterKeepsInv(s);
    case Exit => ExitKeepsInv(s);
    case NextScope => NextKeepsInv(s);
    case Add(name) => AddKeepsInv(s, name);
  }

  lemma InitialInv()
    ensures Inv(Initial)
  {
  }

  lemma StepSucceeds(s: State, e: Event)
    requires Inv(s) && (e.Exit? ==> |s.marks| > 0) && (e.Add? ==> s.pending)
    ensures Step(s, e).Some? && Inv(Step(s, e).value)
    ensures |Step(s, e).value.marks| == |s.marks| + Opened(e)
    ensures Step(s, e).value.pending <==> e.NextScope?
  {
    StepKeepsInv(s, e);
  }

  /** A well-bracketed run never fails an assertion and keeps the invariant. */
  lemma {:induction false} RunSucceeds(t: Trace)
    requires WellBracketed(t)
    ensures Run(t).Some? && Inv(Run(t).value)
    ensures |Run(t).value.marks| == Depth(t)
    ensures Run(t).value.pending <==> t.Then? && t.event.NextScope?
  {
    if t.Then? {
      RunSucceeds(t.before);
      StepSucceeds(Run(t.before).value, t.event);
    } else {
      InitialInv();
    }
  }

  /** Every enabled step succeeds and extends the run. */
  lemma RunStep(t: Trace, s: State, e: Event)
    requires WellBracketed(t) && Run(t) == Some(s)
    requires (e.Exit? ==> |s.marks| > 0) && (e.Add? ==> s.pending)
    ensures WellBracketed(Then(t, e)) && Run(Then(t, e)) == Step(s, e) && Step(s, e).Some?
  {
    RunSucceeds(t);
    StepSucceeds(s, e);
  }

  // Along a run nodes and declarations are only appended
  lemma {:induction false} RunExtends(p: Trace, t: Trace)
    requires Prefix(p, t) && Run(t).Some?
    ensures Run(p).Some? && Run(p).value.nodes <= Run(t).value.nodes && Run(p).value.decls <= Run(t).value.decls
  {
    if p != t {
      RunExtends(p, t.before);
    }
  }

  lemma {:induction false} PrefixIsWellBracketed(p: Trace, t: Trace)
    requires Prefix(p, t) && WellBracketed(t)
    ensures WellBracketed(p)
  {
    if p != t {
      PrefixIsWellBracketed(p, t.before);
    }
  }

  lemma {:induction false} CurrentIsNewest(t: Trace)
    requires Run(t).Some?
    ensures Run(t).value.cur == |Run(t).value.nodes| - 1
  {
    if t.Then? {
      CurrentIsNewest(t.before);
    }
  }

  // A pending declaration has a newer scope than any earlier point of the run
  lemma PendingIsNewest(p: Trace, t: Trace)
    requires Prefix(p, t) && p != t && Run(t).Some? && Run(t).value.pending
    ensures Run(p).Some? && Run(p).value.cur < Run(t).value.cur
  {
    RunExtends(p, t.before);
    CurrentIsNewest(t.before);
    CurrentIsNewest(p);
  }

  // A declaration completed after `p` has a later scope, or is the one pending at `p`
  lemma {:induction false} LaterDeclarations(p: Trace, t: Trace, d: Decl)
    requires Prefix(p, t) && Run(t).Some? && Run(p).Some?
    requires d in Run(t).value.decls && d !in Run(p).value.decls
    ensures var s := Run(p).value;
            d.scope > s.cur || (s.pending && d.scope == s.cur && d.name !in s.table)
  {
    if d in Run(t.before).value.decls {
      LaterDeclarations(p, t.before, d);
    } else if p != t.before {
      PendingIsNewest(p, t.before);
    }
  }

  // From the current node, an existing node is seen exactly when its parent encloses it
  lemma CurrentViews(s: State, b: nat)
    requires Inv(s) && b < |s.nodes|
    ensures CanView(s.nodes, s.cur, b) <==> s.nodes[b].parent in Path(s.nodes, s.cur)
  {
    CanViewAlongPath(s.nodes, s.cur, b);
    SpineIsAscending(s.nodes, s.cur);
    var path, spine := Path(s.nodes, s.cur), Spine(s.nodes, s.cur);
    forall j: nat | j < |path| && path[j] == s.nodes[b].parent
      ensures SeenAt(s.nodes, s.cur, b, j)
    {
      assert spine[j] < spine[j + 1];
    }
  }

  // From an older node, a node allocated after it is never seen
  lemma LaterIsUnseen(nodes: seq<Node>, a: nat, b: nat)
    requires Tree(nodes) && a < b < |nodes|
    requires forall i :: 0 <= i < |nodes| ==> nodes[i].pos == i
    ensures !CanView(nodes, a, b)
  {
    CanViewAlongPath(nodes, a, b);
    SpineIsAscending(nodes, a);
  }

  /** The scope recorded at any point of a run sees a declaration of the run,
      made earlier or later, exactly when that declaration is then on the live
      stack or is the one whose initializer is being visited. */
  lemma VisibilityAgreesWithLiveStack(p: Trace, t: Trace, d: Decl)
    requires WellBracketed(t) && Prefix(p, t)
    requires Run(t).Some? && d in Run(t).value.decls
    ensures Run(p).Some?
    ensures var end, s := Run(t).value, Run(p).value;
            && Tree(end.nodes) && 0 <= s.cur < |end.nodes| && 0 <= d.scope < |end.nodes|
            && (CanView(end.nodes, s.cur, d.scope) <==> d in s.stack || (s.pending && d.scope == s.cur))
  {
    RunExtends(p, t);
    PrefixIsWellBracketed(p, t);
    RunSucceeds(t);
    RunSucceeds(p);
    var end, s := Run(t).value, Run(p).value;
    if d.scope > s.cur {
      LaterIsUnseen(end.nodes, s.cur, d.scope);
      assert d !in s.decls;
    } else {
      CanViewLater(s.nodes, end.nodes, s.cur, d.scope);
      CurrentViews(s, d.scope);
      if d !in s.decls {
        LaterDeclarations(p, t, d);
      }
    }
  }

  /** The latter happens: in `int x = x;` the use sees the `x` being declared, which is not
      on the stack, nor among the declarations at all, before it is added. */
  lemma SeenInOwnInitializer(name: string)
    ensures var p := Then(Start, NextScope);
            var t := Then(p, Add(name));
            && WellBracketed(t) && Prefix(p, t) && Run(p).Some? && Run(t).Some?
            && var s, end, d := Run(p).value, Run(t).value, Decl(name, 1);
               && s.pending && s.cur == d.scope && d !in s.decls && d in end.decls
               && Tree(end.nodes) && |end.nodes| == 2 && CanView(end.nodes, s.cur, d.scope)
  {
    var p := Then(Start, NextScope);
    RunSucceeds(Then(p, Add(name)));
    assert Run(p) == Some(NextScopeId(Initial));
    assert Run(Then(p, Add(name))) == Some(AddLocal(NextScopeId(Initial), name));
    assert CanView([Node(NULL, 0), Node(NULL, 1)], 1, 1);
  }

  // The late lookup: the first declaration with the name that the scope can view
  function FirstVisible(nodes: seq<Node>, decls: seq<Decl>, from: nat, name: string): (r: Option<Decl>)
    requires Tree(nodes) && from < |nodes|
    requires forall i :: 0 <= i < |decls| ==> 0 <= decls[i].scope < |nodes|
  {
    if decls == [] then None
    else if decls[0].name == name && CanView(nodes, from, decls[0].scope) then Some(decls[0])
    else FirstVisible(nodes, decls[1..], from, name)
  }

  ghost predicate Visible(nodes: seq<Node>, from: nat, name: string, d: Decl)
    requires Tree(nodes) && from < |nodes|
  {
    0 <= d.scope < |nodes| && d.name == name && CanView(nodes, from, d.scope)
  }

  lemma {:induction false} FirstVisibleIsVisible(nodes: seq<Node>, decls: seq<Decl>, from: nat, name: string)
    requires Tree(nodes) && from < |nodes|
    requires forall i :: 0 <= i < |decls| ==> 0 <= decls[i].scope < |nodes|
    ensures match FirstVisible(nodes, decls, from, name)
            case Some(d) => d in decls && Visible(nodes, from, name, d)
            case None => forall d :: d in decls ==> !Visible(nodes, from, name, d)
  {
    if decls != [] {
      FirstVisibleIsVisible(nodes, decls[1..], from, name);
      assert decls == [decls[0]] + decls[1..];
    }
  }

  // A pending declaration that is accepted later has a name not yet in the table
  lemma OwnInitializer(p: Trace, t: Trace, d: Decl)
    requires WellBracketed(t) && Prefix(p, t) && Run(t).Some? && Run(p).Some?
    requires d in Run(t).value.decls
    ensures var s := Run(p).value;
            && (s.pending && d.scope == s.cur ==> d.name !in s.table)
            && (d in s.stack <==> d.name in s.table && s.table[d.name] == d)
  {
    PrefixIsWellBracketed(p, t);
    RunSucceeds(p);
    if d !in Run(p).value.decls {
      LaterDeclarations(p, t, d);
    }
  }

  // What a use of `name` means in a state: the live declaration of that name, or
  // else the declaration whose initializer contains the use
  function Found(s: State, name: string): Option<Decl> {
    if name in s.table then Some(s.table[name])
    else if s.pending then Some(Decl(name, s.cur))
    else None
  }

  /** The late lookup from a recorded scope, over all declarations of the method,
      finds what the live table held when the scope was recorded, or the pending
      declaration itself inside its own initializer (if it was then accepted under
      that name); and no second declaration qualifies. */
  lemma LateLookupAgreesWithTable(p: Trace, t: Trace, name: string)
    requires WellBracketed(t) && Prefix(p, t)
    ensures Run(t).Some? && Run(p).Some?
    ensures var end, s := Run(t).value, Run(p).value;
            && Tree(end.nodes) && 0 <= s.cur < |end.nodes|
            && (forall i :: 0 <= i < |end.decls| ==> 0 <= end.decls[i].scope < |end.nodes|)
            && FirstVisible(end.nodes, end.decls, s.cur, name) ==
               (match Found(s, name) case Some(d) => if d in end.decls then Some(d) else None case None => None)
            && (forall d, d' | d in end.decls && d' in end.decls ::
                  Visible(end.nodes, s.cur, name, d) && Visible(end.nodes, s.cur, name, d') ==> d == d')
  {
    RunSucceeds(t);
    RunExtends(p, t);
    PrefixIsWellBracketed(p, t);
    RunSucceeds(p);
    var end, s := Run(t).value, Run(p).value;
    FirstVisibleIsVisible(end.nodes, end.decls, s.cur, name);
    forall d | d in end.decls
      ensures Visible(end.nodes, s.cur, name, d) <==> Found(s, name) == Some(d)
    {
      VisibilityAgreesWithLiveStack(p, t, d);
      OwnInitializer(p, t, d);
    }
    assert name in s.table ==> s.table[name] in s.decls;
  }

  /* ---------------------------------------------------------------------- */
  // A matched Enter and Exit restore the scope
  /* ---------------------------------------------------------------------- */

  // `t` is inside the scope entered after `p`: that scope was not closed since
  ghost predicate Inside(p: Trace, t: Trace) {
    t == Then(p, Enter) || (t.Then? && Depth(t) > Depth(p) && Inside(p, t.before))
  }

  lemma RunBrackets(t: Trace)
    requires WellBracketed(t)
    ensures Run(t).Some?
    ensures var s := Run(t).value;
            && TableInv(s) && |s.marks| == Depth(t)
            && (forall j :: 0 <= j < |s.marks| ==> s.marks[j] <= |s.stack|)
            && (forall j, k :: 0 <= j < k < |s.marks| ==> s.marks[j] <= s.marks[k])
  {
    RunSucceeds(t);
  }

  // One step inside the body keeps what was there before the Enter
  lemma StepKeepsBelow(marks: seq<nat>, stack: seq<Decl>, s: State, e: Event)
    requires 0 <= s.cur < |s.nodes| && Step(s, e).Some?
    requires forall j, k :: 0 <= j < k < |s.marks| ==> s.marks[j] <= s.marks[k]
    requires marks + [|stack|] <= s.marks && stack <= s.stack
    requires |Step(s, e).value.marks| > |marks|
    ensures marks + [|stack|] <= Step(s, e).value.marks && stack <= Step(s, e).value.stack
  {
    assert s.marks[|marks|] == |stack|;
  }

  lemma {:induction false} BodyKeepsBelow(p: Trace, t: Trace)
    requires Inside(p, t) && WellBracketed(t)
    ensures Prefix(p, t) && WellBracketed(p) && Run(p).Some? && Run(t).Some?
    ensures Run(p).value.marks + [|Run(p).value.stack|] <= Run(t).value.marks
    ensures Run(p).value.stack <= Run(t).value.stack
  {
    if t == Then(p, Enter) {
      RunBrackets(p);
    } else {
      BodyKeepsBelow(p, t.before);
      RunBrackets(p);
      RunBrackets(t.before);
      RunBrackets(t);
      StepKeepsBelow(Run(p).value.marks, Run(p).value.stack, Run(t.before).value, t.event);
    }
  }

  lemma TableIsDeterminedByStack(s: State, t: State)
    requires TableInv(s) && TableInv(t) && s.stack == t.stack
    ensures s.table == t.table
  {
    assert forall name :: name in s.table <==> name in t.table;
  }

  lemma ExitUndoes(s: State, m: State)
    requires m.marks == s.marks + [|s.stack|] && s.stack <= m.stack && TableInv(s)
    requires 0 <= m.cur < |m.nodes| && Step(m, Exit).Some? && TableInv(Step(m, Exit).value)
    ensures var t := Step(m, Exit).value;
            t.table == s.table && t.stack == s.stack && t.marks == s.marks && t.decls == m.decls
  {
    TableIsDeterminedByStack(s, Step(m, Exit).value);
  }

  /** Whatever a scope declares, its matching Exit restores the table, the stack
      and the open scopes, while the list of all declarations only grows. */
  lemma MatchedExitRestores(p: Trace, t: Trace)
    requires Inside(p, t) && WellBracketed(t) && Depth(t) == Depth(p) + 1
    ensures WellBracketed(Then(t, Exit)) && Run(p).Some? && Run(Then(t, Exit)).Some?
    ensures var s, s' := Run(p).value, Run(Then(t, Exit)).value;
            s'.table == s.table && s'.stack == s.stack && s'.marks == s.marks && s.decls <= s'.decls
  {
    BodyKeepsBelow(p, t);
    RunExtends(p, t);
    RunBrackets(p);
    RunBrackets(t);
    RunBrackets(Then(t, Exit));
    ExitUndoes(Run(p).value, Run(t).value);
  }

  /* ---------------------------------------------------------------------- */
  // Which names are in the table
  /* ---------------------------------------------------------------------- */

  // No scope that is open at `p` is closed from there to `t`
  ghost predicate NotClosed(p: Trace, t: Trace) {
    forall q :: Prefix(p, q) && Prefix(q, t) ==> Depth(q) >= Depth(p)
  }

  // After `p` the name was added, in a scope that is still open at `t`
  ghost predicate AddedInOpenScope(p: Trace, t: Trace, name: string) {
    Prefix(Then(p, Add(name)), t) && NotClosed(p, t)
  }

  // The declaration comes from the first of these additions
  ghost predicate IsFirstAddition(p: Trace, t: Trace, name: string, d: Decl) {
    && AddedInOpenScope(p, t, name) && Run(p).Some? && d == Decl(name, Run(p).value.cur)
    && forall q :: AddedInOpenScope(q, t, name) ==> Prefix(p, q)
  }

  lemma {:induction false} PrefixIsTransitive(p: Trace, q: Trace, t: Trace)
    requires Prefix(p, q) && Prefix(q, t)
    ensures Prefix(p, t)
  {
    if q != t {
      PrefixIsTransitive(p, q, t.before);
    }
  }

  lemma {:induction false} PrefixesAreOrdered(p: Trace, q: Trace, t: Trace)
    requires Prefix(p, t) && Prefix(q, t)
    ensures Prefix(p, q) || Prefix(q, p)
  {
    if p != t && q != t {
      PrefixesAreOrdered(p, q, t.before);
    }
  }

  // An event is no part of what was before it
  lemma {:induction false} NotBeforeItself(p: Trace, e: Event)
    ensures !Prefix(Then(p, e), p)
  {
    if Prefix(Then(p, e), p) {
      assert Prefix(p, Then(p, e));
      PrefixIsTransitive(p, Then(p, e), p.before);
      NotBeforeItself(p.before, p.event);
    }
  }

  lemma PrefixBothWays(p: Trace, q: Trace)
    requires Prefix(p, q) && Prefix(q, p)
    ensures p == q
  {
    if p != q {
      PrefixIsTransitive(q, p, q.before);
      NotBeforeItself(q.before, q.event);
    }
  }

  lemma NextEventIsOne(p: Trace, d: Event, e: Event, t: Trace)
    requires Prefix(Then(p, d), t) && Prefix(Then(p, e), t)
    ensures d == e
  {
    PrefixesAreOrdered(Then(p, d), Then(p, e), t);
    NotBeforeItself(p, d);
    NotBeforeItself(p, e);
  }

  lemma {:induction false} InsideIsTransitive(p: Trace, q: Trace, t: Trace)
    requires Inside(p, q) && Inside(q, t) && Depth(q) > Depth(p)
    ensures Inside(p, t)
  {
    if t != Then(q, Enter) {
      InsideIsTransitive(p, q, t.before);
    }
  }

  lemma {:induction false} InsideIsLater(p: Trace, t: Trace)
    requires Inside(p, t)
    ensures Prefix(Then(p, Enter), t) && Prefix(p, t) && Depth(t) > Depth(p)
  {
    if t != Then(p, Enter) {
      InsideIsLater(p, t.before);
    }
  }

  // In a scope the depth is above that outside
  lemma {:induction false} DeeperInside(p: Trace, q: Trace, t: Trace)
    requires Inside(p, t) && Prefix(p, q) && Prefix(q, t) && q != p
    ensures Depth(q) > Depth(p)
  {
    if q == t {
      InsideIsLater(p, t);
    } else if t == Then(p, Enter) {
      PrefixBothWays(p, q);
    } else {
      DeeperInside(p, q, t.before);
    }
  }

  // Where the innermost open scope was entered
  lemma {:induction false} EnteredAt(t: Trace) returns (p: Trace)
    requires WellBracketed(t) && Depth(t) > 0
    ensures Inside(p, t) && WellBracketed(p) && Depth(t) == Depth(p) + 1 && (t decreases to p)
  {
    if t.event.Enter? {
      p := t.before;
    } else if t.event.Exit? {
      var q := EnteredAt(t.before);
      p := EnteredAt(q);
      InsideIsTransitive(p, q, t.before);
    } else {
      p := EnteredAt(t.before);
    }
  }

  // Of what was added in scopes still open, an event that is no Exit changes only what it adds
  lemma OpenAcrossStep(t: Trace, e: Event, a: Trace, name: string)
    requires !e.Exit?
    ensures AddedInOpenScope(a, Then(t, e), name) <==> AddedInOpenScope(a, t, name) || (a == t && e == Add(name))
  {
    var end, added := Then(t, e), Then(a, Add(name));
    if AddedInOpenScope(a, end, name) && added != end {
      assert forall q :: Prefix(q, t) ==> Prefix(q, end);
    }
    if AddedInOpenScope(a, t, name) {
      PrefixIsTransitive(a, added, t);
      assert Depth(end) >= Depth(t) >= Depth(a);
      assert forall q :: Prefix(q, end) ==> q == end || Prefix(q, t);
    }
    if a == t && e == Add(name) {
      forall q | Prefix(a, q) && Prefix(q, end)
        ensures Depth(q) >= Depth(a)
      {
        if q != end {
          PrefixBothWays(q, t);
        }
      }
    }
  }

  lemma AddedBeforeScope(p: Trace, t: Trace, a: Trace, name: string)
    requires Inside(p, t) && Depth(t) == Depth(p) + 1 && AddedInOpenScope(a, Then(t, Exit), name)
    ensures Prefix(Then(a, Add(name)), p)
  {
    var end, added := Then(t, Exit), Then(a, Add(name));
    InsideIsLater(p, t);
    PrefixesAreOrdered(added, p, t);
    if !Prefix(added, p) {
      PrefixIsTransitive(a, added, end);
      if a == p {
        NextEventIsOne(p, Enter, Add(name), t);
      } else {
        PrefixIsTransitive(a, added, t);
        DeeperInside(p, a, t);
        assert false;
      }
    }
  }

  // Exit leaves what was added, in scopes still open, before the closed scope was entered
  lemma OpenAcrossExit(p: Trace, t: Trace, a: Trace, name: string)
    requires Inside(p, t) && Depth(t) == Depth(p) + 1
    ensures AddedInOpenScope(a, Then(t, Exit), name) <==> AddedInOpenScope(a, p, name)
  {
    var end, added := Then(t, Exit), Then(a, Add(name));
    InsideIsLater(p, t);
    if AddedInOpenScope(a, end, name) {
      AddedBeforeScope(p, t, a, name);
      forall q | Prefix(a, q) && Prefix(q, p)
        ensures Depth(q) >= Depth(a)
      {
        PrefixIsTransitive(q, p, end);
      }
    }
    if AddedInOpenScope(a, p, name) {
      PrefixIsTransitive(added, p, end);
      PrefixIsTransitive(a, added, p);
      forall q | Prefix(a, q) && Prefix(q, end)
        ensures Depth(q) >= Depth(a)
      {
        AtLeastOutside(p, t, q, end);
      }
    }
  }

  lemma AtLeastOutside(p: Trace, t: Trace, q: Trace, end: Trace)
    requires Inside(p, t) && Depth(t) == Depth(p) + 1 && end == Then(t, Exit) && Prefix(q, end)
    ensures Prefix(q, p) || Depth(q) >= Depth(p)
  {
    InsideIsLater(p, t);
    if q != end {
      PrefixesAreOrdered(q, p, t);
      if !Prefix(q, p) && q != p {
        DeeperInside(p, q, t);
      }
    }
  }

  // What the table holds for a name after a run
  ghost predicate HoldsOpenName(t: Trace, name: string)
    requires Run(t).Some?
  {
    var table := Run(t).value.table;
    if name in table then exists p :: IsFirstAddition(p, t, name, table[name])
    else forall p :: !AddedInOpenScope(p, t, name)
  }

  /** A name is in the table exactly when it was added in a scope that is still open, with the
      declaration that was added first there. */
  lemma {:induction false} TableHoldsOpenNames(t: Trace, name: string)
    requires WellBracketed(t)
    ensures Run(t).Some?
    ensures var table := Run(t).value.table;
            && (name in table <==> exists p :: AddedInOpenScope(p, t, name))
            && (name in table ==> exists p :: IsFirstAddition(p, t, name, table[name]))
  {
    OpenNameIsHeld(t, name);
  }

  lemma {:induction false} OpenNameIsHeld(t: Trace, name: string)
    requires WellBracketed(t)
    ensures Run(t).Some? && HoldsOpenName(t, name)
  {
    RunSucceeds(t);
    if t.Then? {
      if t.event.Exit? {
        var p := EnteredAt(t.before);
        OpenNameIsHeld(p, name);
        HeldAfterExit(p, t.before, name);
      } else {
        OpenNameIsHeld(t.before, name);
        HeldAfterStep(t.before, t.event, name);
      }
    }
  }

  lemma HeldAfterExit(p: Trace, t: Trace, name: string)
    requires Inside(p, t) && WellBracketed(t) && Depth(t) == Depth(p) + 1
    requires Run(p).Some? && HoldsOpenName(p, name)
    ensures Run(Then(t, Exit)).Some? && HoldsOpenName(Then(t, Exit), name)
  {
    MatchedExitRestores(p, t);
    forall a
      ensures AddedInOpenScope(a, Then(t, Exit), name) <==> AddedInOpenScope(a, p, name)
    {
      OpenAcrossExit(p, t, a, name);
    }
    var table := Run(p).value.table;
    if name in table {
      var a :| IsFirstAddition(a, p, name, table[name]);
      assert IsFirstAddition(a, Then(t, Exit), name, table[name]);
    }
  }

  /** Of the table, a step that closes no scope changes only what it adds: a name that is not
      in it yet, with the current node. */
  lemma StepTable(s: State, e: Event, name: string)
    requires 0 <= s.cur < |s.nodes| && Step(s, e).Some? && !e.Exit?
    ensures var table := Step(s, e).value.table;
            && (name in table <==> name in s.table || e == Add(name))
            && (name in table ==> table[name] == if name in s.table then s.table[name] else Decl(name, s.cur))
  {
  }

  lemma HeldAfterStep(t: Trace, e: Event, name: string)
    requires WellBracketed(Then(t, e)) && !e.Exit? && Run(t).Some? && HoldsOpenName(t, name)
    ensures Run(Then(t, e)).Some? && HoldsOpenName(Then(t, e), name)
  {
    var end := Then(t, e);
    RunSucceeds(end);
    var table := Run(t).value.table;
    StepTable(Run(t).value, e, name);
    forall a
      ensures AddedInOpenScope(a, end, name) <==> AddedInOpenScope(a, t, name) || (a == t && e == Add(name))
    {
      OpenAcrossStep(t, e, a, name);
    }
    if name in table {
      var a :| IsFirstAddition(a, t, name, table[name]);
      PrefixIsTransitive(a, Then(a, Add(name)), t);
      assert IsFirstAddition(a, end, name, table[name]);
    } else if e == Add(name) {
      assert IsFirstAddition(t, end, name, Run(end).value.table[name]);
    }
  }

  // The declaration was added at `p`, when its name was not in scope
  ghost predicate AcceptedAt(p: Trace, t: Trace, d: Decl) {
    && Prefix(Then(p, Add(d.name)), t) && Run(p).Some?
    && d.name !in Run(p).value.table && d.scope == Run(p).value.cur
  }

  lemma StepDecls(s: State, e: Event, d: Decl)
    requires 0 <= s.cur < |s.nodes| && Step(s, e).Some?
    ensures d in Step(s, e).value.decls <==>
            d in s.decls || (e == Add(d.name) && d.name !in s.table && d.scope == s.cur)
  {
  }

  /** All declarations are exactly those added while their name was not in scope. */
  lemma {:induction false} DeclsAreAccepted(t: Trace, d: Decl)
    requires WellBracketed(t)
    ensures Run(t).Some?
    ensures d in Run(t).value.decls <==> exists p :: AcceptedAt(p, t, d)
  {
    RunSucceeds(t);
    if t.Then? {
      DeclsAreAccepted(t.before, d);
      StepDecls(Run(t.before).value, t.event, d);
      if p :| AcceptedAt(p, t.before, d) {
        assert AcceptedAt(p, t, d);
      }
      if t.event == Add(d.name) && d.name !in Run(t.before).value.table && d.scope == Run(t.before).value.cur {
        assert AcceptedAt(t.before, t, d);
      }
      if p :| AcceptedAt(p, t, d) {
        assert Then(p, Add(d.name)) == t || AcceptedAt(p, t.before, d);
      }
    }
  }

  /* ---------------------------------------------------------------------- */
  // What the live structures hold
  /* ---------------------------------------------------------------------- */

  // The declarations, in order, whose scope encloses node `cur`
  ghost function Enclosing(nodes: seq<Node>, cur: nat, decls: seq<Decl>): seq<Decl>
    requires Tree(nodes) && cur < |nodes|
    requires forall i :: 0 <= i < |decls| ==> 0 <= decls[i].scope < |nodes|
  {
    if decls == [] then []
    else
      var d := decls[|decls| - 1];
      Enclosing(nodes, cur, decls[..|decls| - 1]) + if nodes[d.scope].parent in Path(nodes, cur) then [d] else []
  }

  ghost predicate Ascending(decls: seq<Decl>) {
    forall i, j :: 0 <= i < j < |decls| ==> decls[i].scope < decls[j].scope
  }

  lemma {:induction false} EnclosingElements(nodes: seq<Node>, cur: nat, decls: seq<Decl>)
    requires Tree(nodes) && cur < |nodes|
    requires forall i :: 0 <= i < |decls| ==> 0 <= decls[i].scope < |nodes|
    requires Ascending(decls)
    ensures Ascending(Enclosing(nodes, cur, decls))
    ensures forall d :: d in Enclosing(nodes, cur, decls) <==> d in decls && nodes[d.scope].parent in Path(nodes, cur)
  {
    if decls != [] {
      var n := |decls| - 1;
      EnclosingElements(nodes, cur, decls[..n]);
      assert decls == decls[..n] + [decls[n]];
      var shorter := Enclosing(nodes, cur, decls[..n]);
      forall i | 0 <= i < |shorter|
        ensures shorter[i].scope < decls[n].scope
      {
        assert shorter[i] in decls[..n];
      }
    }
  }

  lemma FirstIsMember(decls: seq<Decl>)
    ensures decls != [] ==> decls[0] in decls
  {
  }

  lemma {:induction false} AscendingIsUnique(a: seq<Decl>, b: seq<Decl>)
    requires Ascending(a) && Ascending(b) && forall d :: d in a <==> d in b
    ensures a == b
    decreases |a|
  {
    if a == [] {
      FirstIsMember(b);
    } else {
      assert a[0] in b && b[0] in a;
      assert a == [a[0]] + a[1..] && b == [b[0]] + b[1..];
      assert a[0] == b[0];
      forall d
        ensures d in a[1..] <==> d in b[1..]
      {
        assert d in a[1..] ==> d.scope > a[0].scope;
        assert d in b[1..] ==> d.scope > b[0].scope;
        assert d in a <==> d == a[0] || d in a[1..];
        assert d in b <==> d == b[0] || d in b[1..];
      }
      AscendingIsUnique(a[1..], b[1..]);
    }
  }

  /** At every point of a run the table's keys are the names on the stack, which
      are distinct, and the stack is the subsequence of all declarations whose
      scopes are still open. */
  lemma LiveStructures(t: Trace)
    requires WellBracketed(t)
    ensures Run(t).Some?
    ensures var s := Run(t).value;
            && s.table.Keys == Names(s.stack) && |s.table| == |s.stack|
            && Tree(s.nodes) && 0 <= s.cur < |s.nodes|
            && (forall i :: 0 <= i < |s.decls| ==> 0 <= s.decls[i].scope < |s.nodes|)
            && s.stack == Enclosing(s.nodes, s.cur, s.decls)
  {
    RunSucceeds(t);
    var s := Run(t).value;
    EnclosingElements(s.nodes, s.cur, s.decls);
    AscendingIsUnique(s.stack, Enclosing(s.nodes, s.cur, s.decls));
    NamesCount(s.stack);
    assert s.table.Keys == Names(s.stack);
  }

  lemma {:induction false} NamesCount(decls: seq<Decl>)
    requires forall i, j :: 0 <= i < j < |decls| ==> decls[i].name != decls[j].name
    ensures |Names(decls)| == |decls|
  {
    if decls != [] {
      var n := |decls| - 1;
      NamesCount(decls[..n]);
      assert Names(decls) == Names(decls[..n]) + {decls[n].name};
    }
  }
}
