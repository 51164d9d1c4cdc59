/** The scope state of the parser, updated in place, and its scope nodes.

    Every method is proved against the functions of `ScopeSpec`, so the theorems
    there about runs are theorems about sequences of these calls. */
module Semantic {
  import opened Wrappers
  import Spec = ScopeSpec

  /** An immutable scope node; nodes are compared by identity. */
  class ScopeID {
    const parent: ScopeID?
    const pos: int

    constructor (parent: ScopeID?, pos: int)
      ensures this.parent == parent && this.pos == pos
    {
      this.parent := parent;
      this.pos := pos;
    }

    static method New() returns (id: ScopeID)
      ensures fresh(id) && id.parent == null && id.pos == 0
    {
      id := new ScopeID(null, 0);
    }

    // The next node under `parent`, one position after this node
    method Next(parent: ScopeID?) returns (id: ScopeID)
      ensures fresh(id) && id.parent == parent && id.pos == pos + 1
    {
      id := new ScopeID(parent, pos + 1);
    }

    // Positions fall along the parents
    ghost predicate Rooted()
      decreases if pos < 0 then 0 else pos
    {
      0 <= pos && (parent != null ==> 0 <= parent.pos < pos && parent.Rooted())
    }

    // Can this node see `other`?
    function CanView(other: ScopeID): bool
      requires Rooted()
      decreases pos
    {
      if parent == other.parent then pos >= other.pos
      else if parent != null then parent.CanView(other)
      else false
    }
  }

  class VarDecl {
    const name: string
    const scope: ScopeID

    constructor (name: string, scope: ScopeID)
      ensures this.name == name && this.scope == scope
    {
      this.name := name;
      this.scope := scope;
    }
  }

  // The nodes allocated since the last reset, in order: each knows its own index
  ghost predicate Arena(nodes: seq<ScopeID>) {
    && (forall i :: 0 <= i < |nodes| ==> nodes[i].pos == i)
    && (forall i {:trigger nodes[i].parent} :: 0 <= i < |nodes| && nodes[i].parent != null ==>
          0 <= nodes[i].parent.pos < i && nodes[nodes[i].parent.pos] == nodes[i].parent)
  }

  ghost function Index(id: ScopeID?): int {
    if id == null then Spec.NULL else id.pos
  }

  ghost function Abstract(nodes: seq<ScopeID>): seq<Spec.Node> {
    seq(|nodes|, i requires 0 <= i < |nodes| => Spec.Node(Index(nodes[i].parent), nodes[i].pos))
  }

  ghost function AbstractDecl(d: VarDecl): Spec.Decl {
    Spec.Decl(d.name, d.scope.pos)
  }

  ghost function AbstractDecls(decls: seq<VarDecl>): seq<Spec.Decl> {
    seq(|decls|, i requires 0 <= i < |decls| => AbstractDecl(decls[i]))
  }

  ghost function AbstractTable(table: map<string, VarDecl>): map<string, Spec.Decl> {
    map name | name in table :: AbstractDecl(table[name])
  }

  // A node allocated under a node of the arena, or under none, joins it
  lemma ArenaAppend(nodes: seq<ScopeID>, id: ScopeID)
    requires Arena(nodes) && id.pos == |nodes|
    requires id.parent != null ==> 0 <= id.parent.pos < |nodes| && nodes[id.parent.pos] == id.parent
    ensures Arena(nodes + [id])
    ensures Abstract(nodes + [id]) == Abstract(nodes) + [Spec.Node(Index(id.parent), |nodes|)]
  {
  }

  // The newest node of the arena is the current one
  ghost predicate Stands(ids: seq<ScopeID>, current: ScopeID, nodes: seq<Spec.Node>, cur: int) {
    && Arena(ids) && ids != [] && current == ids[|ids| - 1]
    && nodes == Abstract(ids) && cur == current.pos
  }

  lemma RootStands(root: ScopeID)
    requires root.parent == null && root.pos == 0
    ensures Stands([root], root, Spec.Initial.nodes, 0)
  {
    assert Abstract([root]) == [Spec.Node(Spec.NULL, 0)];
  }

  lemma TableUpdate(table: map<string, VarDecl>, d: VarDecl)
    ensures AbstractTable(table[d.name := d]) == AbstractTable(table)[d.name := AbstractDecl(d)]
  {
  }

  // The names erased with the stacked declarations from `size` up
  lemma DroppedNames(stack: seq<VarDecl>, size: nat)
    requires size <= |stack|
    ensures forall name :: name in Spec.Names(AbstractDecls(stack)[size..]) <==>
              exists k :: size <= k < |stack| && stack[k].name == name
  {
    var dropped := AbstractDecls(stack)[size..];
    assert forall k :: size <= k < |stack| ==> dropped[k - size].name == stack[k].name;
    assert forall i :: 0 <= i < |dropped| ==> dropped[i].name == stack[size + i].name;
  }

  lemma TableErase(table: map<string, VarDecl>, names: set<string>)
    ensures AbstractTable(table - names) == AbstractTable(table) - names
  {
  }

  /** Visibility on node identities is visibility on indices: within one arena,
      two nodes have the same parent object exactly when its index is the same. */
  lemma {:induction false} CanViewByIndex(nodes: seq<ScopeID>, a: nat, b: nat)
    requires Arena(nodes) && a < |nodes| && b < |nodes|
    ensures nodes[a].Rooted() && Spec.Tree(Abstract(nodes))
    ensures nodes[a].CanView(nodes[b]) == Spec.CanView(Abstract(nodes), a, b)
    decreases a
  {
    if nodes[a].parent != null {
      CanViewByIndex(nodes, nodes[a].parent.pos, b);
    }
  }

  // The declarations have scopes in the arena, and the table holds some of these declarations
  ghost predicate Owned(nodes: seq<ScopeID>, decls: seq<VarDecl>, table: map<string, VarDecl>) {
    && (forall i :: 0 <= i < |decls| ==> decls[i].scope in nodes)
    && (forall name :: name in table ==> table[name] in decls)
  }

  // One point of a run: the calls so far, and what the fields hold
  datatype Point = Point(
    events: Spec.Trace,
    scope: ScopeID,
    pending: bool,
    nodes: seq<ScopeID>,
    decls: seq<VarDecl>,
    table: map<string, VarDecl>)

  ghost predicate Reached(p: Point) {
    && Spec.WellBracketed(p.events) && Spec.Run(p.events).Some?
    && Arena(p.nodes) && p.scope in p.nodes && Owned(p.nodes, p.decls, p.table)
    && var s := Spec.Run(p.events).value;
       && s.nodes == Abstract(p.nodes) && s.decls == AbstractDecls(p.decls) && s.table == AbstractTable(p.table)
       && s.cur == p.scope.pos && s.pending == p.pending
  }

  // `p` comes no later than `q` in one run
  ghost predicate Precedes(p: Point, q: Point) {
    Spec.Prefix(p.events, q.events) && p.nodes <= q.nodes && p.decls <= q.decls
  }

  lemma {:induction false} PrecedesIsTransitive(p: Point, q: Point, r: Point)
    requires Precedes(p, q) && Precedes(q, r)
    ensures Precedes(p, r)
    decreases r.events
  {
    if q.events != r.events {
      PrecedesIsTransitive(p, q, r.(events := r.events.before));
    }
  }

  /** The scope state. The ghost fields are what the proof remembers: the calls since
      the last reset, the state they lead to, and the nodes allocated for it. */
  class Semantic {
    var lexicalLocalScope: map<string, VarDecl>
    var lexicalLocalDecls: seq<VarDecl>
    var lexicalLocalDeclStack: seq<VarDecl>
    var currentScope: ScopeID
    var currentFieldScope: ScopeID

    ghost var events: Spec.Trace
    ghost var state: Spec.State
    ghost var nodes: seq<ScopeID>
    ghost var fieldNodes: seq<ScopeID>

    ghost predicate ValidNodes()
      reads this`nodes, this`currentScope, this`state
    {
      Stands(nodes, currentScope, state.nodes, state.cur)
    }

    ghost predicate ValidDecls()
      reads this`lexicalLocalScope, this`lexicalLocalDecls, this`lexicalLocalDeclStack, this`state
    {
      && state.table == AbstractTable(lexicalLocalScope)
      && state.decls == AbstractDecls(lexicalLocalDecls)
      && state.stack == AbstractDecls(lexicalLocalDeclStack)
    }

    ghost predicate ValidFields()
      reads this`fieldNodes, this`currentFieldScope
    {
      && Arena(fieldNodes) && fieldNodes != [] && currentFieldScope == fieldNodes[|fieldNodes| - 1]
      && Abstract(fieldNodes) == Spec.FieldScopes(|fieldNodes| - 1)
    }

    // The fields hold the state of the run of the calls made since the last reset
    ghost predicate Valid()
      reads this
    {
      && ValidNodes() && ValidDecls() && ValidFields() && Owned(nodes, lexicalLocalDecls, lexicalLocalScope)
      && Spec.WellBracketed(events) && Spec.Run(events) == Some(state)
    }

    ghost function Here(): Point
      reads this
    {
      Point(events, currentScope, state.pending, nodes, lexicalLocalDecls, lexicalLocalScope)
    }

    lemma HereIsReached()
      requires Valid()
      ensures Reached(Here())
    {
    }

    constructor ()
      ensures Valid() && events == Spec.Start && |fieldNodes| == 1
    {
      var root := ScopeID.New();
      var fieldRoot := ScopeID.New();
      lexicalLocalScope, lexicalLocalDecls, lexicalLocalDeclStack := map[], [], [];
      currentScope, nodes := root, [root];
      currentFieldScope, fieldNodes := fieldRoot, [fieldRoot];
      events, state := Spec.Start, Spec.Initial;
    }

    method ResetLexicalLocalScope()
      requires ValidFields()
      modifies this
      ensures Valid() && events == Spec.Start
      ensures lexicalLocalScope == map[] && lexicalLocalDecls == [] && lexicalLocalDeclStack == []
      ensures fresh(currentScope) && currentScope.parent == null
      ensures fieldNodes == old(fieldNodes)
    {
      lexicalLocalScope := map[];
      lexicalLocalDecls := [];
      lexicalLocalDeclStack := [];
      currentScope := ScopeID.New();
      RootStands(currentScope);
      nodes, events, state := [currentScope], Spec.Start, Spec.Initial;
    }

    // Remembers a call whose effect is done
    ghost method Remember(e: Spec.Event)
      requires ValidNodes() && ValidDecls() && ValidFields()
      requires Owned(nodes, lexicalLocalDecls, lexicalLocalScope)
      requires Spec.WellBracketed(Spec.Then(events, e)) && Spec.Run(Spec.Then(events, e)) == Some(state)
      modifies this`events
      ensures Valid() && events == Spec.Then(old(events), e)
    {
      events := Spec.Then(events, e);
    }

    // The effect of AddLexicalLocal on the fields
    method RecordLocal(decl: VarDecl) returns (added: bool)
      requires ValidDecls() && decl.scope.pos == state.cur && decl.scope in nodes
      requires Owned(nodes, lexicalLocalDecls, lexicalLocalScope)
      modifies this`lexicalLocalScope, this`lexicalLocalDecls, this`lexicalLocalDeclStack, this`state
      ensures ValidDecls() && state == Spec.AddLocal(old(state), decl.name)
      ensures state.nodes == old(state).nodes && state.cur == old(state).cur
      ensures Owned(nodes, lexicalLocalDecls, lexicalLocalScope) && old(lexicalLocalDecls) <= lexicalLocalDecls
      ensures added <==> decl.name !in old(lexicalLocalScope)
      ensures if added then
                && lexicalLocalScope == old(lexicalLocalScope)[decl.name := decl]
                && lexicalLocalDecls == old(lexicalLocalDecls) + [decl]
                && lexicalLocalDeclStack == old(lexicalLocalDeclStack) + [decl]
              else
                && lexicalLocalScope == old(lexicalLocalScope)
                && lexicalLocalDecls == old(lexicalLocalDecls)
                && lexicalLocalDeclStack == old(lexicalLocalDeclStack)
    {
      state := Spec.AddLocal(state, decl.name);
      if decl.name in lexicalLocalScope {
        return false;
      }
      TableUpdate(lexicalLocalScope, decl);
      lexicalLocalScope := lexicalLocalScope[decl.name := decl];
      lexicalLocalDecls := lexicalLocalDecls + [decl];
      lexicalLocalDeclStack := lexicalLocalDeclStack + [decl];
      return true;
    }

    // Adds a declaration unless its name is already in scope
    method AddLexicalLocal(decl: VarDecl) returns (added: bool)
      requires Valid() && state.pending && decl.scope == currentScope
      modifies this
      ensures Valid() && events == Spec.Then(old(events), Spec.Add(decl.name))
      ensures added <==> decl.name !in old(lexicalLocalScope)
      ensures if added then
                && lexicalLocalScope == old(lexicalLocalScope)[decl.name := decl]
                && lexicalLocalDecls == old(lexicalLocalDecls) + [decl]
                && lexicalLocalDeclStack == old(lexicalLocalDeclStack) + [decl]
              else
                && lexicalLocalScope == old(lexicalLocalScope)
                && lexicalLocalDecls == old(lexicalLocalDecls)
                && lexicalLocalDeclStack == old(lexicalLocalDeclStack)
      ensures currentScope == old(currentScope)
      ensures Precedes(old(Here()), Here()) && fieldNodes == old(fieldNodes)
    {
      Spec.RunStep(events, state, Spec.Add(decl.name));
      added := RecordLocal(decl);
      Remember(Spec.Add(decl.name));
    }

    // Moves to a new node under `parent`
    method MoveTo(parent: ScopeID?)
      requires ValidNodes()
      requires parent != null ==> 0 <= parent.pos < |nodes| && nodes[parent.pos] == parent
      modifies this`currentScope, this`nodes, this`state
      ensures ValidNodes() && state == Spec.MoveTo(old(state), Index(parent))
      ensures nodes == old(nodes) + [currentScope] && fresh(currentScope) && currentScope.parent == parent
    {
      currentScope := currentScope.Next(parent);
      ArenaAppend(nodes, currentScope);
      nodes, state := nodes + [currentScope], Spec.MoveTo(state, Index(parent));
    }

    // The effect of EnterLexicalScope on the fields
    method OpenScope(ghost size: nat)
      requires ValidNodes() && size == |state.stack|
      modifies this`currentScope, this`nodes, this`state
      ensures ValidNodes() && state == Spec.EnterScope(old(state)) && nodes == old(nodes) + [currentScope]
      ensures fresh(currentScope) && currentScope.parent == old(currentScope)
    {
      MoveTo(currentScope);
      state := state.(marks := state.marks + [size], pending := false);
    }

    // Opens a scope and returns what ExitLexicalScope needs to close it
    method EnterLexicalScope() returns (size: nat)
      requires Valid()
      modifies this
      ensures Valid() && events == Spec.Then(old(events), Spec.Enter)
      ensures size == |old(lexicalLocalDeclStack)| && state.marks == old(state.marks) + [size]
      ensures fresh(currentScope) && currentScope.parent == old(currentScope)
      ensures lexicalLocalScope == old(lexicalLocalScope) && lexicalLocalDecls == old(lexicalLocalDecls)
      ensures lexicalLocalDeclStack == old(lexicalLocalDeclStack)
      ensures Precedes(old(Here()), Here()) && fieldNodes == old(fieldNodes)
    {
      Spec.RunStep(events, state, Spec.Enter);
      size := |lexicalLocalDeclStack|;
      OpenScope(size);
      Remember(Spec.Enter);
    }

    // Forgets the stacked declarations from `size` up
    method DropDeclarations(size: nat)
      requires ValidDecls() && size <= |lexicalLocalDeclStack|
      modifies this`lexicalLocalScope, this`lexicalLocalDeclStack, this`state
      ensures ValidDecls() && lexicalLocalScope == old(lexicalLocalScope) - Spec.Names(old(state).stack[size..])
      ensures lexicalLocalDeclStack == old(lexicalLocalDeclStack)[..size]
      ensures state == old(state).(
                table := old(state).table - Spec.Names(old(state).stack[size..]),
                stack := old(state).stack[..size])
    {
      ghost var stack := state.stack;
      var i := |lexicalLocalDeclStack| - 1;
      while i >= size
        invariant size - 1 <= i < |lexicalLocalDeclStack| == |stack|
        invariant lexicalLocalDeclStack == old(lexicalLocalDeclStack) && state == old(state)
        invariant lexicalLocalScope == old(lexicalLocalScope) - Spec.Names(stack[i + 1..])
      {
        assert stack[i..] == [stack[i]] + stack[i + 1..];
        assert Spec.Names(stack[i..]) == Spec.Names(stack[i + 1..]) + {stack[i].name};
        lexicalLocalScope := lexicalLocalScope - {lexicalLocalDeclStack[i].name};
        i := i - 1;
      }
      TableErase(old(lexicalLocalScope), Spec.Names(stack[size..]));
      lexicalLocalDeclStack := lexicalLocalDeclStack[..size];
      state := state.(table := state.table - Spec.Names(stack[size..]), stack := stack[..size]);
      assert AbstractDecls(lexicalLocalDeclStack) == stack[..size];
    }

    // Moves to a new node beside the parent of the current one
    method MoveUp()
      requires ValidNodes() && state.nodes[state.cur].parent >= 0
      modifies this`currentScope, this`nodes, this`state
      ensures ValidNodes() && nodes == old(nodes) + [currentScope] && fresh(currentScope)
      ensures old(currentScope).parent != null && currentScope.parent == old(currentScope).parent.parent
      ensures 0 <= old(state).nodes[old(state).cur].parent < |old(state).nodes|
      ensures state == Spec.MoveTo(old(state), old(state).nodes[old(state).nodes[old(state).cur].parent].parent)
    {
      MoveTo(currentScope.parent.parent);
    }

    // The effect of ExitLexicalScope on the fields
    method CloseScope(size: nat)
      requires ValidNodes() && ValidDecls() && size <= |lexicalLocalDeclStack|
      requires state.nodes[state.cur].parent >= 0 && state.marks != []
      requires Owned(nodes, lexicalLocalDecls, lexicalLocalScope)
      modifies this`lexicalLocalScope, this`lexicalLocalDeclStack, this`currentScope, this`nodes, this`state
      ensures ValidNodes() && ValidDecls() && nodes == old(nodes) + [currentScope]
      ensures Owned(nodes, lexicalLocalDecls, lexicalLocalScope) && fresh(currentScope)
      ensures old(currentScope).parent != null && currentScope.parent == old(currentScope).parent.parent
      ensures lexicalLocalScope == old(lexicalLocalScope) - Spec.Names(old(state).stack[size..])
      ensures lexicalLocalDeclStack == old(lexicalLocalDeclStack)[..size]
      ensures old(state).nodes[old(state).cur].parent < |old(state).nodes|
      ensures state == Spec.ExitScope(old(state), size)
    {
      DropDeclarations(size);
      MoveUp();
      state := state.(marks := state.marks[..|state.marks| - 1], pending := false);
    }

    // Closes the innermost scope: forgets its declarations and moves past it
    method ExitLexicalScope(size: nat)
      requires Valid() && state.marks != [] && size == state.marks[|state.marks| - 1]
      modifies this
      ensures Valid() && events == Spec.Then(old(events), Spec.Exit)
      ensures fresh(currentScope) && old(currentScope).parent != null
      ensures currentScope.parent == old(currentScope).parent.parent
      ensures lexicalLocalDecls == old(lexicalLocalDecls) && size <= |old(lexicalLocalDeclStack)|
      ensures lexicalLocalDeclStack == old(lexicalLocalDeclStack)[..size]
      ensures forall name :: name in lexicalLocalScope <==>
                && name in old(lexicalLocalScope)
                && forall k :: size <= k < |old(lexicalLocalDeclStack)| ==> old(lexicalLocalDeclStack)[k].name != name
      ensures forall name :: name in lexicalLocalScope ==> lexicalLocalScope[name] == old(lexicalLocalScope)[name]
      ensures Precedes(old(Here()), Here()) && fieldNodes == old(fieldNodes)
    {
      Spec.RunStep(events, state, Spec.Exit);
      ghost var stack := lexicalLocalDeclStack;
      DroppedNames(stack, size);
      CloseScope(size);
      Remember(Spec.Exit);
    }

    // The effect of NextScopeID on the fields
    method TakeNode()
      requires ValidNodes()
      modifies this`currentScope, this`nodes, this`state
      ensures ValidNodes() && state == Spec.NextScopeId(old(state)) && nodes == old(nodes) + [currentScope]
      ensures fresh(currentScope) && currentScope.parent == old(currentScope).parent
    {
      MoveTo(currentScope.parent);
      state := state.(pending := true);
    }

    // The node of the next declaration in the current scope
    method NextScopeID() returns (id: ScopeID)
      requires Valid()
      modifies this
      ensures Valid() && events == Spec.Then(old(events), Spec.NextScope)
      ensures id == currentScope && Precedes(old(Here()), Here()) && fieldNodes == old(fieldNodes)
      ensures fresh(id) && id.parent == old(currentScope).parent
      ensures lexicalLocalScope == old(lexicalLocalScope) && lexicalLocalDecls == old(lexicalLocalDecls)
      ensures lexicalLocalDeclStack == old(lexicalLocalDeclStack)
    {
      Spec.RunStep(events, state, Spec.NextScope);
      TakeNode();
      Remember(Spec.NextScope);
      id := currentScope;
    }

    // The effect of NextFieldScopeID on the fields
    method TakeFieldNode()
      requires ValidFields()
      modifies this`currentFieldScope, this`fieldNodes
      ensures ValidFields() && fieldNodes == old(fieldNodes) + [currentFieldScope]
      ensures fresh(currentFieldScope) && currentFieldScope.parent == old(currentFieldScope)
    {
      currentFieldScope := currentFieldScope.Next(currentFieldScope);
      ArenaAppend(fieldNodes, currentFieldScope);
      fieldNodes := fieldNodes + [currentFieldScope];
    }

    method NextFieldScopeID() returns (id: ScopeID)
      requires Valid()
      modifies this`currentFieldScope, this`fieldNodes
      ensures Valid() && id == currentFieldScope && fieldNodes == old(fieldNodes) + [id]
      ensures fresh(id) && id.parent == old(currentFieldScope)
    {
      TakeFieldNode();
      id := currentFieldScope;
    }

    method ResetFieldScope()
      requires Valid()
      modifies this`currentFieldScope, this`fieldNodes
      ensures Valid() && fieldNodes == [currentFieldScope]
    {
      currentFieldScope := ScopeID.New();
      RootStands(currentFieldScope);
      fieldNodes := [currentFieldScope];
    }
  }

  /** The late lookup of a local by name from a recorded scope. Without a scope, or from
      another context, visibility is not asked for. */
  method LookupNamedDecl(decls: seq<VarDecl>, from: ScopeID?, name: string, ghost nodes: seq<ScopeID>)
    returns (found: VarDecl?)
    requires Arena(nodes) && (from != null ==> from in nodes)
    requires forall i :: 0 <= i < |decls| ==> decls[i].scope in nodes
    ensures from != null ==> from.Rooted()
    ensures found == null ==> forall i :: 0 <= i < |decls| ==>
              decls[i].name != name || (from != null && !from.CanView(decls[i].scope))
    ensures found != null ==> exists k ::
              && 0 <= k < |decls| && found == decls[k] && found.name == name
              && (from != null ==> from.CanView(found.scope))
              && forall i :: 0 <= i < k ==> decls[i].name != name || (from != null && !from.CanView(decls[i].scope))
    ensures from != null ==>
              && Spec.Tree(Abstract(nodes)) && 0 <= from.pos < |nodes|
              && (forall i :: 0 <= i < |decls| ==> 0 <= AbstractDecls(decls)[i].scope < |nodes|)
              && Spec.FirstVisible(Abstract(nodes), AbstractDecls(decls), from.pos, name) ==
                 if found == null then None else Some(AbstractDecl(found))
  {
    ghost var all := AbstractDecls(decls);
    if from != null {
      CanViewByIndex(nodes, from.pos, from.pos);
    }
    for i := 0 to |decls|
      invariant forall j :: 0 <= j < i ==> decls[j].name != name || (from != null && !from.CanView(decls[j].scope))
      invariant from != null ==>
                  Spec.FirstVisible(Abstract(nodes), all, from.pos, name) ==
                  Spec.FirstVisible(Abstract(nodes), all[i..], from.pos, name)
    {
      assert decls[i..][1..] == decls[i + 1..] && all[i..][1..] == all[i + 1..];
      var scopeVisible := true;
      if from != null {
        CanViewByIndex(nodes, from.pos, decls[i].scope.pos);
        scopeVisible := from.CanView(decls[i].scope);
      }
      if decls[i].name == name && scopeVisible {
        return decls[i];
      }
    }
    return null;
  }

  lemma InArena(nodes: seq<ScopeID>, a: ScopeID, b: ScopeID)
    requires Arena(nodes) && a in nodes && b in nodes
    ensures 0 <= a.pos < |nodes| && nodes[a.pos] == a
    ensures a.pos == b.pos ==> a == b
  {
  }

  // Declarations of a run are told apart by their scopes
  lemma SameScopeIsSame(t: Spec.Trace, decls: seq<VarDecl>, a: VarDecl, b: VarDecl)
    requires Spec.WellBracketed(t) && Spec.Run(t).Some? && Spec.Run(t).value.decls == AbstractDecls(decls)
    requires a in decls && b in decls && AbstractDecl(a) == AbstractDecl(b)
    ensures a == b
  {
    Spec.RunSucceeds(t);
    var i :| 0 <= i < |decls| && decls[i] == a;
    var j :| 0 <= j < |decls| && decls[j] == b;
    assert AbstractDecls(decls)[i].scope == AbstractDecls(decls)[j].scope;
  }

  // What a search over later declarations may answer to a use of `name` at point `p`: the
  // object in the table, or the declaration whose initializer contains the use
  ghost predicate Answers(p: Point, decls: seq<VarDecl>, name: string, found: VarDecl?) {
    if name in p.table then found == p.table[name]
    else if found != null then p.pending && found in decls && found.name == name && found.scope == p.scope
    else p.pending ==> forall i :: 0 <= i < |decls| ==> !(decls[i].name == name && decls[i].scope == p.scope)
  }

  lemma AbstractMember(decls: seq<VarDecl>, d: VarDecl)
    requires d in decls
    ensures AbstractDecl(d) in AbstractDecls(decls)
  {
    var i :| 0 <= i < |decls| && decls[i] == d;
    assert AbstractDecls(decls)[i] == AbstractDecl(d);
  }

  lemma AbstractLookup(name: string, p: Point, q: Point)
    requires Reached(p) && Reached(q) && Precedes(p, q)
    ensures Spec.Tree(Abstract(q.nodes)) && 0 <= p.scope.pos < |q.nodes|
    ensures forall i :: 0 <= i < |q.decls| ==> 0 <= AbstractDecls(q.decls)[i].scope < |q.nodes|
    ensures var found := Spec.FirstVisible(Abstract(q.nodes), AbstractDecls(q.decls), p.scope.pos, name);
            var own := Spec.Decl(name, p.scope.pos);
            if name in p.table then found == Some(AbstractDecl(p.table[name]))
            else found == if p.pending && own in AbstractDecls(q.decls) then Some(own) else None
  {
    Spec.LateLookupAgreesWithTable(p.events, q.events, name);
    if name in p.table {
      AbstractMember(q.decls, p.table[name]);
    }
  }

  lemma LookupAnswers(p: Point, q: Point, name: string, found: VarDecl?)
    requires Reached(p) && Reached(q) && Precedes(p, q) && (found != null ==> found in q.decls)
    requires Spec.Tree(Abstract(q.nodes)) && 0 <= p.scope.pos < |q.nodes|
    requires forall i :: 0 <= i < |q.decls| ==> 0 <= AbstractDecls(q.decls)[i].scope < |q.nodes|
    requires Spec.FirstVisible(Abstract(q.nodes), AbstractDecls(q.decls), p.scope.pos, name) ==
             if found == null then None else Some(AbstractDecl(found))
    ensures Answers(p, q.decls, name, found)
  {
    AbstractLookup(name, p, q);
    if name in p.table {
      SameScopeIsSame(q.events, q.decls, p.table[name], found);
    } else if found != null {
      InArena(q.nodes, found.scope, p.scope);
    } else {
      forall i | 0 <= i < |q.decls|
        ensures p.pending ==> !(q.decls[i].name == name && q.decls[i].scope == p.scope)
      {
        AbstractMember(q.decls, q.decls[i]);
      }
    }
  }

  /** From the scope node that was current at an earlier point of the run, the search over
      all declarations made since finds the very object the table held for the name at that
      point; or, inside its own initializer, the declaration added for that node. */
  method LookupFromPoint(sema: Semantic, from: ScopeID, name: string, ghost p: Point) returns (found: VarDecl?)
    requires sema.Valid() && Reached(p) && Precedes(p, sema.Here()) && from == p.scope
    ensures found != null ==> found in sema.lexicalLocalDecls
    ensures Answers(p, sema.lexicalLocalDecls, name, found)
  {
    sema.HereIsReached();
    assert from in sema.nodes;
    found := LookupNamedDecl(sema.lexicalLocalDecls, from, name, sema.nodes);
    LookupAnswers(p, sema.Here(), name, found);
  }
}
