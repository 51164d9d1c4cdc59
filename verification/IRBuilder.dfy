/** Iterators over the instructions of a block, and the builder that inserts
    instructions behind a moving iterator. */
module IRBuilder {
  import opened InstList
  import opened Sequences
  import E = Emission

  /* ---------------------------------------------------------------------- */
  // Iterators
  /* ---------------------------------------------------------------------- */

  // A point of a block: at an instruction, after the last, or before the first
  datatype Iterator = Iterator(inst: Instruction?, bb: BasicBlock?, afterEnd: bool, beforeBegin: bool)

  function Begin(bb: BasicBlock): Iterator
    reads bb
  {
    Iterator(bb.first, bb, bb.first == null, false)
  }

  function End(bb: BasicBlock): Iterator
    reads bb
  {
    Iterator(bb.last, bb, true, false)
  }

  function Iter(inst: Instruction): Iterator
    reads inst
  {
    Iterator(inst, inst.parent, false, false)
  }

  function NextIter(inst: Instruction): Iterator
    reads inst
  {
    Iterator(if inst.next != null then inst.next else inst, inst.parent, inst.next == null, false)
  }

  function PrevIter(inst: Instruction): Iterator
    reads inst
  {
    Iterator(if inst.prev != null then inst.prev else inst, inst.parent, false, inst.prev == null)
  }

  // Iterators are compared without their blocks
  predicate Equal(a: Iterator, b: Iterator) {
    a.afterEnd == b.afterEnd && a.beforeBegin == b.beforeBegin && a.inst == b.inst
  }

  function Increment(it: Iterator): Iterator
    requires it.beforeBegin || it.inst != null
    reads if it.inst == null then {} else {it.inst}
  {
    if it.beforeBegin then it.(beforeBegin := false)
    else if it.inst.next != null then it.(inst := it.inst.next)
    else it.(afterEnd := true)
  }

  function Decrement(it: Iterator): Iterator
    requires it.afterEnd || it.inst != null
    reads if it.inst == null then {} else {it.inst}
  {
    if it.afterEnd then it.(afterEnd := false)
    else if it.inst.prev != null then it.(inst := it.inst.prev)
    else it.(beforeBegin := true)
  }

  // The iterator for position `p`, from -1 (before the first) to the length
  ghost function Point(insts: seq<Instruction>, bb: BasicBlock, p: int): Iterator
    requires if insts == [] then p == 0 else -1 <= p <= |insts|
  {
    if insts == [] then Iterator(null, bb, true, false)
    else
      Iterator(
        if p == -1 then insts[0] else if p == |insts| then insts[p - 1] else insts[p],
        bb, p == |insts|, p == -1)
  }

  /** `begin` and `end` are the first position and the one after the last. */
  lemma EndsArePoints(insts: seq<Instruction>, bb: BasicBlock)
    requires IsList(insts, bb)
    ensures Begin(bb) == Point(insts, bb, 0) && End(bb) == Point(insts, bb, |insts|)
  {
    assert bb.first == At(insts, 0) && bb.last == At(insts, |insts| - 1);
  }

  /** On a non-empty block, stepping moves by one position and stops at the ends. */
  lemma StepsMoveByOne(insts: seq<Instruction>, bb: BasicBlock, p: int)
    requires IsList(insts, bb) && insts != [] && -1 <= p <= |insts|
    ensures var it := Point(insts, bb, p);
            && Increment(it) == Point(insts, bb, if p < |insts| then p + 1 else p)
            && Decrement(it) == Point(insts, bb, if p > -1 then p - 1 else p)
  {
    var k := if p == -1 then 0 else if p == |insts| then p - 1 else p;
    assert insts[k].next == At(insts, k + 1) && insts[k].prev == At(insts, k - 1);
  }

  /** The iterators an instruction gives of itself and its neighbours agree with
      stepping. */
  lemma NeighbourIterators(insts: seq<Instruction>, bb: BasicBlock, i: nat)
    requires IsList(insts, bb) && i < |insts|
    ensures Iter(insts[i]) == Point(insts, bb, i)
    ensures NextIter(insts[i]) == Point(insts, bb, i + 1) && PrevIter(insts[i]) == Point(insts, bb, i - 1)
  {
    assert insts[i].next == At(insts, i + 1) && insts[i].prev == At(insts, i - 1) && insts[i].parent == bb;
  }

  /** Within a block, equal iterators are the same position. */
  lemma EqualIsSamePosition(insts: seq<Instruction>, bb: BasicBlock, p: int, q: int)
    requires IsList(insts, bb)
    requires if insts == [] then p == q == 0 else -1 <= p <= |insts| && -1 <= q <= |insts|
    ensures Equal(Point(insts, bb, p), Point(insts, bb, q)) <==> p == q
  {
  }

  /** Iterators of different blocks are equal exactly when both blocks are empty. */
  lemma EqualAcrossBlocks(a: seq<Instruction>, ba: BasicBlock, p: int, b: seq<Instruction>, bb: BasicBlock, q: int)
    requires IsList(a, ba) && IsList(b, bb) && ba != bb
    requires (if a == [] then p == 0 else -1 <= p <= |a|) && (if b == [] then q == 0 else -1 <= q <= |b|)
    ensures Equal(Point(a, ba, p), Point(b, bb, q)) <==> a == [] && b == []
  {
    ListsAreDisjoint(a, ba, b, bb);
    assert a != [] ==> Point(a, ba, p).inst in a;
    assert b != [] ==> Point(b, bb, q).inst in b;
  }

  /** Walking from `begin` to `end` visits each instruction once, in order. */
  method Walk(bb: BasicBlock, ghost insts: seq<Instruction>) returns (visited: seq<Instruction>)
    requires IsList(insts, bb)
    ensures visited == insts
  {
    EndsArePoints(insts, bb);
    visited := [];
    var it := Begin(bb);
    var end := End(bb);
    ghost var p := 0;
    while !Equal(it, end)
      invariant 0 <= p <= |insts| && it == Point(insts, bb, p) && visited == insts[..p]
      decreases |insts| - p
    {
      EqualIsSamePosition(insts, bb, p, |insts|);
      visited := visited + [it.inst];
      StepsMoveByOne(insts, bb, p);
      it, p := Increment(it), p + 1;
    }
    EqualIsSamePosition(insts, bb, p, |insts|);
  }

  /* ---------------------------------------------------------------------- */
  // The builder
  /* ---------------------------------------------------------------------- */

  ghost function CursorOf(it: Iterator): E.Cursor<Instruction>
    requires it.afterEnd || it.beforeBegin || it.inst != null
  {
    if it.afterEnd then E.AtEnd else if it.beforeBegin then E.AtStart else E.Behind(it.inst as Instruction)
  }

  // The iterator is a place in the block, seen as a cursor of `Emission`
  ghost predicate PointsInto(it: Iterator, bb: BasicBlock, s: E.State<Instruction>)
    reads s.insts, bb
  {
    && it.bb == bb && (it.afterEnd || it.beforeBegin || it.inst != null)
    && IsList(s.insts, bb) && CursorOf(it) == s.cursor && E.Ready(s)
  }

  class IRBuilder {
    var insertPoint: Iterator

    constructor ()
      ensures insertPoint == Iterator(null, null, true, false)
    {
      insertPoint := Iterator(null, null, true, false);
    }

    method SetInsertPoint(it: Iterator)
      modifies this
      ensures insertPoint == it
    {
      insertPoint := it;
    }

    // Inserts come behind instruction `i` of the block next
    method SetInsertPointAt(instr: Instruction, ghost bb: BasicBlock, ghost insts: seq<Instruction>, ghost i: nat)
      requires IsList(insts, bb) && i < |insts| && instr == insts[i]
      modifies this
      ensures insertPoint == Point(insts, bb, i) && PointsInto(insertPoint, bb, E.State(insts, E.Behind(instr)))
    {
      NeighbourIterators(insts, bb, i);
      SetInsertPoint(Iter(instr));
    }

    method SetInsertPointIn(bb: BasicBlock, ghost insts: seq<Instruction>)
      requires IsList(insts, bb)
      modifies this
      ensures insertPoint == Point(insts, bb, 0)
      ensures PointsInto(insertPoint, bb, E.State(insts, CursorOf(insertPoint)))
    {
      EndsArePoints(insts, bb);
      insertPoint := Begin(bb);
    }

    // Inserts a new instruction at the insertion point and moves behind it
    method Insert(instr: Instruction, bb: BasicBlock, ghost s: E.State<Instruction>)
      requires PointsInto(insertPoint, bb, s) && instr !in s.insts && instr.Unlinked()
      modifies this, bb, instr, s.insts
      ensures PointsInto(insertPoint, bb, E.Step(s, E.Emit(instr)))
    {
      var it := insertPoint;
      ghost var target := E.EmitAt(s.insts, s.cursor, instr);
      if it.afterEnd {
        it.bb.AppendAfterEnd(instr, s.insts);
        assert IsList(target, bb);
      } else if it.beforeBegin {
        it.bb.InsertBeforeBegin(instr, s.insts);
        assert IsList(target, bb);
      } else {
        ghost var i := E.IndexOf(s.insts, it.inst);
        assert s.insts[i].parent == bb;
        instr.InsertAfter(it.inst, s.insts, i);
        assert target == Inserted(s.insts, i + 1, instr);
      }
      ghost var k := E.IndexOf(target, instr);
      assert target[k].parent == bb;
      insertPoint := Iter(instr);
    }
  }

  /** With the insertion point at some position, the next instruction goes behind that
      position, or to the end from the position after the last. */
  lemma EmitsBehindPoint(insts: seq<Instruction>, bb: BasicBlock, p: int, x: Instruction)
    requires IsList(insts, bb) && x !in insts
    requires if insts == [] then p == 0 else -1 <= p <= |insts|
    ensures E.Ready(E.State(insts, CursorOf(Point(insts, bb, p))))
    ensures E.EmitAt(insts, CursorOf(Point(insts, bb, p)), x) ==
            Inserted(insts, if p == |insts| then p else p + 1, x)
  {
    if 0 <= p < |insts| {
      assert E.IndexOf(insts, insts[p]) == p;
    }
  }

  /** Inserts at the insertion point for a block.  It is not the beginning of the block, as
      its comment says, but behind the first instruction. */
  method InsertIn(builder: IRBuilder, bb: BasicBlock, instr: Instruction, ghost insts: seq<Instruction>)
    requires IsList(insts, bb) && instr !in insts && instr.Unlinked()
    modifies builder, bb, instr, insts
    ensures IsList(Inserted(insts, if insts == [] then 0 else 1, instr), bb)
  {
    builder.SetInsertPointIn(bb, insts);
    EmitsBehindPoint(insts, bb, 0, instr);
    builder.Insert(instr, bb, E.State(insts, CursorOf(builder.insertPoint)));
  }

  /** The two are the same exactly when the block is empty, as all blocks are that the code
      generator sets the insertion point to. */
  lemma BeginIsFrontIff(insts: seq<Instruction>, bb: BasicBlock, x: Instruction)
    requires IsList(insts, bb) && x !in insts
    ensures Begin(bb) == Point(insts, bb, 0) && E.Ready(E.State(insts, CursorOf(Begin(bb))))
    ensures E.EmitAt(insts, CursorOf(Begin(bb)), x) == [x] + insts <==> insts == []
  {
    EndsArePoints(insts, bb);
    EmitsBehindPoint(insts, bb, 0, x);
    if insts != [] {
      assert Inserted(insts, 1, x)[0] == insts[0] && ([x] + insts)[0] == x;
    }
  }

  // Puts a new alloca at the start of the entry block, behind the builder's back
  method CreateAlloca(entry: BasicBlock, role: Role, ghost it: Iterator, ghost s: E.State<Instruction>)
    returns (inst: Instruction)
    requires PointsInto(it, entry, s)
    modifies entry, s.insts
    ensures fresh(inst) && inst.role == role
    ensures inst !in s.insts && PointsInto(it, entry, E.Step(s, E.Alloca(inst)))
  {
    inst := new Instruction(role);
    assert inst !in s.insts;
    entry.InsertBeforeBegin(inst, s.insts);
  }

  // Appends an instruction to the block directly, behind the builder's back
  method AppendDirectly(bb: BasicBlock, instr: Instruction, ghost it: Iterator, ghost s: E.State<Instruction>)
    requires PointsInto(it, bb, s) && instr !in s.insts && instr.Unlinked()
    modifies bb, instr, s.insts
    ensures PointsInto(it, bb, E.Step(s, E.Append(instr)))
  {
    bb.AppendAfterEnd(instr, s.insts);
  }

  /* ---------------------------------------------------------------------- */
  // The entry block of a function
  /* ---------------------------------------------------------------------- */

  ghost function Roles(insts: seq<Instruction>): (roles: seq<Role>)
    ensures |roles| == |insts| && forall i :: 0 <= i < |insts| ==> roles[i] == insts[i].role
  {
    seq(|insts|, i requires 0 <= i < |insts| => insts[i].role)
  }

  // The allocas of the first `n` locals, the last one first
  function AllocaRoles(n: nat): seq<Role> {
    if n == 0 then [] else [Alloca(n - 1)] + AllocaRoles(n - 1)
  }

  function Params(isParam: seq<bool>): nat {
    if isParam == [] then 0
    else Params(isParam[..|isParam| - 1]) + if isParam[|isParam| - 1] then 1 else 0
  }

  lemma {:induction false} ParamsAreCounted(isParam: seq<bool>)
    ensures Params(isParam) == multiset(isParam)[true]
    decreases |isParam|
  {
    if isParam != [] {
      var n := |isParam| - 1;
      ParamsAreCounted(isParam[..n]);
      assert isParam == isParam[..n] + [isParam[n]];
    }
  }

  // One store for each parameter, in order: the next argument goes to this local
  function StoreRoles(isParam: seq<bool>): seq<Role> {
    if isParam == [] then []
    else
      var n := |isParam| - 1;
      StoreRoles(isParam[..n]) + if isParam[n] then [Store(Params(isParam[..n]), n)] else []
  }

  // What emitting a body asks of the entry block: a builder insert, or an alloca for the
  // result of a short-circuit expression
  datatype BodyStep = Insertion | ShortCircuit

  function Count(steps: seq<BodyStep>, step: BodyStep): nat {
    if steps == [] then 0
    else Count(steps[..|steps| - 1], step) + if steps[|steps| - 1] == step then 1 else 0
  }

  lemma {:induction false} CountIsMultiplicity(steps: seq<BodyStep>, step: BodyStep)
    ensures Count(steps, step) == multiset(steps)[step]
    decreases |steps|
  {
    if steps != [] {
      var n := |steps| - 1;
      CountIsMultiplicity(steps[..n], step);
      assert steps == steps[..n] + [steps[n]];
    }
  }

  function BodyRoles(n: nat): seq<Role> {
    if n == 0 then [] else BodyRoles(n - 1) + [Body(n - 1)]
  }

  // The allocas of the first `n` short-circuit expressions, the last one first
  function TemporaryRoles(n: nat): seq<Role> {
    if n == 0 then [] else [Temporary(n - 1)] + TemporaryRoles(n - 1)
  }

  // The roles in a block after one step, behind `inserted` insertions and `temporaries` allocas
  function AfterStep(roles: seq<Role>, step: BodyStep, inserted: nat, temporaries: nat): seq<Role> {
    match step
    case Insertion => roles + [Body(inserted)]
    case ShortCircuit => [Temporary(temporaries)] + roles
  }

  // The roles in a block once a body was emitted behind what was there
  function WithBody(roles: seq<Role>, steps: seq<BodyStep>): seq<Role> {
    TemporaryRoles(Count(steps, ShortCircuit)) + roles + BodyRoles(Count(steps, Insertion))
  }

  lemma RolesConcat(a: seq<Instruction>, b: seq<Instruction>)
    ensures Roles(a + b) == Roles(a) + Roles(b)
  {
  }

  // The roles in a block once a local is added
  function WithLocal(roles: seq<Role>, local: nat, arg: nat, isParam: bool): seq<Role> {
    [Alloca(local)] + roles + if isParam then [Store(arg, local)] else []
  }

  // The roles in the entry block once the first `i` locals are added
  function LocalRoles(isParam: seq<bool>, i: nat): seq<Role>
    requires i <= |isParam|
  {
    AllocaRoles(i) + StoreRoles(isParam[..i])
  }

  // The builder still waits at the end of the block
  ghost predicate AtLast(insts: seq<Instruction>, cursor: E.Cursor<Instruction>) {
    cursor == E.AtEnd || (insts != [] && cursor == E.Behind(insts[|insts| - 1]))
  }

  method EmitAlloca(it: Iterator, entry: BasicBlock, role: Role,
                    ghost insts: seq<Instruction>, ghost cursor: E.Cursor<Instruction>)
    returns (ghost longer: seq<Instruction>)
    requires PointsInto(it, entry, E.State(insts, cursor))
    modifies entry, insts
    ensures PointsInto(it, entry, E.State(longer, cursor))
    ensures Roles(longer) == [role] + Roles(insts) && (AtLast(insts, cursor) ==> AtLast(longer, cursor))
    ensures forall k :: 0 <= k < |longer| ==> longer[k] in insts || fresh(longer[k])
  {
    var alloca := CreateAlloca(entry, role, it, E.State(insts, cursor));
    longer := [alloca] + insts;
    RolesConcat([alloca], insts);
    assert Roles([alloca]) == [role];
  }

  method EmitStore(it: Iterator, entry: BasicBlock, local: nat, arg: nat, ghost insts: seq<Instruction>)
    returns (ghost longer: seq<Instruction>)
    requires PointsInto(it, entry, E.State(insts, E.AtEnd))
    modifies entry, insts
    ensures PointsInto(it, entry, E.State(longer, E.AtEnd))
    ensures Roles(longer) == Roles(insts) + [Store(arg, local)]
    ensures forall k :: 0 <= k < |longer| ==> longer[k] in insts || fresh(longer[k])
  {
    var store := new Instruction(Store(arg, local));
    assert store !in insts;
    AppendDirectly(entry, store, it, E.State(insts, E.AtEnd));
    longer := insts + [store];
    RolesConcat(insts, [store]);
    assert Roles([store]) == [Store(arg, local)];
  }

  // An alloca at the front and, for a parameter, a store at the end
  method EmitLocal(it: Iterator, entry: BasicBlock, local: nat, arg: nat, isParam: bool, ghost insts: seq<Instruction>)
    returns (ghost longer: seq<Instruction>)
    requires PointsInto(it, entry, E.State(insts, E.AtEnd))
    modifies entry, insts
    ensures PointsInto(it, entry, E.State(longer, E.AtEnd))
    ensures Roles(longer) == WithLocal(Roles(insts), local, arg, isParam)
    ensures forall k :: 0 <= k < |longer| ==> longer[k] in insts || fresh(longer[k])
  {
    longer := EmitAlloca(it, entry, Alloca(local), insts, E.AtEnd);
    if isParam {
      longer := EmitStore(it, entry, local, arg, longer);
    } else {
      assert Roles(longer) + [] == Roles(longer);
    }
  }

  lemma LocalRolesNext(isParam: seq<bool>, i: nat)
    requires i < |isParam|
    ensures LocalRoles(isParam, i + 1) ==
            WithLocal(LocalRoles(isParam, i), i, Params(isParam[..i]), isParam[i])
    ensures Params(isParam[..i + 1]) == Params(isParam[..i]) + if isParam[i] then 1 else 0
  {
    assert isParam[..i + 1][..i] == isParam[..i];
  }

  // An alloca for each local, and a store appended directly for each parameter
  method EmitLocals(it: Iterator, entry: BasicBlock, isParam: seq<bool>)
    returns (ghost insts: seq<Instruction>)
    requires PointsInto(it, entry, E.State([], E.AtEnd))
    modifies entry
    ensures PointsInto(it, entry, E.State(insts, E.AtEnd))
    ensures Roles(insts) == LocalRoles(isParam, |isParam|)
    ensures forall k :: 0 <= k < |insts| ==> fresh(insts[k])
  {
    insts := [];
    var paramNum := 0;
    for i := 0 to |isParam|
      invariant paramNum == Params(isParam[..i])
      invariant Roles(insts) == LocalRoles(isParam, i)
      invariant PointsInto(it, entry, E.State(insts, E.AtEnd))
      invariant forall k :: 0 <= k < |insts| ==> fresh(insts[k])
    {
      LocalRolesNext(isParam, i);
      insts := EmitLocal(it, entry, i, paramNum, isParam[i], insts);
      if isParam[i] {
        paramNum := paramNum + 1;
      }
    }
  }

  lemma EmitBehindLast(insts: seq<Instruction>, x: Instruction)
    requires insts != [] && Distinct(insts)
    ensures E.EmitAt(insts, E.Behind(insts[|insts| - 1]), x) == insts + [x]
  {
    assert E.IndexOf(insts, insts[|insts| - 1]) == |insts| - 1;
  }

  // One instruction of the body, at the end of the block
  method EmitInsertion(builder: IRBuilder, entry: BasicBlock, number: nat,
                       ghost insts: seq<Instruction>, ghost cursor: E.Cursor<Instruction>)
    returns (ghost longer: seq<Instruction>, ghost next: E.Cursor<Instruction>)
    requires AtLast(insts, cursor) && PointsInto(builder.insertPoint, entry, E.State(insts, cursor))
    modifies builder, entry, insts
    ensures AtLast(longer, next) && PointsInto(builder.insertPoint, entry, E.State(longer, next))
    ensures Roles(longer) == Roles(insts) + [Body(number)]
    ensures forall k :: 0 <= k < |longer| ==> longer[k] in insts || fresh(longer[k])
  {
    assert forall k :: 0 <= k < |insts| ==> insts[k] in insts;
    var instr := new Instruction(Body(number));
    builder.Insert(instr, entry, E.State(insts, cursor));
    if cursor.Behind? {
      EmitBehindLast(insts, instr);
    }
    longer, next := insts + [instr], E.Behind(instr);
    RolesConcat(insts, [instr]);
    assert Roles([instr]) == [Body(number)];
  }

  // One step of the body
  method EmitStep(builder: IRBuilder, entry: BasicBlock, step: BodyStep, inserted: nat, temporaries: nat,
                  ghost insts: seq<Instruction>, ghost cursor: E.Cursor<Instruction>)
    returns (ghost longer: seq<Instruction>, ghost next: E.Cursor<Instruction>)
    requires AtLast(insts, cursor) && PointsInto(builder.insertPoint, entry, E.State(insts, cursor))
    modifies builder, entry, insts
    ensures AtLast(longer, next) && PointsInto(builder.insertPoint, entry, E.State(longer, next))
    ensures Roles(longer) == AfterStep(Roles(insts), step, inserted, temporaries)
    ensures forall k :: 0 <= k < |longer| ==> longer[k] in insts || fresh(longer[k])
  {
    if step.Insertion? {
      longer, next := EmitInsertion(builder, entry, inserted, insts, cursor);
    } else {
      longer := EmitAlloca(builder.insertPoint, entry, Temporary(temporaries), insts, cursor);
      next := cursor;
    }
  }

  lemma WithBodyNext(roles: seq<Role>, steps: seq<BodyStep>, i: nat)
    requires i < |steps|
    ensures Count(steps[..i + 1], Insertion) == Count(steps[..i], Insertion) + if steps[i].Insertion? then 1 else 0
    ensures Count(steps[..i + 1], ShortCircuit) ==
            Count(steps[..i], ShortCircuit) + if steps[i].Insertion? then 0 else 1
    ensures WithBody(roles, steps[..i + 1]) ==
            AfterStep(WithBody(roles, steps[..i]), steps[i],
                      Count(steps[..i], Insertion), Count(steps[..i], ShortCircuit))
  {
    assert steps[..i + 1][..i] == steps[..i];
  }

  method EmitBody(builder: IRBuilder, entry: BasicBlock, steps: seq<BodyStep>, ghost locals: seq<Instruction>)
    returns (ghost insts: seq<Instruction>)
    requires PointsInto(builder.insertPoint, entry, E.State(locals, E.AtEnd))
    modifies builder, entry, locals
    ensures IsList(insts, entry) && Roles(insts) == WithBody(Roles(locals), steps)
  {
    insts := locals;
    ghost var cursor: E.Cursor<Instruction> := E.AtEnd;
    var inserted, temporaries := 0, 0;
    for i := 0 to |steps|
      invariant inserted == Count(steps[..i], Insertion) && temporaries == Count(steps[..i], ShortCircuit)
      invariant Roles(insts) == WithBody(Roles(locals), steps[..i])
      invariant AtLast(insts, cursor) && PointsInto(builder.insertPoint, entry, E.State(insts, cursor))
      invariant forall k :: 0 <= k < |insts| ==> insts[k] in locals || fresh(insts[k])
    {
      WithBodyNext(Roles(locals), steps, i);
      insts, cursor := EmitStep(builder, entry, steps[i], inserted, temporaries, insts, cursor);
      if steps[i].Insertion? {
        inserted := inserted + 1;
      } else {
        temporaries := temporaries + 1;
      }
    }
    assert steps[..|steps|] == steps;
  }

  /** The entry block of a function, as the code generator fills it: first the locals,
      while the builder waits at the end of the empty block, then the body, through the
      builder and with more allocas for its expressions.  The allocas end up last one first,
      before the stores and the body. */
  method EmitEntryBlock(builder: IRBuilder, isParam: seq<bool>, steps: seq<BodyStep>)
    returns (entry: BasicBlock, ghost insts: seq<Instruction>)
    modifies builder
    ensures IsList(insts, entry)
    ensures Roles(insts) ==
            TemporaryRoles(multiset(steps)[ShortCircuit]) + (AllocaRoles(|isParam|) + StoreRoles(isParam)) +
            BodyRoles(multiset(steps)[Insertion])
  {
    entry := new BasicBlock();
    builder.SetInsertPoint(Begin(entry));
    ghost var locals := EmitLocals(builder.insertPoint, entry, isParam);
    assert isParam[..|isParam|] == isParam;
    insts := EmitBody(builder, entry, steps, locals);
    CountIsMultiplicity(steps, Insertion);
    CountIsMultiplicity(steps, ShortCircuit);
  }

  /** Where each of them is: the alloca of local `i` is at `n - 1 - i` among those of the
      locals. */
  lemma {:induction false} AllocaRolesAt(n: nat, i: nat)
    requires i < n
    ensures |AllocaRoles(n)| == n && AllocaRoles(n)[n - 1 - i] == Alloca(i)
  {
    if n > 1 {
      AllocaRolesAt(n - 1, if i < n - 1 then i else 0);
    }
  }

  /** The allocas of expressions come out in the same way, and the body in its order. */
  lemma {:induction false} BodyRolesAt(n: nat, i: nat)
    requires i < n
    ensures |TemporaryRoles(n)| == n && TemporaryRoles(n)[n - 1 - i] == Temporary(i)
    ensures |BodyRoles(n)| == n && BodyRoles(n)[i] == Body(i)
  {
    if n > 1 {
      BodyRolesAt(n - 1, if i < n - 1 then i else 0);
    }
  }

  /** Every parameter has one store, and the stores pair the arguments in order with the
      locals that are parameters. */
  lemma StoreRolesAt(isParam: seq<bool>, i: nat)
    requires i < |isParam|
    ensures |StoreRoles(isParam)| == multiset(isParam)[true]
    ensures isParam[i] ==>
              var k := multiset(isParam[..i])[true]; k < |StoreRoles(isParam)| && StoreRoles(isParam)[k] == Store(k, i)
  {
    ParamsAreCounted(isParam);
    ParamsAreCounted(isParam[..i]);
    StoreRolesFrom(isParam, i);
  }

  lemma {:induction false} StoreRolesFrom(isParam: seq<bool>, i: nat)
    requires i < |isParam|
    ensures |StoreRoles(isParam)| == Params(isParam) && Params(isParam[..i]) <= Params(isParam)
    ensures isParam[i] ==>
              var k := Params(isParam[..i]); k < Params(isParam) && StoreRoles(isParam)[k] == Store(k, i)
    decreases |isParam|
  {
    var n := |isParam| - 1;
    if n > 0 {
      StoreRolesFrom(isParam[..n], if i < n then i else 0);
    }
    if i < n {
      assert isParam[..n][..i] == isParam[..i];
    }
  }
}
