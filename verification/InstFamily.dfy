/** Instructions moving between the blocks of a function: inserting, erasing while keeping,
    and inserting again conserves them. */
module InstFamily {
  import opened InstList
  import opened Sequences
  import E = Emission

  // The lists of some blocks, and the instructions in none of them
  datatype Family = Family(lists: map<BasicBlock, seq<Instruction>>, loose: set<Instruction>)

  datatype Op =
    | Append(bb: BasicBlock, inst: Instruction)
    | Prepend(bb: BasicBlock, inst: Instruction)
    | Before(bb: BasicBlock, at: Instruction, inst: Instruction)
    | After(bb: BasicBlock, at: Instruction, inst: Instruction)
    | Erase(bb: BasicBlock, inst: Instruction)

  // Every instruction is in one place
  ghost predicate Separate(f: Family) {
    && (forall bb :: bb in f.lists ==> Distinct(f.lists[bb]))
    && (forall bb, x :: bb in f.lists && x in f.lists[bb] ==> x !in f.loose)
    && (forall bb, bb', x :: bb in f.lists && bb' in f.lists && x in f.lists[bb] && x in f.lists[bb'] ==> bb == bb')
  }

  ghost predicate Has(f: Family, x: Instruction) {
    x in f.loose || exists bb :: bb in f.lists && x in f.lists[bb]
  }

  ghost predicate Legal(f: Family, op: Op) {
    && op.bb in f.lists
    && match op
       case Erase(bb, x) => x in f.lists[bb]
       case Before(bb, at, x) => at in f.lists[bb] && x in f.loose
       case After(bb, at, x) => at in f.lists[bb] && x in f.loose
       case _ => op.inst in f.loose
  }

  // The list of the block after the operation
  ghost function Changed(insts: seq<Instruction>, op: Op): seq<Instruction>
    requires op.Before? || op.After? ==> op.at in insts
  {
    match op
    case Append(_, x) => insts + [x]
    case Prepend(_, x) => [x] + insts
    case Before(_, at, x) => Inserted(insts, E.IndexOf(insts, at), x)
    case After(_, at, x) => Inserted(insts, E.IndexOf(insts, at) + 1, x)
    case Erase(_, x) => Without(insts, x)
  }

  /** The list after each operation, when `at`, or what is erased, is number `k`. */
  lemma ChangedAt(insts: seq<Instruction>, op: Op, k: nat)
    requires Distinct(insts) && k < |insts|
    requires op.Before? || op.After? ==> op.at == insts[k]
    requires op.Erase? ==> op.inst == insts[k]
    ensures op.Append? ==> Changed(insts, op) == insts + [op.inst]
    ensures op.Prepend? ==> Changed(insts, op) == [op.inst] + insts
    ensures op.Before? ==> Changed(insts, op) == insts[..k] + [op.inst] + insts[k..]
    ensures op.After? ==> Changed(insts, op) == insts[..k + 1] + [op.inst] + insts[k + 1..]
    ensures op.Erase? ==> Changed(insts, op) == insts[..k] + insts[k + 1..]
  {
    if op.Before? || op.After? {
      assert E.IndexOf(insts, op.at) == k;
    } else if op.Erase? {
      WithoutAt(insts, k);
    }
  }

  ghost function Apply(f: Family, op: Op): Family
    requires Legal(f, op)
  {
    Family(f.lists[op.bb := Changed(f.lists[op.bb], op)],
           if op.Erase? then f.loose + {op.inst} else f.loose - {op.inst})
  }

  lemma InsertedMembers(insts: seq<Instruction>, k: nat, x: Instruction)
    requires Distinct(insts) && k <= |insts| && x !in insts
    ensures Distinct(Inserted(insts, k, x))
    ensures forall y :: y in Inserted(insts, k, x) <==> y in insts || y == x
  {
    assert insts == insts[..k] + insts[k..];
  }

  lemma {:induction false} WithoutMembers(insts: seq<Instruction>, x: Instruction)
    requires Distinct(insts) && x in insts
    ensures Distinct(Without(insts, x))
    ensures forall y :: y in Without(insts, x) <==> y in insts && y != x
  {
    assert insts == [insts[0]] + insts[1..];
    if insts[0] == x {
      assert x !in insts[1..];
    } else {
      WithoutMembers(insts[1..], x);
      assert insts[0] !in Without(insts[1..], x);
    }
  }

  // The change of one list: one instruction more or one less, and the others once
  lemma ChangedMembers(insts: seq<Instruction>, op: Op)
    requires Distinct(insts) && (op.Before? || op.After? ==> op.at in insts)
    requires if op.Erase? then op.inst in insts else op.inst !in insts
    ensures Distinct(Changed(insts, op))
    ensures forall x :: x in Changed(insts, op) <==>
              if op.Erase? then x in insts && x != op.inst else x in insts || x == op.inst
  {
    match op
    case Append(_, x) =>
      InsertedMembers(insts, |insts|, x);
      assert Inserted(insts, |insts|, x) == insts + [x];
    case Prepend(_, x) =>
      InsertedMembers(insts, 0, x);
      assert Inserted(insts, 0, x) == [x] + insts;
    case Before(_, at, x) => InsertedMembers(insts, E.IndexOf(insts, at), x);
    case After(_, at, x) => InsertedMembers(insts, E.IndexOf(insts, at) + 1, x);
    case Erase(_, x) => WithoutMembers(insts, x);
  }

  /** Every operation keeps each instruction in one place, and loses and gains none. */
  lemma StepConserves(f: Family, op: Op)
    requires Separate(f) && Legal(f, op)
    ensures Separate(Apply(f, op))
    ensures forall x :: Has(Apply(f, op), x) <==> Has(f, x)
  {
    var g := Apply(f, op);
    ChangedMembers(f.lists[op.bb], op);
    forall x
      ensures Has(g, x) <==> Has(f, x)
    {
      StepConservesOne(f, op, x);
    }
  }

  lemma StepConservesOne(f: Family, op: Op, x: Instruction)
    requires Separate(f) && Legal(f, op)
    ensures Has(Apply(f, op), x) <==> Has(f, x)
  {
    var g := Apply(f, op);
    ChangedMembers(f.lists[op.bb], op);
    if bb :| bb in f.lists && x in f.lists[bb] {
      assert bb in g.lists && (x in g.lists[bb] || x in g.loose);
    }
    if bb :| bb in g.lists && x in g.lists[bb] {
      assert bb in f.lists && (x in f.lists[bb] || x in f.loose);
    }
    if x == op.inst {
      assert op.bb in g.lists && (x in g.lists[op.bb] || x in g.loose);
      assert op.bb in f.lists && (x in f.lists[op.bb] || x in f.loose);
    }
  }

  ghost predicate LegalRun(f: Family, ops: seq<Op>)
    decreases |ops|
  {
    ops != [] ==> Legal(f, ops[0]) && LegalRun(Apply(f, ops[0]), ops[1..])
  }

  ghost function Run(f: Family, ops: seq<Op>): Family
    requires LegalRun(f, ops)
    decreases |ops|
  {
    if ops == [] then f else Run(Apply(f, ops[0]), ops[1..])
  }

  /** So does every run. */
  lemma {:induction false} RunConserves(f: Family, ops: seq<Op>)
    requires Separate(f) && LegalRun(f, ops)
    ensures Separate(Run(f, ops))
    ensures forall x :: Has(Run(f, ops), x) <==> Has(f, x)
    decreases |ops|
  {
    if ops != [] {
      StepConserves(f, ops[0]);
      RunConserves(Apply(f, ops[0]), ops[1..]);
    }
  }

  /* ---------------------------------------------------------------------- */
  // In memory
  /* ---------------------------------------------------------------------- */

  ghost function Instructions(f: Family): set<Instruction> {
    f.loose + set bb, i | bb in f.lists && 0 <= i < |f.lists[bb]| :: f.lists[bb][i]
  }

  ghost predicate InMemory(f: Family)
    reads f.lists.Keys, Instructions(f)
  {
    && (forall bb :: bb in f.lists ==> IsList(f.lists[bb], bb))
    && (forall x :: x in f.loose ==> x.Unlinked())
  }

  // The operation on the list of its block
  method Change(op: Op, ghost insts: seq<Instruction>)
    requires IsList(insts, op.bb) && (op.Before? || op.After? ==> op.at in insts)
    requires if op.Erase? then op.inst in insts else op.inst !in insts && op.inst.Unlinked()
    modifies op.bb, op.inst, insts
    ensures IsList(Changed(insts, op), op.bb) && (op.Erase? ==> op.inst.Unlinked())
  {
    match op
    case Append(bb, x) => bb.AppendAfterEnd(x, insts);
    case Prepend(bb, x) => bb.InsertBeforeBegin(x, insts);
    case Before(bb, at, x) =>
      assert insts[E.IndexOf(insts, at)].parent == bb;
      x.InsertBefore(at, insts, E.IndexOf(insts, at));
    case After(bb, at, x) =>
      assert insts[E.IndexOf(insts, at)].parent == bb;
      x.InsertAfter(at, insts, E.IndexOf(insts, at));
    case Erase(bb, x) =>
      assert insts[E.IndexOf(insts, x)].parent == bb;
      x.EraseFromParent(insts);
  }

  /** An operation in memory changes the family as specified, and no other block. */
  method Perform(op: Op, ghost f: Family)
    requires Separate(f) && Legal(f, op) && InMemory(f)
    modifies f.lists.Keys, Instructions(f)
    ensures Separate(Apply(f, op)) && InMemory(Apply(f, op))
  {
    StepConserves(f, op);
    ghost var insts := f.lists[op.bb];
    assert op.inst in Instructions(f);
    assert forall k :: 0 <= k < |insts| ==> insts[k] in Instructions(f);
    Change(op, insts);
    forall bb | bb in f.lists && bb != op.bb
      ensures IsList(f.lists[bb], bb)
    {
      ghost var others := f.lists[bb];
      assert forall k :: 0 <= k < |others| ==> others[k] in others && others[k] !in insts && others[k] != op.inst;
    }
  }
}
