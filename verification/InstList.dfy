/** Instructions of a basic block: an intrusive doubly linked list, updated in
    place, that refines a sequence of distinct instructions.  The sequence is a
    ghost argument of every operation. */
module InstList {
  import opened Sequences

  /* ---------------------------------------------------------------------- */
  // The list in memory
  /* ---------------------------------------------------------------------- */

  // The i-th instruction, or null past either end
  ghost function At(insts: seq<Instruction>, i: int): Instruction? {
    if 0 <= i < |insts| then insts[i] else null
  }

  // The instructions are linked to each other in order
  ghost predicate Linked(insts: seq<Instruction>)
    reads insts
  {
    && Distinct(insts)
    && (forall i {:trigger insts[i].next} :: 0 <= i < |insts| ==> insts[i].next == At(insts, i + 1))
    && (forall i {:trigger insts[i].prev} :: 0 <= i < |insts| ==> insts[i].prev == At(insts, i - 1))
  }

  // The list belongs to `bb`, which knows its ends; a null `bb` is a free list
  ghost predicate IsList(insts: seq<Instruction>, bb: BasicBlock?)
    reads insts, if bb == null then {} else {bb}
  {
    && Linked(insts)
    && (forall i {:trigger insts[i].parent} :: 0 <= i < |insts| ==> insts[i].parent == bb)
    && (bb != null ==> bb.first == At(insts, 0) && bb.last == At(insts, |insts| - 1))
  }

  ghost function Inserted(insts: seq<Instruction>, k: nat, x: Instruction): seq<Instruction>
    requires k <= |insts|
  {
    insts[..k] + [x] + insts[k..]
  }

  ghost function Nexts(insts: seq<Instruction>): (links: seq<Instruction?>)
    reads insts
    ensures |links| == |insts| && forall i {:trigger links[i]} :: 0 <= i < |insts| ==> links[i] == insts[i].next
  {
    seq(|insts|, i requires 0 <= i < |insts| reads insts => insts[i].next)
  }

  ghost function Prevs(insts: seq<Instruction>): (links: seq<Instruction?>)
    reads insts
    ensures |links| == |insts| && forall i {:trigger links[i]} :: 0 <= i < |insts| ==> links[i] == insts[i].prev
  {
    seq(|insts|, i requires 0 <= i < |insts| reads insts => insts[i].prev)
  }

  // Where instruction `j` of the list with a new number `k` was before
  function Before(j: nat, k: nat): nat
    requires j != k
  {
    if j < k then j else j - 1
  }

  // Linking the neighbours of position `k` to `x` links the list with `x` there
  lemma InsertLinks(insts: seq<Instruction>, k: nat, x: Instruction, nexts: seq<Instruction?>, prevs: seq<Instruction?>)
    requires k <= |insts| == |nexts| == |prevs|
    requires forall m :: 0 <= m < |insts| ==> nexts[m] == if m == k - 1 then x else At(insts, m + 1)
    requires forall m :: 0 <= m < |insts| ==> prevs[m] == if m == k then x else At(insts, m - 1)
    ensures var r := Inserted(insts, k, x);
            && At(r, k + 1) == At(insts, k) && At(r, k - 1) == At(insts, k - 1)
            && forall j {:trigger Before(j, k)} :: 0 <= j < |r| && j != k ==>
                 && r[j] == insts[Before(j, k)]
                 && nexts[Before(j, k)] == At(r, j + 1) && prevs[Before(j, k)] == At(r, j - 1)
  {
  }

  ghost function Removed(insts: seq<Instruction>, k: nat): seq<Instruction>
    requires k < |insts|
  {
    insts[..k] + insts[k + 1..]
  }

  // Where instruction `j` of the list without number `k` was before
  function After(j: nat, k: nat): nat {
    if j < k then j else j + 1
  }

  // Linking the neighbours of number `k` to each other links the list without it
  lemma RemoveLinks(insts: seq<Instruction>, k: nat, nexts: seq<Instruction?>, prevs: seq<Instruction?>)
    requires k < |insts| == |nexts| == |prevs|
    requires forall m :: 0 <= m < |insts| && m != k ==> nexts[m] == At(insts, if m == k - 1 then k + 1 else m + 1)
    requires forall m :: 0 <= m < |insts| && m != k ==> prevs[m] == At(insts, if m == k + 1 then k - 1 else m - 1)
    ensures var r := Removed(insts, k);
            forall j {:trigger After(j, k)} :: 0 <= j < |r| ==>
              && r[j] == insts[After(j, k)]
              && nexts[After(j, k)] == At(r, j + 1) && prevs[After(j, k)] == At(r, j - 1)
  {
  }

  // The sequence without `x`
  ghost function Without(insts: seq<Instruction>, x: Instruction): seq<Instruction> {
    if insts == [] then []
    else if insts[0] == x then insts[1..]
    else [insts[0]] + Without(insts[1..], x)
  }

  lemma {:induction false} WithoutAt(insts: seq<Instruction>, i: nat)
    requires Distinct(insts) && i < |insts|
    ensures Without(insts, insts[i]) == Removed(insts, i)
  {
    if i > 0 {
      assert insts[1..][i - 1] == insts[i];
      WithoutAt(insts[1..], i - 1);
      assert Removed(insts, i) == [insts[0]] + Removed(insts[1..], i - 1);
    }
  }

  lemma {:induction false} WithoutAbsent(insts: seq<Instruction>, x: Instruction)
    requires x !in insts
    ensures Without(insts, x) == insts
  {
    if insts != [] {
      WithoutAbsent(insts[1..], x);
    }
  }

  /** The element is at its position, and the others are as before, those behind it one later. */
  lemma InsertedAt(insts: seq<Instruction>, k: nat, x: Instruction)
    requires k <= |insts|
    ensures var r := Inserted(insts, k, x);
            && |r| == |insts| + 1 && r[k] == x
            && (forall i :: 0 <= i < k ==> r[i] == insts[i])
            && (forall i :: k <= i < |insts| ==> r[i + 1] == insts[i])
  {
  }

  /** One element is gone, and those behind it are one earlier. */
  lemma WithoutElement(insts: seq<Instruction>, k: nat)
    requires Distinct(insts) && k < |insts|
    ensures var r := Without(insts, insts[k]);
            && |r| == |insts| - 1 && insts[k] !in r
            && (forall i :: 0 <= i < k ==> r[i] == insts[i])
            && (forall i :: k < i < |insts| ==> r[i - 1] == insts[i])
  {
    WithoutAt(insts, k);
  }

  // What an instruction was created as: the alloca of a local, the store of an argument to
  // a local, an alloca that an expression asks for, or another instruction of a body
  datatype Role = Alloca(local: nat) | Store(arg: nat, local: nat) | Temporary(number: nat) | Body(number: nat)

  class Instruction {
    const role: Role
    var next: Instruction?
    var prev: Instruction?
    var parent: BasicBlock?

    constructor (role: Role)
      ensures this.role == role && next == null && prev == null && parent == null
    {
      this.role := role;
      next, prev, parent := null, null, null;
    }

    ghost predicate Unlinked()
      reads this
    {
      next == null && prev == null
    }

    // Inserts this instruction before `inst`, which is number `i` of its list
    method InsertBefore(inst: Instruction, ghost insts: seq<Instruction>, ghost i: nat)
      requires IsList(insts, inst.parent) && i < |insts| && insts[i] == inst && this !in insts
      modifies this, insts, if inst.parent == null then {} else {inst.parent}
      ensures inst.parent == old(inst.parent)
      ensures IsList(Inserted(insts, i, this), inst.parent)
    {
      prev := inst.prev;
      next := inst;
      if prev != null {
        prev.next := this;
      }
      inst.prev := this;
      parent := inst.parent;
      if prev == null && parent != null {
        parent.first := this;
      }
      Spliced(insts, i, this);
    }

    // Inserts this instruction after `inst`, which is number `i` of its list
    method InsertAfter(inst: Instruction, ghost insts: seq<Instruction>, ghost i: nat)
      requires IsList(insts, inst.parent) && i < |insts| && insts[i] == inst && this !in insts
      modifies this, insts, if inst.parent == null then {} else {inst.parent}
      ensures inst.parent == old(inst.parent)
      ensures IsList(Inserted(insts, i + 1, this), inst.parent)
    {
      next := inst.next;
      prev := inst;
      if next != null {
        next.prev := this;
      }
      inst.next := this;
      parent := inst.parent;
      if next == null && parent != null {
        parent.last := this;
      }
      Spliced(insts, i + 1, this);
    }

    // Unlinks this instruction; the pointer to its block stays
    method EraseFromParent(ghost insts: seq<Instruction>)
      requires IsList(insts, parent) && (this in insts || Unlinked())
      modifies this, insts, if parent == null then {} else {parent}
      ensures IsList(Without(insts, this), old(parent))
      ensures Unlinked() && parent == old(parent)
    {
      ghost var k := if this in insts then PositionOf(insts, this) else |insts|;
      if prev != null {
        prev.next := next;
      }
      if next != null {
        next.prev := prev;
      }
      if parent != null {
        if parent.first == this {
          parent.first := next;
        }
        if parent.last == this {
          parent.last := prev;
        }
      }
      next, prev := null, null;
      if k < |insts| {
        ErasedList(insts, k, parent);
        WithoutAt(insts, k);
      } else {
        WithoutAbsent(insts, this);
      }
    }
  }

  ghost function PositionOf(insts: seq<Instruction>, x: Instruction): (k: nat)
    requires x in insts
    ensures k < |insts| && insts[k] == x
  {
    var k: nat :| k < |insts| && insts[k] == x;
    k
  }

  lemma InsertedIsDistinct(insts: seq<Instruction>, k: nat, x: Instruction)
    requires k <= |insts| && Distinct(insts) && x !in insts
    ensures Distinct(Inserted(insts, k, x))
  {
  }

  // The list after an insertion, from the links of its members
  lemma Spliced(insts: seq<Instruction>, k: nat, x: Instruction)
    requires k <= |insts| && Distinct(insts) && x !in insts
    requires x.next == At(insts, k) && x.prev == At(insts, k - 1)
    requires forall m :: 0 <= m < |insts| ==> Nexts(insts)[m] == if m == k - 1 then x else At(insts, m + 1)
    requires forall m :: 0 <= m < |insts| ==> Prevs(insts)[m] == if m == k then x else At(insts, m - 1)
    ensures Linked(Inserted(insts, k, x))
    ensures At(Inserted(insts, k, x), 0) == if k == 0 then x else insts[0]
    ensures At(Inserted(insts, k, x), |insts|) == if k == |insts| then x else insts[|insts| - 1]
  {
    InsertedIsDistinct(insts, k, x);
    InsertLinks(insts, k, x, Nexts(insts), Prevs(insts));
    var r := Inserted(insts, k, x);
    forall j | 0 <= j < |r|
      ensures r[j].next == At(r, j + 1) && r[j].prev == At(r, j - 1)
    {
      if j != k {
        assert r[j] == insts[Before(j, k)];
      }
    }
  }

  // The list after a removal, from the links of the remaining members
  lemma Unspliced(insts: seq<Instruction>, k: nat)
    requires k < |insts| && Distinct(insts)
    requires forall m :: 0 <= m < |insts| && m != k ==>
               Nexts(insts)[m] == At(insts, if m == k - 1 then k + 1 else m + 1)
    requires forall m :: 0 <= m < |insts| && m != k ==>
               Prevs(insts)[m] == At(insts, if m == k + 1 then k - 1 else m - 1)
    ensures var r := Removed(insts, k);
            && Linked(r)
            && At(r, 0) == At(insts, if k == 0 then 1 else 0)
            && At(r, |r| - 1) == At(insts, if k == |r| then |r| - 1 else |r|)
  {
    RemoveLinks(insts, k, Nexts(insts), Prevs(insts));
    var r := Removed(insts, k);
    forall j | 0 <= j < |r|
      ensures r[j].next == At(r, j + 1) && r[j].prev == At(r, j - 1)
    {
      assert r[j] == insts[After(j, k)];
    }
  }

  lemma ErasedList(insts: seq<Instruction>, k: nat, bb: BasicBlock?)
    requires k < |insts| && Distinct(insts)
    requires forall m :: 0 <= m < |insts| && m != k ==>
               Nexts(insts)[m] == At(insts, if m == k - 1 then k + 1 else m + 1)
    requires forall m :: 0 <= m < |insts| && m != k ==>
               Prevs(insts)[m] == At(insts, if m == k + 1 then k - 1 else m - 1)
    requires forall m {:trigger insts[m].parent} :: 0 <= m < |insts| ==> insts[m].parent == bb
    requires bb != null ==> bb.first == At(insts, if k == 0 then 1 else 0)
    requires bb != null ==> bb.last == At(insts, if k == |insts| - 1 then |insts| - 2 else |insts| - 1)
    ensures IsList(Removed(insts, k), bb)
  {
    Unspliced(insts, k);
    var r := Removed(insts, k);
    forall j | 0 <= j < |r|
      ensures r[j].parent == bb
    {
      assert r[j] == insts[After(j, k)];
    }
  }

  class BasicBlock {
    var first: Instruction?
    var last: Instruction?

    constructor ()
      ensures IsList([], this)
    {
      first, last := null, null;
    }

    // Appends an instruction. On an empty block its own links are left alone, so the
    // result is a list exactly when it was not linked to others.
    method AppendAfterEnd(instr: Instruction, ghost insts: seq<Instruction>)
      requires IsList(insts, this) && instr !in insts
      modifies this, instr, insts
      ensures IsList(insts + [instr], this) <==> insts != [] || old(instr.Unlinked())
    {
      if last != null {
        instr.InsertAfter(last, insts, |insts| - 1);
        last := instr;
        assert Inserted(insts, |insts|, instr) == insts + [instr];
      } else {
        first, last := instr, instr;
      }
      instr.parent := this;
      if insts == [] {
        SingletonList(instr, this);
        assert insts + [instr] == [instr];
      }
    }

    // Inserts an instruction at the front, with the same condition
    method InsertBeforeBegin(instr: Instruction, ghost insts: seq<Instruction>)
      requires IsList(insts, this) && instr !in insts
      modifies this, instr, insts
      ensures IsList([instr] + insts, this) <==> insts != [] || old(instr.Unlinked())
    {
      if first != null {
        instr.InsertBefore(first, insts, 0);
        first := instr;
        assert Inserted(insts, 0, instr) == [instr] + insts;
      } else {
        first, last := instr, instr;
      }
      instr.parent := this;
      if insts == [] {
        SingletonList(instr, this);
        assert [instr] + insts == [instr];
      }
    }
  }

  lemma SingletonList(x: Instruction, bb: BasicBlock)
    requires bb.first == bb.last == x && x.parent == bb
    ensures IsList([x], bb) <==> x.Unlinked()
  {
    assert [x][0].next == x.next && [x][0].prev == x.prev;
  }

  /* ---------------------------------------------------------------------- */
  // Moving instructions between blocks
  /* ---------------------------------------------------------------------- */

  // Takes the first instruction of `succ` and appends it to `bb`
  method MoveFirst(instr: Instruction, bb: BasicBlock, succ: BasicBlock,
                   ghost mine: seq<Instruction>, ghost theirs: seq<Instruction>)
    requires bb != succ && IsList(mine, bb) && IsList(theirs, succ)
    requires theirs != [] && theirs[0] == instr
    modifies bb, succ, mine, theirs
    ensures IsList(mine + [instr], bb) && IsList(theirs[1..], succ)
  {
    ListsAreDisjoint(mine, bb, theirs, succ);
    assert instr in theirs && theirs[0].parent == succ;
    assert Without(theirs, instr) == theirs[1..];
    instr.EraseFromParent(theirs);
    assert IsList(mine, bb) by {
      forall i | 0 <= i < |mine|
        ensures mine[i].next == old(mine[i].next) && mine[i].prev == old(mine[i].prev)
        ensures mine[i].parent == old(mine[i].parent)
      {
        assert mine[i] in mine;
      }
    }
    ghost var rest := theirs[1..];
    assert IsList(rest, succ);
    label Erased:
    bb.AppendAfterEnd(instr, mine);
    assert IsList(rest, succ) by {
      forall i | 0 <= i < |rest|
        ensures rest[i].next == old@Erased(rest[i].next) && rest[i].prev == old@Erased(rest[i].prev)
        ensures rest[i].parent == old@Erased(rest[i].parent)
      {
        assert rest[i] in rest && rest[i] in theirs;
      }
    }
  }

  lemma MovedOne(mine: seq<Instruction>, theirs: seq<Instruction>, k: nat)
    requires k < |theirs|
    ensures theirs[k..][0] == theirs[k] && theirs[k..][1..] == theirs[k + 1..]
    ensures (mine + theirs[..k]) + [theirs[k]] == mine + theirs[..k + 1]
    ensures forall x: Instruction :: x in mine + theirs[..k] ==> x in mine || x in theirs
    ensures forall x: Instruction :: x in theirs[k..] ==> x in theirs
  {
  }

  // Moves all instructions of `succ`, in order, to the end of `bb`
  method MoveAll(bb: BasicBlock, succ: BasicBlock, ghost mine: seq<Instruction>, ghost theirs: seq<Instruction>)
    requires bb != succ && IsList(mine, bb) && IsList(theirs, succ)
    modifies bb, succ, mine, theirs
    ensures IsList(mine + theirs, bb) && IsList([], succ)
  {
    var instr := succ.first;
    ghost var k := 0;
    ghost var merged: seq<Instruction>, rest: seq<Instruction> := mine, theirs;
    while instr != null
      invariant 0 <= k <= |theirs| && merged == mine + theirs[..k] && rest == theirs[k..]
      invariant IsList(merged, bb) && IsList(rest, succ) && instr == At(rest, 0)
      decreases |theirs| - k
    {
      MovedOne(mine, theirs, k);
      assert rest[0].next == At(rest, 1);
      var next := instr.next;
      MoveFirst(instr, bb, succ, merged, rest);
      k, merged, rest := k + 1, merged + [theirs[k]], rest[1..];
      instr := next;
    }
    assert theirs[..k] == theirs && rest == [];
  }

  /** Merges `succ` into `bb`: the terminator of `bb` goes, and the instructions of
      `succ` are moved over one at a time. */
  method MergeInto(bb: BasicBlock, succ: BasicBlock, ghost mine: seq<Instruction>, ghost theirs: seq<Instruction>)
    requires bb != succ && mine != [] && theirs != []
    requires IsList(mine, bb) && IsList(theirs, succ)
    modifies bb, succ, mine, theirs
    ensures IsList(mine[..|mine| - 1] + theirs, bb) && IsList([], succ)
  {
    var term := bb.last;
    ghost var n := |mine| - 1;
    assert term == At(mine, n) == mine[n] && mine[n].parent == bb;
    ListsAreDisjoint(mine, bb, theirs, succ);
    WithoutAt(mine, n);
    assert Without(mine, mine[n]) == mine[..n];
    term.EraseFromParent(mine);
    assert IsList(theirs, succ) by {
      forall i | 0 <= i < |theirs|
        ensures theirs[i].next == old(theirs[i].next) && theirs[i].prev == old(theirs[i].prev)
        ensures theirs[i].parent == old(theirs[i].parent)
      {
        assert theirs[i] in theirs;
      }
    }
    MoveAll(bb, succ, mine[..n], theirs);
  }

  // An instruction is in one list at a time: its parent pointer says which
  lemma ListsAreDisjoint(a: seq<Instruction>, ba: BasicBlock, b: seq<Instruction>, bb: BasicBlock)
    requires IsList(a, ba) && IsList(b, bb) && ba != bb
    ensures forall x: object :: x in a ==> x !in b
  {
    forall i, j | 0 <= i < |a| && 0 <= j < |b|
      ensures a[i] != b[j]
    {
      assert a[i].parent == ba && b[j].parent == bb;
    }
  }
}
