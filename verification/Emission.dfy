/** Where a builder and a function put new instructions in the entry block, on
    sequences: the layout of the block after any interleaving of insertions. */
module Emission {

  // Where the builder inserts next: at the end, at the front, or after an instruction
  datatype Cursor<I> = AtEnd | AtStart | Behind(inst: I)

  // The builder emits, the function creates an alloca, or something is appended to
  // the block directly
  datatype Event<I> = Emit(inst: I) | Alloca(inst: I) | Append(inst: I)

  datatype State<I> = State(insts: seq<I>, cursor: Cursor<I>)

  function IndexOf<I(==)>(insts: seq<I>, x: I): (k: nat)
    requires x in insts
    ensures k < |insts| && insts[k] == x && forall i :: 0 <= i < k ==> insts[i] != x
  {
    if insts[0] == x then 0 else 1 + IndexOf(insts[1..], x)
  }

  // The builder's cursor points into the block
  predicate Ready<I(==)>(s: State<I>) {
    s.cursor.Behind? ==> s.cursor.inst in s.insts
  }

  function EmitAt<I(==)>(insts: seq<I>, cursor: Cursor<I>, x: I): seq<I>
    requires Ready(State(insts, cursor))
  {
    match cursor
    case AtEnd => insts + [x]
    case AtStart => [x] + insts
    case Behind(y) => var k := IndexOf(insts, y); insts[..k + 1] + [x] + insts[k + 1..]
  }

  function Step<I(==)>(s: State<I>, e: Event<I>): (t: State<I>)
    requires Ready(s)
    ensures Ready(t)
  {
    match e
    case Emit(x) => State(EmitAt(s.insts, s.cursor, x), Behind(x))
    case Alloca(x) => State([x] + s.insts, s.cursor)
    case Append(x) => State(s.insts + [x], s.cursor)
  }

  // The events so far
  datatype Trace<I> = Start | Then(before: Trace<I>, event: Event<I>)

  function Run<I(==)>(s: State<I>, t: Trace<I>): (r: State<I>)
    requires Ready(s)
    ensures Ready(r)
  {
    match t
    case Start => s
    case Then(before, e) => Step(Run(s, before), e)
  }

  /* ---------------------------------------------------------------------- */
  // The layout
  /* ---------------------------------------------------------------------- */

  function Emitted<I>(t: Trace<I>): seq<I> {
    match t
    case Start => []
    case Then(before, Emit(x)) => Emitted(before) + [x]
    case Then(before, _) => Emitted(before)
  }

  // Later allocas come first
  function Allocas<I>(t: Trace<I>): seq<I> {
    match t
    case Start => []
    case Then(before, Alloca(x)) => [x] + Allocas(before)
    case Then(before, _) => Allocas(before)
  }

  // Appended before the builder emitted anything
  function Early<I>(t: Trace<I>): seq<I> {
    match t
    case Start => []
    case Then(before, Append(x)) => if Emitted(before) == [] then Early(before) + [x] else Early(before)
    case Then(before, _) => Early(before)
  }

  // Appended after the builder's first emission
  function Late<I>(t: Trace<I>): seq<I> {
    match t
    case Start => []
    case Then(before, Append(x)) => if Emitted(before) == [] then Late(before) else Late(before) + [x]
    case Then(before, _) => Late(before)
  }

  ghost predicate Inserts<I>(t: Trace<I>, x: I) {
    t.Then? && (t.event.inst == x || Inserts(t.before, x))
  }

  // Each instruction is inserted once, and none is in the block already
  ghost predicate Fresh<I>(insts: seq<I>, t: Trace<I>) {
    t.Then? ==>
      Fresh(insts, t.before) && t.event.inst !in insts && !Inserts(t.before, t.event.inst)
  }

  ghost predicate LaidOut<I>(t: Trace<I>, x: I) {
    x in Emitted(t) || x in Allocas(t) || x in Early(t) || x in Late(t)
  }

  lemma {:induction false} LaidOutIsInserted<I>(t: Trace<I>, x: I)
    ensures LaidOut(t, x) ==> Inserts(t, x)
  {
    if t.Then? {
      LaidOutIsInserted(t.before, x);
    }
  }

  lemma {:induction false} InsertedIsLaidOut<I>(t: Trace<I>, x: I)
    ensures Inserts(t, x) ==> LaidOut(t, x)
  {
    if t.Then? {
      InsertedIsLaidOut(t.before, x);
    }
  }

  lemma EmitBehind<I>(left: seq<I>, y: I, right: seq<I>, x: I)
    requires y !in left
    ensures Ready(State(left + [y] + right, Behind(y)))
    ensures EmitAt(left + [y] + right, Behind(y), x) == left + [y] + [x] + right
  {
    var all := left + [y] + right;
    assert all[|left|] == y;
    assert IndexOf(all, y) == |left|;
  }

  // An emitted instruction is nowhere else in the layout
  lemma {:induction false} EmittedOnce<I>(insts: seq<I>, t: Trace<I>)
    requires Fresh(insts, t) && Emitted(t) != []
    ensures var n, y := |Emitted(t)| - 1, Emitted(t)[|Emitted(t)| - 1];
            y !in insts && y !in Allocas(t) && y !in Early(t) && y !in Emitted(t)[..n]
  {
    LaidOutIsInserted(t.before, t.event.inst);
    if !t.event.Emit? {
      EmittedOnce(insts, t.before);
      var y := Emitted(t)[|Emitted(t)| - 1];
      LaidOutIsInserted(t.before, y);
    }
  }

  ghost function Join<I>(a: seq<I>, b: seq<I>, c: seq<I>, d: seq<I>): seq<I> {
    a + b + c + d
  }

  lemma JoinGrows<I>(a: seq<I>, b: seq<I>, c: seq<I>, d: seq<I>, x: I)
    ensures [x] + Join(a, b, c, d) == Join([x] + a, b, c, d)
    ensures Join(a, b, c, d) + [x] == Join(a, b, c, d + [x])
    ensures c == d == [] ==> Join(a, b, c, d) + [x] == Join(a, b + [x], c, d) == Join(a, b, c + [x], d)
  {
  }

  // Emitting behind the last of the third part extends it
  lemma JoinEmits<I>(a: seq<I>, b: seq<I>, c: seq<I>, d: seq<I>, x: I)
    requires c != [] && c[|c| - 1] !in a && c[|c| - 1] !in b && c[|c| - 1] !in c[..|c| - 1]
    ensures Ready(State(Join(a, b, c, d), Behind(c[|c| - 1])))
    ensures EmitAt(Join(a, b, c, d), Behind(c[|c| - 1]), x) == Join(a, b, c + [x], d)
  {
    var n := |c| - 1;
    var left := a + b + c[..n];
    assert Join(a, b, c, d) == left + [c[n]] + d;
    EmitBehind(left, c[n], d, x);
    assert left + [c[n]] + [x] + d == Join(a, b, c + [x], d);
  }

  /** A builder that starts on an empty block: whatever the interleaving, the block
      is the allocas, last one first, then what was appended before the builder
      started, then what it emitted in order, then what was appended later. */
  lemma {:induction false} EntryBlockLayout<I>(t: Trace<I>)
    requires Fresh([], t)
    ensures var r := Run(State([], AtEnd), t);
            && r.insts == Join(Allocas(t), Early(t), Emitted(t), Late(t))
            && r.cursor == (if Emitted(t) == [] then AtEnd else Behind(Emitted(t)[|Emitted(t)| - 1]))
            && (Emitted(t) == [] ==> Late(t) == [])
  {
    if t.Then? {
      EntryBlockLayout(t.before);
      var a, b, c, d := Allocas(t.before), Early(t.before), Emitted(t.before), Late(t.before);
      JoinGrows(a, b, c, d, t.event.inst);
      if t.event.Emit? && c != [] {
        EmittedOnce([], t.before);
        JoinEmits(a, b, c, d, t.event.inst);
      }
    }
  }

  // Everything appended, in order
  function Appended<I>(t: Trace<I>): seq<I> {
    match t
    case Start => []
    case Then(before, Append(x)) => Appended(before) + [x]
    case Then(before, _) => Appended(before)
  }

  ghost function BuilderBlock<I>(pre: seq<I>, post: seq<I>, t: Trace<I>): seq<I> {
    Join(Allocas(t), [], pre + Emitted(t), post + Appended(t))
  }

  lemma BuilderEmits<I>(pre: seq<I>, post: seq<I>, t: Trace<I>, x: I)
    requires pre != [] && pre[|pre| - 1] !in pre[..|pre| - 1] && Fresh(pre + post, t)
    ensures var y := (pre + Emitted(t))[|pre + Emitted(t)| - 1];
            && Ready(State(BuilderBlock(pre, post, t), Behind(y)))
            && EmitAt(BuilderBlock(pre, post, t), Behind(y), x) == BuilderBlock(pre, post, Then(t, Emit(x)))
  {
    CursorOnce(pre, post, t);
    var whole := pre + Emitted(t);
    JoinEmits(Allocas(t), [], whole, post + Appended(t), x);
    assert whole + [x] == pre + Emitted(Then(t, Emit(x)));
  }

  lemma {:induction false} BuilderRun<I>(pre: seq<I>, post: seq<I>, t: Trace<I>)
    requires pre != [] && pre[|pre| - 1] !in pre[..|pre| - 1] && Fresh(pre + post, t)
    requires Ready(State(pre + post, Behind(pre[|pre| - 1])))
    ensures var r := Run(State(pre + post, Behind(pre[|pre| - 1])), t);
            && r.insts == BuilderBlock(pre, post, t)
            && r.cursor == Behind((pre + Emitted(t))[|pre + Emitted(t)| - 1])
  {
    if t.Then? {
      var before, x := t.before, t.event.inst;
      BuilderRun(pre, post, before);
      match t.event
      case Emit(_) => BuilderEmits(pre, post, before, x);
      case Alloca(_) => JoinGrows(Allocas(before), [], pre + Emitted(before), post + Appended(before), x);
      case Append(_) =>
        JoinGrows(Allocas(before), [], pre + Emitted(before), post + Appended(before), x);
        assert (post + Appended(before)) + [x] == post + Appended(t);
    }
  }

  /** A builder whose cursor is behind the last of `pre`: it emits between `pre` and
      `post`, in order; allocas go to the front and appends to the end. */
  lemma BuilderLayout<I>(pre: seq<I>, post: seq<I>, t: Trace<I>)
    requires pre != [] && pre[|pre| - 1] !in pre[..|pre| - 1] && Fresh(pre + post, t)
    ensures Ready(State(pre + post, Behind(pre[|pre| - 1])))
    ensures var r := Run(State(pre + post, Behind(pre[|pre| - 1])), t);
            && r.insts == Allocas(t) + pre + Emitted(t) + post + Appended(t)
            && r.cursor == Behind((pre + Emitted(t))[|pre + Emitted(t)| - 1])
  {
    assert (pre + post)[|pre| - 1] == pre[|pre| - 1];
    BuilderRun(pre, post, t);
    JoinFlattens(Allocas(t), pre, Emitted(t), post, Appended(t));
  }

  lemma JoinFlattens<I>(a: seq<I>, b: seq<I>, c: seq<I>, d: seq<I>, e: seq<I>)
    ensures Join(a, [], b + c, d + e) == a + b + c + d + e
  {
    assert a + [] == a;
    assert a + (b + c) == a + b + c;
    assert a + b + c + (d + e) == a + b + c + d + e;
  }

  // The cursor's instruction occurs once in front of the insertion point
  lemma CursorOnce<I>(pre: seq<I>, post: seq<I>, t: Trace<I>)
    requires pre != [] && pre[|pre| - 1] !in pre[..|pre| - 1] && Fresh(pre + post, t)
    ensures var whole := pre + Emitted(t);
            var y := whole[|whole| - 1];
            y !in Allocas(t) && y !in whole[..|whole| - 1]
  {
    var whole := pre + Emitted(t);
    if Emitted(t) == [] {
      assert whole == pre && (pre + post)[|pre| - 1] == pre[|pre| - 1];
      NotInserted(pre + post, t, pre[|pre| - 1]);
      LaidOutIsInserted(t, pre[|pre| - 1]);
    } else {
      EmittedOnce(pre + post, t);
      assert whole[..|whole| - 1] == pre + Emitted(t)[..|Emitted(t)| - 1];
      assert forall x :: x in pre ==> x in pre + post;
    }
  }

  lemma {:induction false} NotInserted<I>(insts: seq<I>, t: Trace<I>, y: I)
    requires Fresh(insts, t) && y in insts
    ensures !Inserts(t, y)
  {
    if t.Then? {
      NotInserted(insts, t.before, y);
    }
  }
}
