/** Instruction patterns and the tapes they are flattened to.

    A pattern is written as a tree; its tape lists the checks in order, with Push and Pop
    around every nested group that is longer than one operand. */
module PatternTape {
  import opened Sequences
  import opened Wrappers

  type Half = x: int | 0 <= x < 0x1_0000

  datatype Check = NodeType(kind: Half) | OperandType(index: Half)

  datatype Operand = Push | Pop | Do(check: Check)

  // A pattern as it is written down
  datatype Pattern = Empty | Single(check: Check) | Group(children: seq<Pattern>)

  function Wrap(tape: seq<Operand>): seq<Operand> {
    if |tape| > 1 then [Push] + tape + [Pop] else tape
  }

  function Tape(t: Pattern): seq<Operand>
    decreases t, 1
  {
    match t
    case Empty => []
    case Single(check) => [Do(check)]
    case Group(children) => TapeAll(children)
  }

  function TapeAll(children: seq<Pattern>): seq<Operand>
    decreases children, 0
  {
    if children == [] then [] else Wrap(Tape(children[0])) + TapeAll(children[1..])
  }

  lemma Bracket(front: seq<Operand>, tape: seq<Operand>)
    ensures ((front + [Push]) + tape) + [Pop] == front + ([Push] + tape + [Pop])
  {
  }

  /* ---------------------------------------------------------------------- */
  // Building the tape in a fixed array
  /* ---------------------------------------------------------------------- */

  lemma {:induction false} TapeAllConcat(a: seq<Pattern>, b: seq<Pattern>)
    ensures TapeAll(a + b) == TapeAll(a) + TapeAll(b)
    decreases |a|
  {
    if a == [] {
      assert a + b == b;
    } else {
      assert (a + b)[1..] == a[1..] + b;
      TapeAllConcat(a[1..], b);
    }
  }

  // One more child adds its wrapped tape, and a part of the children has no longer tape
  lemma TapeAllNext(children: seq<Pattern>, k: nat)
    requires k < |children|
    ensures TapeAll(children[..k + 1]) == TapeAll(children[..k]) + Wrap(Tape(children[k]))
    ensures |TapeAll(children[..k + 1])| <= |TapeAll(children)|
  {
    assert children[..k + 1] == children[..k] + [children[k]];
    TapeAllConcat(children[..k], [children[k]]);
    assert [children[k]][1..] == [] && Wrap(Tape(children[k])) + [] == Wrap(Tape(children[k]));
    assert children == children[..k + 1] + children[k + 1..];
    TapeAllConcat(children[..k + 1], children[k + 1..]);
  }

  /** The tape of a group is, child after child, the tape of the child, with Push and Pop around
      it if it has more than one operand. */
  lemma TapeOfGroup(children: seq<Pattern>, child: Pattern)
    ensures Tape(Group([])) == []
    ensures Tape(Group(children + [child])) ==
            Tape(Group(children)) + if |Tape(child)| <= 1 then Tape(child) else [Push] + Tape(child) + [Pop]
  {
    TapeAllConcat(children, [child]);
    assert [child][1..] == [] && Wrap(Tape(child)) + [] == Wrap(Tape(child));
  }

  class Pat {
    const tape: array<Operand>
    var N: nat

    ghost predicate Valid()
      reads this
    {
      N <= tape.Length
    }

    ghost function Contents(): seq<Operand>
      requires Valid()
      reads this, tape
    {
      tape[..N]
    }

    constructor (maxStates: nat)
      ensures Valid() && fresh(tape) && tape.Length == maxStates && Contents() == Tape(Empty)
    {
      tape := new Operand[maxStates](_ => Push);
      N := 0;
    }

    constructor Of(maxStates: nat, check: Check)
      requires maxStates > 0
      ensures Valid() && fresh(tape) && tape.Length == maxStates && Contents() == Tape(Single(check))
    {
      tape := new Operand[maxStates](_ => Push);
      N := 1;
      new;
      tape[0] := Do(check);
    }

    // False when the tape is out of space
    method Add(op: Operand) returns (ok: bool)
      requires Valid()
      modifies this`N, tape
      ensures Valid() && (ok <==> old(N) < tape.Length)
      ensures Contents() == if ok then old(Contents()) + [op] else old(Contents())
    {
      if N >= tape.Length {
        return false;
      }
      tape[N] := op;
      N := N + 1;
      return true;
    }

    // Copies the tape of a child; false when the tape is out of space
    method Copy(child: Pat) returns (ok: bool)
      requires Valid() && child.Valid() && child != this && child.tape != tape
      modifies this`N, tape
      ensures Valid() && (ok <==> old(N) + child.N <= tape.Length)
      ensures ok ==> Contents() == old(Contents()) + child.Contents()
    {
      ghost var front, contents := Contents(), child.Contents();
      var j := 0;
      while j < child.N
        invariant Valid() && 0 <= j <= child.N == |contents| && N == old(N) + j
        invariant child.Valid() && contents == child.Contents()
        invariant Contents() == front + contents[..j]
      {
        var added := Add(child.tape[j]);
        if !added {
          return false;
        }
        assert contents[..j + 1] == contents[..j] + [contents[j]];
        j := j + 1;
      }
      assert contents[..j] == contents;
      return true;
    }

    method AddChild(child: Pat) returns (ok: bool)
      requires Valid() && child.Valid() && child != this && child.tape != tape
      modifies this`N, tape
      ensures Valid()
      ensures ok <==> old(N) + |Wrap(child.Contents())| <= tape.Length
      ensures ok ==> Contents() == old(Contents()) + Wrap(child.Contents())
      ensures ok ==>
                Contents() == old(Contents()) +
                  if |child.Contents()| <= 1 then child.Contents() else [Push] + child.Contents() + [Pop]
    {
      if child.N <= 1 {
        ok := Copy(child);
        return;
      }
      Bracket(Contents(), child.Contents());
      ok := Add(Push);
      if ok {
        ok := Copy(child);
        if ok {
          ok := Add(Pop);
        }
      }
    }

    // None when the tape is out of space
    static method FromChildren(maxStates: nat, children: seq<Pat>, ghost trees: seq<Pattern>)
      returns (pat: Option<Pat>)
      requires |children| == |trees|
      requires forall i :: 0 <= i < |children| ==>
                 children[i].Valid() && children[i].Contents() == Tape(trees[i])
      ensures pat.Some? <==> |Tape(Group(trees))| <= maxStates
      ensures pat.Some? ==> pat.value.Valid() && pat.value.Contents() == Tape(Group(trees))
    {
      var result := new Pat(maxStates);
      for k := 0 to |children|
        invariant fresh(result) && fresh(result.tape) && result.tape.Length == maxStates
        invariant result.Valid() && result.Contents() == TapeAll(trees[..k])
      {
        TapeAllNext(trees, k);
        assert children[k].Valid() && children[k].Contents() == Tape(trees[k]);
        var ok := result.AddChild(children[k]);
        if !ok {
          return None;
        }
      }
      assert trees[..|children|] == trees;
      return Some(result);
    }
  }

  /* ---------------------------------------------------------------------- */
  // Reading a tape back
  /* ---------------------------------------------------------------------- */

  // A pattern without needless groups, as a list of items
  datatype Item = Leaf(check: Check) | Nested(items: seq<Item>)

  function Flat(items: seq<Item>): seq<Operand>
    decreases items, 0
  {
    if items == [] then [] else FlatItem(items[0]) + Flat(items[1..])
  }

  function FlatItem(item: Item): seq<Operand>
    decreases item, 1
  {
    match item
    case Leaf(check) => [Do(check)]
    case Nested(items) => [Push] + Flat(items) + [Pop]
  }

  // Whether a list of items has more than one operand on tape
  predicate IsLong(items: seq<Item>) {
    items != [] && !(|items| == 1 && items[0].Leaf?)
  }

  predicate Normal(items: seq<Item>)
    decreases items
  {
    items == [] || (NormalItem(items[0]) && Normal(items[1..]))
  }

  predicate NormalItem(item: Item)
    decreases item
  {
    match item
    case Leaf(_) => true
    case Nested(items) => IsLong(items) && Normal(items)
  }

  // Empty children are dropped, and children of length one are not nested
  function Nest(items: seq<Item>): seq<Item> {
    if IsLong(items) then [Nested(items)] else items
  }

  function Norm(t: Pattern): seq<Item>
    decreases t, 1
  {
    match t
    case Empty => []
    case Single(check) => [Leaf(check)]
    case Group(children) => NormAll(children)
  }

  function NormAll(children: seq<Pattern>): seq<Item>
    decreases children, 0
  {
    if children == [] then [] else Nest(Norm(children[0])) + NormAll(children[1..])
  }

  // Reads operands with a stack of the groups that are open
  datatype Reader = Reader(open: seq<seq<Item>>, items: seq<Item>)

  function ReadOne(r: Reader, op: Operand): Option<Reader> {
    match op
    case Push => Some(Reader(r.open + [r.items], []))
    case Pop =>
      if r.open == [] then None
      else Some(Reader(r.open[..|r.open| - 1], r.open[|r.open| - 1] + [Nested(r.items)]))
    case Do(check) => Some(Reader(r.open, r.items + [Leaf(check)]))
  }

  function ReadAll(r: Reader, tape: seq<Operand>): Option<Reader>
    decreases |tape|
  {
    if tape == [] then Some(r)
    else
      match ReadOne(r, tape[0])
      case None => None
      case Some(next) => ReadAll(next, tape[1..])
  }

  function Decode(tape: seq<Operand>): Option<seq<Item>> {
    match ReadAll(Reader([], []), tape)
    case None => None
    case Some(r) => if r.open == [] then Some(r.items) else None
  }

  // Every Pop closes a Push, and no Push stays open
  predicate Balanced(tape: seq<Operand>, depth: nat)
    decreases |tape|
  {
    if tape == [] then depth == 0
    else
      match tape[0]
      case Push => Balanced(tape[1..], depth + 1)
      case Pop => depth > 0 && Balanced(tape[1..], depth - 1)
      case Do(_) => Balanced(tape[1..], depth)
  }

  /** A tape can be decoded exactly when it is balanced. */
  lemma DecodesIffBalanced(tape: seq<Operand>)
    ensures Decode(tape).Some? <==> Balanced(tape, 0)
  {
    ReadsIffBalanced(Reader([], []), tape);
  }

  lemma {:induction false} ReadsIffBalanced(r: Reader, tape: seq<Operand>)
    ensures Balanced(tape, |r.open|) <==> (ReadAll(r, tape).Some? && ReadAll(r, tape).value.open == [])
    decreases |tape|
  {
    if tape != [] && ReadOne(r, tape[0]).Some? {
      ReadsIffBalanced(ReadOne(r, tape[0]).value, tape[1..]);
    }
  }

  lemma {:induction false} ReadConcat(r: Reader, a: seq<Operand>, b: seq<Operand>)
    ensures ReadAll(r, a + b) == match ReadAll(r, a) case None => None case Some(next) => ReadAll(next, b)
    decreases |a|
  {
    if a == [] {
      assert a + b == b;
    } else {
      assert (a + b)[1..] == a[1..] + b;
      if ReadOne(r, a[0]).Some? {
        ReadConcat(ReadOne(r, a[0]).value, a[1..], b);
      }
    }
  }

  lemma ReadSingle(r: Reader, op: Operand)
    ensures ReadAll(r, [op]) == ReadOne(r, op)
  {
    if ReadOne(r, op).Some? {
      assert ReadAll(ReadOne(r, op).value, [op][1..]) == ReadOne(r, op);
    }
  }

  lemma {:induction false} ReadFlat(r: Reader, items: seq<Item>)
    ensures ReadAll(r, Flat(items)) == Some(Reader(r.open, r.items + items))
    decreases items, 0
  {
    if items == [] {
      assert r.items + items == r.items;
    } else {
      ReadConcat(r, FlatItem(items[0]), Flat(items[1..]));
      ReadItem(r, items[0]);
      ReadFlat(Reader(r.open, r.items + [items[0]]), items[1..]);
      assert r.items + [items[0]] + items[1..] == r.items + items;
    }
  }

  lemma {:induction false} ReadItem(r: Reader, item: Item)
    ensures ReadAll(r, FlatItem(item)) == Some(Reader(r.open, r.items + [item]))
    decreases item, 1
  {
    match item
    case Leaf(check) => ReadSingle(r, Do(check));
    case Nested(items) =>
      var inner := Reader(r.open + [r.items], []);
      ReadConcat(r, [Push] + Flat(items), [Pop]);
      ReadConcat(r, [Push], Flat(items));
      ReadSingle(r, Push);
      ReadFlat(inner, items);
      assert [] + items == items;
      ReadSingle(Reader(inner.open, items), Pop);
      assert inner.open[..|r.open|] == r.open;
  }

  /** Decoding undoes flattening. */
  lemma DecodeFlat(items: seq<Item>)
    ensures Decode(Flat(items)) == Some(items)
  {
    ReadFlat(Reader([], []), items);
    assert [] + items == items;
  }

  // The operands a reader has read
  function Spelled(r: Reader): seq<Operand> {
    SpelledOpen(r.open) + Flat(r.items)
  }

  function SpelledOpen(open: seq<seq<Item>>): seq<Operand> {
    if open == [] then [] else SpelledOpen(open[..|open| - 1]) + Flat(open[|open| - 1]) + [Push]
  }

  lemma {:induction false} FlatConcat(a: seq<Item>, b: seq<Item>)
    ensures Flat(a + b) == Flat(a) + Flat(b)
    decreases |a|
  {
    if a == [] {
      assert a + b == b;
    } else {
      assert (a + b)[1..] == a[1..] + b;
      FlatConcat(a[1..], b);
    }
  }

  lemma FlatSingle(item: Item)
    ensures Flat([item]) == FlatItem(item)
  {
    assert [item][1..] == [];
    assert FlatItem(item) + [] == FlatItem(item);
  }

  lemma PopSpells(below: seq<seq<Item>>, last: seq<Item>, items: seq<Item>)
    ensures Spelled(Reader(below, last + [Nested(items)])) == Spelled(Reader(below + [last], items)) + [Pop]
  {
    FlatConcat(last, [Nested(items)]);
    FlatSingle(Nested(items));
    assert (below + [last])[..|below|] == below;
    Bracket(SpelledOpen(below) + Flat(last), Flat(items));
    Regroup(SpelledOpen(below), Flat(last), FlatItem(Nested(items)));
  }

  lemma ReadOneSpells(r: Reader, op: Operand)
    requires ReadOne(r, op).Some?
    ensures Spelled(ReadOne(r, op).value) == Spelled(r) + [op]
  {
    match op
    case Push =>
      assert (r.open + [r.items])[..|r.open|] == r.open;
    case Pop =>
      var n := |r.open| - 1;
      assert r.open[..n] + [r.open[n]] == r.open;
      PopSpells(r.open[..n], r.open[n], r.items);
    case Do(check) =>
      FlatConcat(r.items, [Leaf(check)]);
      FlatSingle(Leaf(check));
      Regroup(SpelledOpen(r.open), Flat(r.items), [op]);
  }

  lemma {:induction false} ReadSpells(r: Reader, tape: seq<Operand>)
    requires ReadAll(r, tape).Some?
    ensures Spelled(ReadAll(r, tape).value) == Spelled(r) + tape
    decreases |tape|
  {
    if tape != [] {
      ReadOneSpells(r, tape[0]);
      ReadSpells(ReadOne(r, tape[0]).value, tape[1..]);
      assert Spelled(r) + [tape[0]] + tape[1..] == Spelled(r) + tape;
    } else {
      assert Spelled(r) + tape == Spelled(r);
    }
  }

  /** Flattening undoes decoding: what is decoded spells the same tape. */
  lemma FlatDecode(tape: seq<Operand>)
    requires Decode(tape).Some?
    ensures Flat(Decode(tape).value) == tape
  {
    var start: Reader := Reader([], []);
    ReadSpells(start, tape);
    assert Spelled(start) == [];
    assert [] + tape == tape;
    assert [] + Flat(Decode(tape).value) == Flat(Decode(tape).value);
  }

  /* ---------------------------------------------------------------------- */
  // Patterns and tapes
  /* ---------------------------------------------------------------------- */

  lemma {:induction false} FlatIsLong(items: seq<Item>)
    ensures |Flat(items)| > 1 <==> IsLong(items)
  {
    if items != [] {
      assert |FlatItem(items[0])| >= 1;
      if |items| > 1 {
        assert |FlatItem(items[1])| >= 1;
        assert Flat(items[1..]) == FlatItem(items[1]) + Flat(items[1..][1..]);
      } else {
        assert items[1..] == [];
      }
    }
  }

  lemma {:induction false} NormConcat(a: seq<Item>, b: seq<Item>)
    ensures Normal(a + b) <==> Normal(a) && Normal(b)
    decreases |a|
  {
    if a == [] {
      assert a + b == b;
    } else {
      assert (a + b)[1..] == a[1..] + b;
      NormConcat(a[1..], b);
    }
  }

  lemma NormalSingle(item: Item)
    ensures Normal([item]) <==> NormalItem(item)
  {
    assert [item][1..] == [];
  }

  lemma {:induction false} TapeIsFlat(t: Pattern)
    ensures Tape(t) == Flat(Norm(t)) && Normal(Norm(t))
    decreases t, 1
  {
    match t
    case Empty =>
    case Single(check) =>
      FlatSingle(Leaf(check));
      NormalSingle(Leaf(check));
    case Group(children) => TapeAllIsFlat(children);
  }

  lemma {:induction false} TapeAllIsFlat(children: seq<Pattern>)
    ensures TapeAll(children) == Flat(NormAll(children)) && Normal(NormAll(children))
    decreases children, 0
  {
    if children != [] {
      var first := Norm(children[0]);
      TapeIsFlat(children[0]);
      TapeAllIsFlat(children[1..]);
      FlatIsLong(first);
      FlatSingle(Nested(first));
      FlatConcat(Nest(first), NormAll(children[1..]));
      NormalSingle(Nested(first));
      NormConcat(Nest(first), NormAll(children[1..]));
    }
  }

  /** Decoding the tape of a pattern gives the pattern without its needless groups. */
  lemma DecodeTape(t: Pattern)
    ensures Balanced(Tape(t), 0) && Decode(Tape(t)) == Some(Norm(t))
  {
    TapeIsFlat(t);
    DecodeFlat(Norm(t));
    DecodesIffBalanced(Tape(t));
  }

  /** Two patterns have the same tape exactly when they differ in needless groups only. */
  lemma SameTapeIff(t: Pattern, u: Pattern)
    ensures Tape(t) == Tape(u) <==> Norm(t) == Norm(u)
  {
    TapeIsFlat(t);
    TapeIsFlat(u);
    DecodeTape(t);
    DecodeTape(u);
  }

  // Writes items down as patterns
  function Written(items: seq<Item>): seq<Pattern>
    decreases items, 0
  {
    if items == [] then [] else [WrittenItem(items[0])] + Written(items[1..])
  }

  function WrittenItem(item: Item): Pattern
    decreases item, 1
  {
    match item
    case Leaf(check) => Single(check)
    case Nested(items) => Group(Written(items))
  }

  lemma {:induction false} NormWritten(items: seq<Item>)
    requires Normal(items)
    ensures NormAll(Written(items)) == items
    decreases items, 0
  {
    if items != [] {
      var written := Written(items);
      assert written[0] == WrittenItem(items[0]) && written[1..] == Written(items[1..]);
      NormWritten(items[1..]);
      if items[0].Nested? {
        NormWritten(items[0].items);
      }
      assert Nest(Norm(written[0])) == [items[0]];
      assert [items[0]] + items[1..] == items;
    }
  }

  /** The tapes of patterns are exactly the balanced ones in which every nested group is
      longer than one operand. */
  lemma TapesOfPatterns(tape: seq<Operand>)
    ensures (exists t :: Tape(t) == tape) <==> Decode(tape).Some? && Normal(Decode(tape).value)
  {
    if t :| Tape(t) == tape {
      TapeIsFlat(t);
      DecodeTape(t);
    }
    if Decode(tape).Some? && Normal(Decode(tape).value) {
      var t := Group(Written(Decode(tape).value));
      NormWritten(Decode(tape).value);
      TapeIsFlat(t);
      FlatDecode(tape);
      assert Tape(t) == tape;
    }
  }
}
