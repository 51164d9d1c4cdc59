/** The target's pattern definitions, sorted into one list for each kind of graph node. */
module PatternProvider {
  import opened PatternTape
  import opened PatternMatch

  datatype Input = Immediate | Register | Fragment

  datatype Definition = Definition(name: string, patterns: seq<Pattern>, inputs: seq<Input>, outputs: seq<Output>)

  // Adds a pattern, unless its tape is empty
  function AddPattern(d: Definition, t: Pattern): Definition {
    if Tape(t) == [] then d else d.(patterns := d.patterns + [t])
  }

  function Data(op: Operand): Half {
    match op
    case Do(NodeType(kind)) => kind
    case Do(OperandType(index)) => index
    case _ => 0
  }

  // The data of the first operand on the first tape, whatever that operand is
  function DagKind(d: Definition): Half {
    if d.patterns == [] || Tape(d.patterns[0]) == [] then 0 else Data(Tape(d.patterns[0])[0])
  }

  /** A definition is filed under what its first pattern starts with: a kind of node, or else
      the index of an operand, or zero for a group; and under zero without a pattern. */
  lemma DagKindIs(d: Definition)
    ensures d.patterns == [] ==> DagKind(d) == 0
    ensures forall op, rest :: d.patterns != [] && Tape(d.patterns[0]) == [op] + rest ==>
              && (op.Push? ==> DagKind(d) == 0)
              && (op.Do? && op.check.NodeType? ==> DagKind(d) == op.check.kind)
              && (op.Do? && op.check.OperandType? ==> DagKind(d) == op.check.index)
  {
  }

  function Registers(inputs: seq<Input>): nat {
    if inputs == [] then 0
    else Registers(inputs[..|inputs| - 1]) + if inputs[|inputs| - 1].Register? then 1 else 0
  }

  // More inputs come first, then fewer registers
  predicate Before(a: Definition, b: Definition) {
    |a.inputs| > |b.inputs| || (|a.inputs| == |b.inputs| && Registers(a.inputs) < Registers(b.inputs))
  }

  /** These are the register inputs, each as often as it is there. */
  lemma {:induction false} RegistersAreCounted(inputs: seq<Input>)
    ensures Registers(inputs) == multiset(inputs)[Register]
    decreases |inputs|
  {
    if inputs != [] {
      var n := |inputs| - 1;
      RegistersAreCounted(inputs[..n]);
      assert inputs == inputs[..n] + [inputs[n]];
    }
  }

  /** What coming first means. */
  lemma BeforeMeans(a: Definition, b: Definition)
    ensures Before(a, b) <==>
              || |a.inputs| > |b.inputs|
              || (|a.inputs| == |b.inputs| && multiset(a.inputs)[Register] < multiset(b.inputs)[Register])
  {
    RegistersAreCounted(a.inputs);
    RegistersAreCounted(b.inputs);
  }

  method CountRegisters(inputs: seq<Input>) returns (n: nat)
    ensures n == Registers(inputs)
  {
    n := 0;
    for i := 0 to |inputs|
      invariant n == Registers(inputs[..i])
    {
      assert inputs[..i + 1][..i] == inputs[..i];
      if inputs[i].Register? {
        n := n + 1;
      }
    }
    assert inputs[..|inputs|] == inputs;
  }

  method ComparePattern(a: Definition, b: Definition) returns (before: bool)
    ensures before <==> Before(a, b)
    ensures before <==>
              || |a.inputs| > |b.inputs|
              || (|a.inputs| == |b.inputs| && multiset(a.inputs)[Register] < multiset(b.inputs)[Register])
  {
    BeforeMeans(a, b);
    if |a.inputs| != |b.inputs| {
      return |a.inputs| > |b.inputs|;
    }
    var regA := CountRegisters(a.inputs);
    var regB := CountRegisters(b.inputs);
    return regA < regB;
  }

  // No later definition has to come before an earlier one
  predicate Sorted(defs: seq<Definition>) {
    forall i, j :: 0 <= i < j < |defs| ==> !Before(defs[j], defs[i])
  }

  /** In a sorted list no definition has fewer inputs than a later one, nor, with as many,
      more registers. */
  lemma SortedMeans(defs: seq<Definition>)
    ensures Sorted(defs) <==>
            forall i, j :: 0 <= i < j < |defs| ==>
              && |defs[i].inputs| >= |defs[j].inputs|
              && (|defs[i].inputs| == |defs[j].inputs| ==>
                    multiset(defs[i].inputs)[Register] <= multiset(defs[j].inputs)[Register])
  {
    forall i, j | 0 <= i < j < |defs| {
      BeforeMeans(defs[j], defs[i]);
    }
  }

  /** The comparison orders definitions strictly, up to ties, as sorting with it needs. */
  lemma ComparesStrictly(a: Definition, b: Definition, c: Definition)
    ensures !Before(a, a)
    ensures Before(a, b) && Before(b, c) ==> Before(a, c)
    ensures !Before(a, b) && !Before(b, c) ==> !Before(a, c)
  {
  }

  // The definitions of one kind, in their order
  function OfKind(defs: seq<Definition>, kind: nat): seq<Definition> {
    if defs == [] then []
    else
      var last := defs[|defs| - 1];
      OfKind(defs[..|defs| - 1], kind) + if DagKind(last) == kind then [last] else []
  }

  function Concat(lists: seq<seq<Definition>>): seq<Definition> {
    if lists == [] then [] else Concat(lists[..|lists| - 1]) + lists[|lists| - 1]
  }

  // Sorting; where ties end up is not promised
  method Sort(defs: seq<Definition>) returns (sorted: seq<Definition>)
    ensures Sorted(sorted) && multiset(sorted) == multiset(defs)
  {
    sorted := [];
    for i := 0 to |defs|
      invariant Sorted(sorted) && multiset(sorted) == multiset(defs[..i])
    {
      assert defs[..i + 1] == defs[..i] + [defs[i]];
      sorted := Insert(sorted, defs[i]);
    }
    assert defs[..|defs|] == defs;
  }

  method Insert(sorted: seq<Definition>, x: Definition) returns (result: seq<Definition>)
    requires Sorted(sorted)
    ensures Sorted(result) && multiset(result) == multiset(sorted) + multiset{x}
  {
    var p := 0;
    while p < |sorted|
      invariant 0 <= p <= |sorted|
      invariant forall k :: 0 <= k < p ==> !Before(x, sorted[k])
    {
      var before := ComparePattern(x, sorted[p]);
      if before {
        break;
      }
      p := p + 1;
    }
    InsertedIsSorted(sorted, p, x);
    InsertedIsPermutation(sorted, p, x);
    result := sorted[..p] + [x] + sorted[p..];
  }

  lemma InsertedIsPermutation(sorted: seq<Definition>, p: nat, x: Definition)
    requires p <= |sorted|
    ensures multiset(sorted[..p] + [x] + sorted[p..]) == multiset(sorted) + multiset{x}
  {
    assert sorted == sorted[..p] + sorted[p..];
  }

  lemma InsertedIsSorted(sorted: seq<Definition>, p: nat, x: Definition)
    requires Sorted(sorted) && p <= |sorted|
    requires forall k :: 0 <= k < p ==> !Before(x, sorted[k])
    requires p < |sorted| ==> Before(x, sorted[p])
    ensures Sorted(sorted[..p] + [x] + sorted[p..])
  {
    forall j | p <= j < |sorted|
      ensures !Before(sorted[j], x)
    {
      ComparesStrictly(sorted[j], x, sorted[p]);
    }
  }

  // The list kept for a kind: its definitions, sorted
  predicate IsListFor(list: seq<Definition>, defs: seq<Definition>, kind: nat) {
    Sorted(list) && multiset(list) == multiset(OfKind(defs, kind))
  }

  // Puts every definition into the list of its kind
  method Fill(lists: array<seq<Definition>>, defs: seq<Definition>)
    requires forall kind :: 0 <= kind < lists.Length ==> lists[kind] == []
    requires forall i :: 0 <= i < |defs| ==> DagKind(defs[i]) < lists.Length
    modifies lists
    ensures forall kind :: 0 <= kind < lists.Length ==> lists[kind] == OfKind(defs, kind)
  {
    for i := 0 to |defs|
      invariant forall kind :: 0 <= kind < lists.Length ==> lists[kind] == OfKind(defs[..i], kind)
    {
      assert defs[..i + 1][..i] == defs[..i];
      var kind := DagKind(defs[i]);
      lists[kind] := lists[kind] + [defs[i]];
    }
    assert defs[..|defs|] == defs;
  }

  method SortAll(lists: array<seq<Definition>>, ghost defs: seq<Definition>)
    requires forall kind :: 0 <= kind < lists.Length ==> lists[kind] == OfKind(defs, kind)
    modifies lists
    ensures forall kind :: 0 <= kind < lists.Length ==> IsListFor(lists[kind], defs, kind)
  {
    for k := 0 to lists.Length
      invariant forall kind :: k <= kind < lists.Length ==> lists[kind] == OfKind(defs, kind)
      invariant forall kind :: 0 <= kind < k ==> IsListFor(lists[kind], defs, kind)
    {
      var sorted := Sort(lists[k]);
      lists[k] := sorted;
    }
  }

  class PatternProvider {
    const patterns: array<seq<Definition>>

    // The list of definitions for a kind of node
    function PatternsFor(kind: nat): seq<Definition>
      requires kind < patterns.Length
      reads patterns
    {
      patterns[kind]
    }

    constructor (defs: seq<Definition>, kinds: nat)
      requires forall i :: 0 <= i < |defs| ==> DagKind(defs[i]) < kinds
      ensures patterns.Length == kinds && fresh(patterns)
      ensures forall kind :: 0 <= kind < kinds ==> IsListFor(PatternsFor(kind), defs, kind)
      ensures multiset(Concat(patterns[..])) == multiset(defs)
      ensures forall kind, i, j :: 0 <= kind < kinds && 0 <= i < j < |patterns[kind]| ==>
                var (d, e) := (patterns[kind][i], patterns[kind][j]);
                && |d.inputs| >= |e.inputs|
                && (|d.inputs| == |e.inputs| ==> multiset(d.inputs)[Register] <= multiset(e.inputs)[Register])
    {
      patterns := new seq<Definition>[kinds](_ => []);
      new;
      Fill(patterns, defs);
      SortAll(patterns, defs);
      ListsPartition(defs, patterns[..]);
      forall kind | 0 <= kind < kinds {
        SortedMeans(patterns[kind]);
      }
    }
  }

  lemma {:induction false} OfKindCounts(defs: seq<Definition>, kind: nat, d: Definition)
    ensures multiset(OfKind(defs, kind))[d] == if DagKind(d) == kind then multiset(defs)[d] else 0
    decreases |defs|
  {
    if defs != [] {
      var n := |defs| - 1;
      OfKindCounts(defs[..n], kind, d);
      assert defs == defs[..n] + [defs[n]];
    }
  }

  lemma {:induction false} ConcatCounts(defs: seq<Definition>, lists: seq<seq<Definition>>, d: Definition)
    requires forall k :: 0 <= k < |lists| ==> multiset(lists[k]) == multiset(OfKind(defs, k))
    ensures multiset(Concat(lists))[d] == if DagKind(d) < |lists| then multiset(defs)[d] else 0
    decreases |lists|
  {
    if lists != [] {
      var n := |lists| - 1;
      ConcatCounts(defs, lists[..n], d);
      OfKindCounts(defs, n, d);
    }
  }

  lemma ConcatHasAll(defs: seq<Definition>, lists: seq<seq<Definition>>, d: Definition)
    requires forall i :: 0 <= i < |defs| ==> DagKind(defs[i]) < |lists|
    requires forall k :: 0 <= k < |lists| ==> multiset(lists[k]) == multiset(OfKind(defs, k))
    ensures multiset(Concat(lists))[d] == multiset(defs)[d]
  {
    ConcatCounts(defs, lists, d);
    if d in multiset(defs) {
      assert d in defs;
    }
  }

  /** The lists of all kinds together hold every definition once. */
  lemma ListsPartition(defs: seq<Definition>, lists: seq<seq<Definition>>)
    requires forall i :: 0 <= i < |defs| ==> DagKind(defs[i]) < |lists|
    requires forall k :: 0 <= k < |lists| ==> multiset(lists[k]) == multiset(OfKind(defs, k))
    ensures multiset(Concat(lists)) == multiset(defs)
  {
    forall d: Definition
      ensures multiset(Concat(lists))[d] == multiset(defs)[d]
    {
      ConcatHasAll(defs, lists, d);
    }
  }

  /** The list of a kind holds the definitions of that kind, as often as they are defined. */
  lemma ListIsOfKind(defs: seq<Definition>, kind: nat, list: seq<Definition>, d: Definition)
    requires IsListFor(list, defs, kind)
    ensures d in list <==> d in defs && DagKind(d) == kind
    ensures multiset(list)[d] == if DagKind(d) == kind then multiset(defs)[d] else 0
  {
    OfKindCounts(defs, kind, d);
    assert d in list <==> d in multiset(list);
    assert d in defs <==> d in multiset(defs);
  }
}
