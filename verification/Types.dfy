/** Types as objects, uniqued within a context.

    A type is immutable: what it is made of never changes.  Its ghost `shape` is the tree
    that the sub-type references unfold to. */
module Types {
  import opened Wrappers
  import opened Layout

  datatype Kind = VoidKind | LabelKind | PointerKind | IntegerKind | FunctionKind | ArrayKind | StructKind

  ghost function Shapes(types: seq<Type>): (shapes: seq<Shape>)
    ensures |shapes| == |types| && forall i :: 0 <= i < |types| ==> shapes[i] == types[i].shape
  {
    seq(|types|, i requires 0 <= i < |types| => types[i].shape)
  }

  // How many sub-types a type of some kind has
  predicate ArityMatches(kind: Kind, data: Word, n: nat) {
    match kind
    case FunctionKind => data == 0 && n > 0
    case ArrayKind => n == 1
    case StructKind => data == n
    case IntegerKind => n == 0
    case _ => data == 0 && n == 0
  }

  ghost function ShapeOf(kind: Kind, data: Word, subtypes: seq<Type>): Shape
    requires ArityMatches(kind, data, |subtypes|)
  {
    match kind
    case VoidKind => Void
    case LabelKind => Label
    case PointerKind => Pointer
    case IntegerKind => Integer(data)
    case FunctionKind => Function(Shapes(subtypes))
    case ArrayKind => Array(subtypes[0].shape, data)
    case StructKind => Struct(Shapes(subtypes))
  }

  class Type {
    const kind: Kind
    const data: Word
    const subtypes: seq<Type>
    ghost const shape: Shape

    constructor (kind: Kind, data: Word, subtypes: seq<Type>)
      requires ArityMatches(kind, data, |subtypes|) && forall i :: 0 <= i < |subtypes| ==> subtypes[i].Formed()
      ensures this.kind == kind && this.data == data && this.subtypes == subtypes && Formed()
    {
      this.kind, this.data, this.subtypes := kind, data, subtypes;
      this.shape := ShapeOf(kind, data, subtypes);
    }

    ghost predicate Formed()
      decreases shape
    {
      && ArityMatches(kind, data, |subtypes|) && shape == ShapeOf(kind, data, subtypes)
      && forall i :: 0 <= i < |subtypes| ==> SubShape(i) && subtypes[i].Formed()
    }

    ghost predicate SubShape(i: nat)
      requires i < |subtypes|
    {
      shape decreases to subtypes[i].shape
    }

    predicate IsSizeBounded()
      requires Formed()
      ensures IsSizeBounded() <==> Layout.IsSizeBounded(shape)
    {
      kind.PointerKind? || kind.IntegerKind? || kind.StructKind? || (kind.ArrayKind? && data != 0)
    }

    // None when an assertion fails
    method SizeInBits() returns (size: Option<Word>)
      requires Formed()
      ensures size == Size(shape)
      ensures kind.PointerKind? ==> size == Some(64)
      ensures kind.IntegerKind? ==> size == Some(data)
      ensures kind.VoidKind? || kind.LabelKind? || kind.FunctionKind? || (kind.ArrayKind? && data == 0) ==> size == None
      decreases shape, 1
    {
      match kind
      case PointerKind =>
        return Some(POINTER_BITS);
      case IntegerKind =>
        return Some(data);
      case ArrayKind =>
        if !IsSizeBounded() {
          return None;
        }
        assert SubShape(0);
        var element := subtypes[0].SizeInBits();
        return match element case None => None case Some(n) => Some(data * n % WORD);
      case StructKind =>
        size := SumOfSizes(|subtypes|);
      case _ =>
        return None;
    }

    // The sum of the sizes of the first elements, which is the offset of the next one
    method SumOfSizes(index: nat) returns (sum: Option<Word>)
      requires Formed() && kind.StructKind? && index <= |subtypes|
      ensures sum == SizeTo(shape.elements, index)
      decreases shape, 0
    {
      var total: Word := 0;
      ghost var elements := shape.elements;
      for i := 0 to index
        invariant SizeTo(elements, i) == Some(total)
      {
        assert SubShape(i) && subtypes[i].shape == elements[i];
        var size := subtypes[i].SizeInBits();
        if size.None? {
          SumStaysUndefined(elements, i, index);
          return None;
        }
        total := (total + size.value) % WORD;
      }
      return Some(total);
    }

    // The type an access path leads to; None for an index that has no meaning
    method IndexedType(indices: seq<nat>) returns (result: Option<Type>)
      requires Formed()
      ensures result.Some? <==> Walks(shape, indices)
      ensures result.Some? ==> result.value.Formed() && result.value.shape == At(shape, indices)
    {
      var subTy := this;
      for i := 0 to |indices|
        invariant subTy.Formed() && (Walks(shape, indices) <==> Walks(subTy.shape, indices[i..]))
        invariant Walks(shape, indices) ==> At(shape, indices) == At(subTy.shape, indices[i..])
      {
        assert indices[i..][1..] == indices[i + 1..];
        if subTy.kind.StructKind? {
          if indices[i] >= |subTy.subtypes| {
            return None;
          }
          subTy := subTy.subtypes[indices[i]];
        } else if subTy.kind.ArrayKind? {
          subTy := subTy.subtypes[0];
        } else {
          return None;
        }
      }
      return Some(subTy);
    }
  }

  // An element without a size leaves all further sums undefined
  lemma {:induction false} SumStaysUndefined(elements: seq<Shape>, i: nat, n: nat)
    requires i < n <= |elements| && Size(elements[i]) == None
    ensures SizeTo(elements, n) == None
    decreases n
  {
    if i + 1 < n {
      SumStaysUndefined(elements, i, n - 1);
    }
  }

  /* ---------------------------------------------------------------------- */
  // The context
  /* ---------------------------------------------------------------------- */

  ghost predicate SameMake(t: Type, data: Word, subtypes: seq<Type>) {
    t.data == data && t.subtypes == subtypes
  }

  ghost predicate Known(types: seq<Type>, all: set<Type>) {
    forall i :: 0 <= i < |types| ==> types[i] in all
  }

  // A table holds types of one kind, no two of them made of the same
  ghost predicate Table(types: seq<Type>, kind: Kind, all: set<Type>) {
    && (forall i :: 0 <= i < |types| ==>
          types[i].kind == kind && types[i].Formed() && Known(types[i].subtypes, all))
    && (forall i, j :: 0 <= i < j < |types| ==> !SameMake(types[i], types[j].data, types[j].subtypes))
  }

  ghost predicate Absent(types: seq<Type>, data: Word, subtypes: seq<Type>) {
    forall i :: 0 <= i < |types| ==> !SameMake(types[i], data, subtypes)
  }

  ghost function Members(types: seq<Type>): set<Type> {
    set i | 0 <= i < |types| :: types[i]
  }

  lemma MembersGrow(types: seq<Type>, t: Type)
    ensures Members(types + [t]) == Members(types) + {t}
  {
    assert forall i :: 0 <= i < |types| ==> (types + [t])[i] == types[i];
    assert (types + [t])[|types|] == t;
  }

  lemma TableStays(types: seq<Type>, kind: Kind, all: set<Type>, more: set<Type>)
    requires Table(types, kind, all) && all <= more
    ensures Table(types, kind, more)
  {
  }

  lemma TableGrows(types: seq<Type>, kind: Kind, all: set<Type>, t: Type)
    requires Table(types, kind, all) && t.kind == kind && t.Formed() && Known(t.subtypes, all)
    requires Absent(types, t.data, t.subtypes)
    ensures Table(types + [t], kind, all + {t})
  {
    TableStays(types, kind, all, all + {t});
  }

  // What a context holds
  datatype Tables = Tables(
    pointerType: Type, voidType: Type, labelType: Type,
    integers: seq<Type>, functions: seq<Type>, arrays: seq<Type>, structs: seq<Type>)
  {
    ghost function All(): set<Type> {
      {pointerType, voidType, labelType} + Members(integers) + Members(functions) + Members(arrays) + Members(structs)
    }

    ghost predicate Valid() {
      && pointerType.kind == PointerKind && pointerType.Formed()
      && voidType.kind == VoidKind && voidType.Formed()
      && labelType.kind == LabelKind && labelType.Formed()
      && Table(integers, IntegerKind, All()) && Table(functions, FunctionKind, All())
      && Table(arrays, ArrayKind, All()) && Table(structs, StructKind, All())
      && (forall i, j :: 0 <= i < |structs| && 0 <= j < |structs[i].subtypes| ==> CanBeElement(structs[i].subtypes[j]))
    }

    // The tables with a new type
    ghost function With(t: Type): Tables {
      match t.kind
      case IntegerKind => this.(integers := integers + [t])
      case FunctionKind => this.(functions := functions + [t])
      case ArrayKind => this.(arrays := arrays + [t])
      case StructKind => this.(structs := structs + [t])
      case _ => this
    }

    // The table that holds the types of some kind
    ghost function Of(kind: Kind): seq<Type> {
      match kind
      case IntegerKind => integers
      case FunctionKind => functions
      case ArrayKind => arrays
      case StructKind => structs
      case _ => []
    }
  }

  lemma AllFormed(tables: Tables)
    requires tables.Valid()
    ensures forall t :: t in tables.All() ==> t.Formed() && Known(t.subtypes, tables.All())
  {
  }

  lemma KnownIsFormed(tables: Tables, t: Type)
    requires tables.Valid() && t in tables.All()
    ensures t.Formed() && Known(t.subtypes, tables.All())
  {
  }

  lemma WithGrows(tables: Tables, t: Type)
    requires t.kind.IntegerKind? || t.kind.FunctionKind? || t.kind.ArrayKind? || t.kind.StructKind?
    ensures tables.With(t).All() == tables.All() + {t}
  {
    MembersGrow(tables.Of(t.kind), t);
  }

  lemma WithIsValid(tables: Tables, t: Type)
    requires tables.Valid() && t.Formed() && Known(t.subtypes, tables.All())
    requires t.kind.IntegerKind? || t.kind.FunctionKind? || t.kind.ArrayKind? || t.kind.StructKind?
    requires Absent(tables.Of(t.kind), t.data, t.subtypes)
    requires t.kind.StructKind? ==> forall j :: 0 <= j < |t.subtypes| ==> CanBeElement(t.subtypes[j])
    ensures tables.With(t).Valid() && t in tables.With(t).All()
  {
    WithGrows(tables, t);
    var all := tables.All();
    TableGrows(tables.Of(t.kind), t.kind, all, t);
    TableStays(tables.integers, IntegerKind, all, all + {t});
    TableStays(tables.functions, FunctionKind, all, all + {t});
    TableStays(tables.arrays, ArrayKind, all, all + {t});
    TableStays(tables.structs, StructKind, all, all + {t});
  }

  class Context {
    const pointerType: Type
    const voidType: Type
    const labelType: Type
    var integerTypes: seq<Type>
    var functionTypes: seq<Type>
    var arrayTypes: seq<Type>
    var structTypes: seq<Type>

    ghost function Contents(): Tables
      reads this
    {
      Tables(pointerType, voidType, labelType, integerTypes, functionTypes, arrayTypes, structTypes)
    }

    ghost predicate Valid()
      reads this
    {
      Contents().Valid()
    }

    ghost function All(): set<Type>
      reads this
    {
      Contents().All()
    }

    constructor ()
      ensures Valid() && All() == {pointerType, voidType, labelType}
    {
      pointerType := new Type(PointerKind, 0, []);
      voidType := new Type(VoidKind, 0, []);
      labelType := new Type(LabelKind, 0, []);
      integerTypes, functionTypes, arrayTypes, structTypes := [], [], [], [];
    }

    method GetInteger(bitwidth: Word) returns (t: Type)
      requires Valid()
      modifies this`integerTypes
      ensures Valid() && t in All() && t.shape == Integer(bitwidth)
      ensures if Absent(old(integerTypes), bitwidth, []) then fresh(t) && integerTypes == old(integerTypes) + [t]
              else t in old(integerTypes) && integerTypes == old(integerTypes)
    {
      var found := FindInteger(integerTypes, bitwidth);
      if found.Some? {
        return found.value;
      }
      t := new Type(IntegerKind, bitwidth, []);
      ghost var tables := Contents();
      WithIsValid(tables, t);
      integerTypes := integerTypes + [t];
      assert Contents() == tables.With(t);
    }

    method GetArray(elementType: Type, numElements: Word) returns (t: Type)
      requires Valid() && elementType in All()
      modifies this`arrayTypes
      ensures Valid() && t in All() && t.subtypes == [elementType] && t.shape == Array(elementType.shape, numElements)
      ensures if Absent(old(arrayTypes), numElements, [elementType]) then
                fresh(t) && arrayTypes == old(arrayTypes) + [t]
              else t in old(arrayTypes) && arrayTypes == old(arrayTypes)
    {
      AllFormed(Contents());
      var found := FindArray(arrayTypes, elementType, numElements);
      if found.Some? {
        return found.value;
      }
      t := new Type(ArrayKind, numElements, [elementType]);
      ghost var tables := Contents();
      WithIsValid(tables, t);
      arrayTypes := arrayTypes + [t];
      assert Contents() == tables.With(t);
    }

    method GetFunction(returnTy: Type, types: seq<Type>) returns (t: Type)
      requires Valid() && returnTy in All() && Known(types, All()) && |types| + 1 < WORD
      modifies this`functionTypes
      ensures Valid() && t in All() && t.subtypes == [returnTy] + types
      ensures t.shape == Function([returnTy.shape] + Shapes(types))
      ensures if Absent(old(functionTypes), 0, [returnTy] + types) then
                fresh(t) && functionTypes == old(functionTypes) + [t]
              else t in old(functionTypes) && functionTypes == old(functionTypes)
    {
      AllFormed(Contents());
      ShapesOfPair(returnTy, types);
      var found := FindFunction(functionTypes, returnTy, types);
      if found.Some? {
        return found.value;
      }
      t := new Type(FunctionKind, 0, [returnTy] + types);
      ghost var tables := Contents();
      WithIsValid(tables, t);
      functionTypes := functionTypes + [t];
      assert Contents() == tables.With(t);
    }

    // None when an element is null, or an array of unknown length
    method GetStruct(elementTypes: seq<Type?>) returns (t: Option<Type>)
      requires Valid() && |elementTypes| < WORD
      requires forall i :: 0 <= i < |elementTypes| && elementTypes[i] != null ==> elementTypes[i] in All()
      modifies this`structTypes
      ensures Valid()
      ensures t.None? <==> exists i :: 0 <= i < |elementTypes| && !CanBeElement(elementTypes[i])
      ensures t.None? ==> structTypes == old(structTypes)
      ensures t.Some? ==>
                && t.value in All() && t.value.subtypes == elementTypes
                && t.value.shape == Struct(Shapes(t.value.subtypes))
                && if Absent(old(structTypes), |elementTypes|, t.value.subtypes) then
                     fresh(t.value) && structTypes == old(structTypes) + [t.value]
                   else t.value in old(structTypes) && structTypes == old(structTypes)
    {
      AllFormed(Contents());
      var elements := CheckElements(elementTypes);
      if elements.None? {
        return None;
      }
      var found := FindStruct(structTypes, elements.value);
      if found.Some? {
        return found;
      }
      var type_ := new Type(StructKind, |elementTypes|, elements.value);
      ghost var tables := Contents();
      WithIsValid(tables, type_);
      structTypes := structTypes + [type_];
      assert Contents() == tables.With(type_);
      return Some(type_);
    }
  }

  // What may be an element of a struct
  predicate CanBeElement(t: Type?) {
    t != null && (t.kind.ArrayKind? ==> t.data != 0)
  }

  method CheckElements(elementTypes: seq<Type?>) returns (elements: Option<seq<Type>>)
    ensures elements.Some? <==> forall i :: 0 <= i < |elementTypes| ==> CanBeElement(elementTypes[i])
    ensures elements.Some? ==> elements.value == elementTypes
  {
    var checked: seq<Type> := [];
    for i := 0 to |elementTypes|
      invariant forall k :: 0 <= k < i ==> CanBeElement(elementTypes[k])
      invariant checked == elementTypes[..i]
    {
      var ty := elementTypes[i];
      if ty == null {
        return None;
      }
      if ty.kind.ArrayKind? && ty.data == 0 {
        return None;
      }
      checked := checked + [ty];
    }
    return Some(checked);
  }

  // Compares the stored types from some position on with a list
  method SameTypes(stored: seq<Type>, from: nat, types: seq<Type>) returns (same: bool)
    requires |stored| == from + |types|
    ensures same <==> stored[from..] == types
  {
    same := true;
    var i := from;
    for k := 0 to |types|
      invariant i == from + k
      invariant same <==> stored[from..i] == types[..k]
    {
      assert stored[from..i + 1] == stored[from..i] + [stored[i]] && types[..k + 1] == types[..k] + [types[k]];
      if stored[i] != types[k] {
        same := false;
      }
      i := i + 1;
    }
    assert types[..|types|] == types && stored[from..i] == stored[from..];
  }

  lemma ShapesOfPair(first: Type, rest: seq<Type>)
    ensures Shapes([first] + rest) == [first.shape] + Shapes(rest)
  {
  }

  method FindInteger(integerTypes: seq<Type>, bitwidth: Word) returns (found: Option<Type>)
    requires forall i :: 0 <= i < |integerTypes| ==> integerTypes[i].subtypes == []
    ensures found.None? <==> Absent(integerTypes, bitwidth, [])
    ensures found.Some? ==> found.value in integerTypes && SameMake(found.value, bitwidth, [])
  {
    for i := 0 to |integerTypes|
      invariant forall k :: 0 <= k < i ==> !SameMake(integerTypes[k], bitwidth, [])
    {
      if integerTypes[i].data == bitwidth {
        assert SameMake(integerTypes[i], bitwidth, []);
        return Some(integerTypes[i]);
      }
    }
    return None;
  }

  method FindArray(arrayTypes: seq<Type>, elementType: Type, numElements: Word) returns (found: Option<Type>)
    ensures found.None? <==> Absent(arrayTypes, numElements, [elementType])
    ensures found.Some? ==> found.value in arrayTypes && SameMake(found.value, numElements, [elementType])
  {
    for i := 0 to |arrayTypes|
      invariant forall k :: 0 <= k < i ==> !SameMake(arrayTypes[k], numElements, [elementType])
    {
      var subtypes := arrayTypes[i].subtypes;
      if |subtypes| == 1 && subtypes[0] == elementType && arrayTypes[i].data == numElements {
        assert SameMake(arrayTypes[i], numElements, [elementType]);
        return Some(arrayTypes[i]);
      }
    }
    return None;
  }

  method FindFunction(functionTypes: seq<Type>, returnTy: Type, types: seq<Type>) returns (found: Option<Type>)
    requires forall i :: 0 <= i < |functionTypes| ==>
               functionTypes[i].data == 0 && |functionTypes[i].subtypes| > 0
    ensures found.None? <==> Absent(functionTypes, 0, [returnTy] + types)
    ensures found.Some? ==> found.value in functionTypes && SameMake(found.value, 0, [returnTy] + types)
  {
    for i := 0 to |functionTypes|
      invariant forall k :: 0 <= k < i ==> !SameMake(functionTypes[k], 0, [returnTy] + types)
    {
      var stored := functionTypes[i].subtypes;
      if |stored| == 1 + |types| {
        var typesEqual := returnTy == stored[0];
        var rest := SameTypes(stored, 1, types);
        assert stored == [stored[0]] + stored[1..];
        assert ([returnTy] + types)[1..] == types;
        if typesEqual && rest {
          assert SameMake(functionTypes[i], 0, [returnTy] + types);
          return Some(functionTypes[i]);
        }
      }
    }
    return None;
  }

  method FindStruct(structTypes: seq<Type>, elements: seq<Type>) returns (found: Option<Type>)
    requires |elements| < WORD
    requires forall i :: 0 <= i < |structTypes| ==> structTypes[i].data == |structTypes[i].subtypes|
    ensures found.None? <==> Absent(structTypes, |elements|, elements)
    ensures found.Some? ==> found.value in structTypes && SameMake(found.value, |elements|, elements)
  {
    for i := 0 to |structTypes|
      invariant forall k :: 0 <= k < i ==> !SameMake(structTypes[k], |elements|, elements)
    {
      var stored := structTypes[i].subtypes;
      if |stored| == |elements| {
        var typesEqual := SameTypes(stored, 0, elements);
        assert stored[0..] == stored;
        if typesEqual {
          assert SameMake(structTypes[i], |elements|, elements);
          return Some(structTypes[i]);
        }
      }
    }
    return None;
  }

  /* ---------------------------------------------------------------------- */
  // A struct without a size
  /* ---------------------------------------------------------------------- */

  // An array of three arrays of unknown length
  method UnsizedElement(ctx: Context) returns (element: Type)
    requires ctx.Valid()
    modifies ctx
    ensures ctx.Valid() && element in ctx.All() && element.Formed()
    ensures element.shape == Array(Array(Integer(8), 0), 3)
  {
    var byte := ctx.GetInteger(8);
    var unknown := ctx.GetArray(byte, 0);
    element := ctx.GetArray(unknown, 3);
    KnownIsFormed(ctx.Contents(), element);
  }

  /** A context accepts an element that counts as bounded and has no size: an array of known
      length whose elements are arrays of unknown length. */
  method AcceptsUnsizedElement(ctx: Context) returns (s: Option<Type>, size: Option<Word>)
    requires ctx.Valid()
    modifies ctx
    ensures ctx.Valid() && s.Some? && s.value.Formed() && size == None
    ensures s.value.shape == Struct([Array(Array(Integer(8), 0), 3)]) && IsSizeBounded(s.value.shape.elements[0])
  {
    var element := UnsizedElement(ctx);
    BoundedCanBeElement(element);
    s := ctx.GetStruct([element]);
    KnownIsFormed(ctx.Contents(), s.value);
    assert Shapes([element]) == [element.shape];
    UnsizedStruct(s.value.shape);
    size := s.value.SizeInBits();
  }

  lemma BoundedCanBeElement(t: Type)
    requires t.Formed() && IsSizeBounded(t.shape)
    ensures CanBeElement(t)
  {
  }

  lemma UnsizedStruct(s: Shape)
    requires s == Struct([Array(Array(Integer(8), 0), 3)])
    ensures Size(s) == None
  {
    assert !Sized(s.elements[0]);
    SizeIsExactModulo(s);
  }

  /* ---------------------------------------------------------------------- */
  // Uniqueness
  /* ---------------------------------------------------------------------- */

  lemma SameEntry(types: seq<Type>, kind: Kind, all: set<Type>, t: Type, u: Type)
    requires Table(types, kind, all) && t in types && u in types && SameMake(t, u.data, u.subtypes)
    ensures t == u
  {
    var i :| 0 <= i < |types| && types[i] == t;
    var j :| 0 <= j < |types| && types[j] == u;
  }

  // Types made of the same parts are the same
  lemma SameMakeIsSame(tables: Tables, t: Type, u: Type)
    requires tables.Valid() && t in tables.All() && u in tables.All()
    requires t.kind == u.kind && SameMake(t, u.data, u.subtypes)
    ensures t == u
  {
    var kind := t.kind;
    if kind.VoidKind? || kind.LabelKind? || kind.PointerKind? {
    } else {
      SameEntry(tables.Of(kind), kind, tables.All(), t, u);
    }
  }

  // Types of one shape are made of the same parts, given this for smaller shapes
  lemma {:induction false} SameParts(tables: Tables, ts: seq<Type>, us: seq<Type>)
    requires tables.Valid() && Known(ts, tables.All()) && Known(us, tables.All()) && Shapes(ts) == Shapes(us)
    ensures ts == us
    decreases Shapes(ts), 0
  {
    forall i | 0 <= i < |ts|
      ensures ts[i] == us[i]
    {
      assert Shapes(ts)[i] == Shapes(us)[i];
      SameShapeIsSame(tables, ts[i], us[i]);
    }
  }

  /** Two types of a context have the same recursive structure exactly when they are the
      same object. */
  lemma {:induction false} SameShapeIsSame(tables: Tables, t: Type, u: Type)
    requires tables.Valid() && t in tables.All() && u in tables.All()
    ensures t.shape == u.shape <==> t == u
    decreases t.shape, 1
  {
    KnownIsFormed(tables, t);
    KnownIsFormed(tables, u);
    if t.shape == u.shape {
      SameShapeSameMake(t, u);
      if t.kind.FunctionKind? || t.kind.StructKind? {
        SameParts(tables, t.subtypes, u.subtypes);
      } else if t.kind.ArrayKind? {
        SameShapeIsSame(tables, t.subtypes[0], u.subtypes[0]);
      }
      SameMakeIsSame(tables, t, u);
    }
  }

  lemma SameShapeSameMake(t: Type, u: Type)
    requires t.Formed() && u.Formed() && t.shape == u.shape
    ensures t.kind == u.kind && t.data == u.data && |t.subtypes| == |u.subtypes|
    ensures t.kind.FunctionKind? || t.kind.StructKind? ==>
              Shapes(t.subtypes) == Shapes(u.subtypes) && (t.shape decreases to Shapes(t.subtypes))
    ensures t.kind.ArrayKind? ==>
              && t.subtypes[0].shape == u.subtypes[0].shape && (t.shape decreases to t.subtypes[0].shape)
              && (t.subtypes[0] == u.subtypes[0] ==> t.subtypes == u.subtypes)
    ensures !t.kind.FunctionKind? && !t.kind.StructKind? && !t.kind.ArrayKind? ==> t.subtypes == u.subtypes
  {
  }
}
