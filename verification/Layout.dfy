/** Sizes and offsets of types, as computed in 32 bits and as they really are.

    A type is seen here as its recursive structure.  Sizes are in bits. */
module Layout {
  import opened Wrappers

  const WORD := 0x1_0000_0000
  const POINTER_WORD := 0x1_0000_0000_0000_0000
  const POINTER_BITS: Word := 64

  type Word = x: int | 0 <= x < WORD

  datatype Shape =
    | Void
    | Label
    | Pointer
    | Integer(bits: Word)
    | Function(types: seq<Shape>)
    | Array(element: Shape, length: Word)
    | Struct(elements: seq<Shape>)

  /* ---------------------------------------------------------------------- */
  // Sizes
  /* ---------------------------------------------------------------------- */

  predicate IsSizeBounded(s: Shape) {
    s.Pointer? || s.Integer? || s.Struct? || (s.Array? && s.length != 0)
  }

  // The size as 32-bit arithmetic gives it; None when an assertion fails
  function Size(s: Shape): Option<Word>
    decreases s, 0
  {
    match s
    case Pointer => Some(POINTER_BITS)
    case Integer(bits) => Some(bits)
    case Array(element, length) =>
      if length == 0 then None
      else
        (match Size(element)
         case None => None
         case Some(n) => Some(length * n % WORD))
    case Struct(elements) => SizeTo(elements, |elements|)
    case _ => None
  }

  // The sum of the first `i` sizes, which is the offset of element `i`
  function SizeTo(elements: seq<Shape>, i: nat): Option<Word>
    requires i <= |elements|
    decreases elements, i
  {
    if i == 0 then Some(0)
    else
      match (SizeTo(elements, i - 1), Size(elements[i - 1]))
      case (Some(sum), Some(n)) => Some((sum + n) % WORD)
      case _ => None
  }

  // Whether a type has a size at all
  predicate Sized(s: Shape)
    decreases s
  {
    match s
    case Pointer => true
    case Integer(_) => true
    case Array(element, length) => length != 0 && Sized(element)
    case Struct(elements) => forall i :: 0 <= i < |elements| ==> Sized(elements[i])
    case _ => false
  }

  // The size in unbounded arithmetic
  function Exact(s: Shape): nat
    decreases s, 0
  {
    match s
    case Pointer => POINTER_BITS
    case Integer(bits) => bits
    case Array(element, length) => length * Exact(element)
    case Struct(elements) => ExactTo(elements, |elements|)
    case _ => 0
  }

  function ExactTo(elements: seq<Shape>, i: nat): nat
    requires i <= |elements|
    decreases elements, i
  {
    if i == 0 then 0 else ExactTo(elements, i - 1) + Exact(elements[i - 1])
  }

  /** The leaves have the sizes they are made with, a struct the sizes of its elements, and an
      array its length times the size of its element. */
  lemma ExactMeans(s: Shape, more: Shape)
    ensures Exact(Pointer) == 64 && (s.Integer? ==> Exact(s) == s.bits)
    ensures s.Array? ==> Exact(s) == s.length * Exact(s.element)
    ensures Exact(Struct([])) == 0
    ensures s.Struct? ==> Exact(Struct(s.elements + [more])) == Exact(s) + Exact(more)
  {
    if s.Struct? {
      var elements := s.elements + [more];
      ExactToPrefix(s.elements, elements, |s.elements|);
      assert elements[|s.elements|] == more;
    }
  }

  lemma {:induction false} ExactToPrefix(a: seq<Shape>, b: seq<Shape>, i: nat)
    requires i <= |a| <= |b| && a == b[..|a|]
    ensures ExactTo(a, i) == ExactTo(b, i)
    decreases i
  {
    if i > 0 {
      ExactToPrefix(a, b, i - 1);
      assert a[i - 1] == b[..|a|][i - 1];
    }
  }

  lemma MultiplyModulo(a: nat, b: nat)
    ensures a * (b % WORD) % WORD == a * b % WORD
  {
    var q := b / WORD;
    assert b == q * WORD + b % WORD;
    assert a * b == a * (b % WORD) + (a * q) * WORD;
    AddMultiple(a * (b % WORD), a * q);
  }

  lemma AddMultiple(x: nat, q: nat)
    ensures (x + q * WORD) % WORD == x % WORD
  {
  }

  /** The 32-bit size of a type is its real size modulo 2^32, and it exists exactly when
      every type inside has a size. */
  lemma {:induction false} SizeIsExactModulo(s: Shape)
    ensures Size(s).Some? <==> Sized(s)
    ensures Sized(s) ==> Size(s).value == Exact(s) % WORD
    decreases s, 0
  {
    match s
    case Array(element, length) =>
      SizeIsExactModulo(element);
      if Sized(s) {
        MultiplyModulo(length, Exact(element));
      }
    case Struct(elements) => OffsetIsExactModulo(elements, |elements|);
    case _ =>
  }

  /** So is the 32-bit offset of an element. */
  lemma {:induction false} OffsetIsExactModulo(elements: seq<Shape>, i: nat)
    requires i <= |elements|
    ensures SizeTo(elements, i).Some? <==> forall k :: 0 <= k < i ==> Sized(elements[k])
    ensures SizeTo(elements, i).Some? ==> SizeTo(elements, i).value == ExactTo(elements, i) % WORD
    decreases elements, i
  {
    if i > 0 {
      OffsetIsExactModulo(elements, i - 1);
      SizeIsExactModulo(elements[i - 1]);
      AddModulo(ExactTo(elements, i - 1), Exact(elements[i - 1]));
    }
  }

  lemma AddModulo(a: nat, b: nat)
    ensures (a % WORD + b % WORD) % WORD == (a + b) % WORD
  {
  }

  lemma {:induction false} ExactToGrows(elements: seq<Shape>, i: nat, j: nat)
    requires i <= j <= |elements|
    ensures ExactTo(elements, i) <= ExactTo(elements, j)
    ensures i < j ==> ExactTo(elements, i) + Exact(elements[i]) <= ExactTo(elements, j)
    decreases j
  {
    if i < j {
      ExactToGrows(elements, i, j - 1);
    }
  }

  lemma NoWrapInWord(size: nat)
    requires size < WORD
    ensures size % WORD == size
  {
  }

  /** All 32-bit offsets of a struct are exact, its size included, exactly when the exact
      size fits in 32 bits. */
  lemma OffsetsAreExactIff(elements: seq<Shape>)
    requires Sized(Struct(elements))
    ensures (forall i {:trigger SizeTo(elements, i)} :: 0 <= i <= |elements| ==>
               SizeTo(elements, i) == Some(ExactTo(elements, i))) <==>
            Exact(Struct(elements)) < WORD
  {
    OffsetIsExactModulo(elements, |elements|);
    if Exact(Struct(elements)) < WORD {
      forall i | 0 <= i <= |elements|
        ensures SizeTo(elements, i) == Some(ExactTo(elements, i))
      {
        OffsetIsExactModulo(elements, i);
        ExactToGrows(elements, i, |elements|);
        NoWrapInWord(ExactTo(elements, i));
      }
    } else {
      assert SizeTo(elements, |elements|).value < WORD;
    }
  }

  /* ---------------------------------------------------------------------- */
  // Access paths
  /* ---------------------------------------------------------------------- */

  // One index for each struct or array entered
  type Path = seq<nat>

  // Only struct indices have to be in range: arrays of unknown length have length 0
  predicate Walks(s: Shape, p: Path)
    decreases p
  {
    p == [] ||
    match s
    case Struct(elements) => p[0] < |elements| && Walks(elements[p[0]], p[1..])
    case Array(element, _) => Walks(element, p[1..])
    case _ => false
  }

  predicate InBounds(s: Shape, p: Path)
    decreases p
  {
    p == [] ||
    match s
    case Struct(elements) => p[0] < |elements| && InBounds(elements[p[0]], p[1..])
    case Array(element, length) => p[0] < length && InBounds(element, p[1..])
    case _ => false
  }

  function At(s: Shape, p: Path): Shape
    requires Walks(s, p)
    decreases p
  {
    if p == [] then s
    else
      match s
      case Struct(elements) => At(elements[p[0]], p[1..])
      case Array(element, _) => At(element, p[1..])
  }

  function Offset(s: Shape, p: Path): nat
    requires Walks(s, p)
    decreases p
  {
    if p == [] then 0
    else
      match s
      case Struct(elements) => ExactTo(elements, p[0]) + Offset(elements[p[0]], p[1..])
      case Array(element, _) => p[0] * Exact(element) + Offset(element, p[1..])
  }

  /** The address computed for a path: 32-bit offsets and sizes, which are in bits, added to
      a pointer, which is in bytes. */
  function Address(base: nat, s: Shape, p: Path): Option<nat>
    requires Walks(s, p)
    decreases p
  {
    if p == [] then Some(base % POINTER_WORD)
    else
      match s
      case Struct(elements) =>
        (match SizeTo(elements, p[0])
         case None => None
         case Some(offset) => Address((base + offset) % POINTER_WORD, elements[p[0]], p[1..]))
      case Array(element, _) =>
        (match Size(element)
         case None => None
         case Some(size) => Address((base + p[0] * size % POINTER_WORD) % POINTER_WORD, element, p[1..]))
  }

  // What the steps add up to before the pointer wraps
  function Computed(s: Shape, p: Path): nat
    requires Walks(s, p)
    decreases p
  {
    if p == [] then 0
    else
      match s
      case Struct(elements) => ExactTo(elements, p[0]) % WORD + Computed(elements[p[0]], p[1..])
      case Array(element, _) => p[0] * (Exact(element) % WORD) + Computed(element, p[1..])
  }

  // No step meets a number that does not fit in 32 bits
  predicate Fits(s: Shape, p: Path)
    requires Walks(s, p)
    decreases p
  {
    p == [] ||
    match s
    case Struct(elements) => ExactTo(elements, p[0]) < WORD && Fits(elements[p[0]], p[1..])
    case Array(element, _) => (p[0] == 0 || Exact(element) < WORD) && Fits(element, p[1..])
  }

  lemma {:induction false} AddressIsComputed(base: nat, s: Shape, p: Path)
    requires Walks(s, p) && Sized(s)
    ensures Address(base, s, p) == Some((base + Computed(s, p)) % POINTER_WORD)
    decreases p
  {
    if p != [] {
      match s
      case Struct(elements) =>
        OffsetIsExactModulo(elements, p[0]);
        var offset := ExactTo(elements, p[0]) % WORD;
        AddressIsComputed((base + offset) % POINTER_WORD, elements[p[0]], p[1..]);
        AddOnce(base, offset, Computed(elements[p[0]], p[1..]));
      case Array(element, _) =>
        SizeIsExactModulo(element);
        var step := p[0] * (Exact(element) % WORD);
        AddressIsComputed((base + step % POINTER_WORD) % POINTER_WORD, element, p[1..]);
        AddTwice(base, step, Computed(element, p[1..]));
    }
  }

  lemma AddOnce(a: nat, b: nat, c: nat)
    ensures ((a + b) % POINTER_WORD + c) % POINTER_WORD == (a + (b + c)) % POINTER_WORD
  {
  }

  lemma AddTwice(a: nat, b: nat, c: nat)
    ensures ((a + b % POINTER_WORD) % POINTER_WORD + c) % POINTER_WORD == (a + (b + c)) % POINTER_WORD
  {
  }

  /** What is added along a path is the exact number of bits before its end exactly when no
      step overflows: two overflows never cancel out. */
  lemma {:induction false} ComputedIsExactIff(s: Shape, p: Path)
    requires Walks(s, p)
    ensures Computed(s, p) <= Offset(s, p)
    ensures Computed(s, p) == Offset(s, p) <==> Fits(s, p)
    decreases p
  {
    if p != [] {
      match s
      case Struct(elements) => ComputedIsExactIff(elements[p[0]], p[1..]);
      case Array(element, _) =>
        ComputedIsExactIff(element, p[1..]);
        MultiplyLess(p[0], Exact(element) % WORD, Exact(element));
    }
  }

  lemma MultiplyLess(k: nat, a: nat, b: nat)
    requires a <= b
    ensures k * a <= k * b
    ensures k * a == k * b <==> k == 0 || a == b
  {
    assert k * b == k * a + k * (b - a);
    if k != 0 && a != b {
      assert k * (b - a) > 0;
    }
  }

  lemma ScaledModulo(k: nat, a: nat, b: nat)
    ensures (k * (a % WORD) + b) % WORD == (k * a + b) % WORD
  {
    MultiplyModulo(k, a);
    AddModulo(k * (a % WORD), b);
    AddModulo(k * a, b);
  }

  lemma AddedModulo(a: nat, b: nat, c: nat)
    requires b % WORD == c % WORD
    ensures (a + b) % WORD == (a + c) % WORD && (a % WORD + b) % WORD == (a + c) % WORD
  {
    AddModulo(a, b);
    AddModulo(a, c);
    AddModulo(a % WORD, b);
  }

  /** What is added along a path is in any case that number of bits modulo 2^32. */
  lemma {:induction false} ComputedIsExactModulo(s: Shape, p: Path)
    requires Walks(s, p)
    ensures Computed(s, p) % WORD == Offset(s, p) % WORD
    decreases p
  {
    if p != [] {
      match s
      case Struct(elements) =>
        ComputedIsExactModulo(elements[p[0]], p[1..]);
        AddedModulo(ExactTo(elements, p[0]), Computed(elements[p[0]], p[1..]), Offset(elements[p[0]], p[1..]));
      case Array(element, _) =>
        ComputedIsExactModulo(element, p[1..]);
        ScaledModulo(p[0], Exact(element), Computed(element, p[1..]));
        AddedModulo(p[0] * Exact(element), Computed(element, p[1..]), Offset(element, p[1..]));
    }
  }

  lemma {:induction false} InBoundsWalks(s: Shape, p: Path)
    requires InBounds(s, p)
    ensures Walks(s, p)
    decreases p
  {
    if p != [] {
      match s
      case Struct(elements) => InBoundsWalks(elements[p[0]], p[1..]);
      case Array(element, _) => InBoundsWalks(element, p[1..]);
    }
  }

  // Element `i` of an array lies within it
  lemma ElementInside(i: nat, length: nat, n: nat)
    requires i < length
    ensures i * n + n <= length * n
    ensures i > 0 ==> n <= i * n
  {
    assert length * n == i * n + n + (length - i - 1) * n;
    if i > 0 {
      assert i * n == n + (i - 1) * n;
    }
  }

  /** The bits a path leads to lie among those of the whole, and in a type whose exact size
      fits in 32 bits no step overflows. */
  lemma {:induction false} Inside(s: Shape, p: Path)
    requires InBounds(s, p)
    ensures Walks(s, p) && Offset(s, p) + Exact(At(s, p)) <= Exact(s)
    ensures Exact(s) < WORD ==> Fits(s, p)
    decreases p
  {
    InBoundsWalks(s, p);
    if p != [] {
      match s
      case Struct(elements) =>
        Inside(elements[p[0]], p[1..]);
        ExactToGrows(elements, p[0], |elements|);
      case Array(element, length) =>
        Inside(element, p[1..]);
        ElementInside(p[0], length, Exact(element));
    }
  }

  // Neither path leads into the other
  predicate Apart(p: Path, q: Path)
    decreases p
  {
    p != [] && q != [] && (p[0] != q[0] || Apart(p[1..], q[1..]))
  }

  /** The bits two diverging paths lead to do not overlap. */
  lemma {:induction false} ApartIsDisjoint(s: Shape, p: Path, q: Path)
    requires InBounds(s, p) && InBounds(s, q) && Apart(p, q)
    ensures Walks(s, p) && Walks(s, q)
    ensures || Offset(s, p) + Exact(At(s, p)) <= Offset(s, q)
            || Offset(s, q) + Exact(At(s, q)) <= Offset(s, p)
    decreases p
  {
    InBoundsWalks(s, p);
    InBoundsWalks(s, q);
    match s
    case Struct(elements) =>
      Inside(elements[p[0]], p[1..]);
      Inside(elements[q[0]], q[1..]);
      if p[0] < q[0] {
        ExactToGrows(elements, p[0], q[0]);
      } else if q[0] < p[0] {
        ExactToGrows(elements, q[0], p[0]);
      } else {
        ApartIsDisjoint(elements[p[0]], p[1..], q[1..]);
      }
    case Array(element, _) =>
      Inside(element, p[1..]);
      Inside(element, q[1..]);
      if p[0] < q[0] {
        ElementInside(p[0], q[0], Exact(element));
      } else if q[0] < p[0] {
        ElementInside(q[0], p[0], Exact(element));
      } else {
        ApartIsDisjoint(element, p[1..], q[1..]);
      }
  }

  predicate IsLeaf(s: Shape) {
    s.Pointer? || s.Integer?
  }

  // A path to a number or a pointer that holds the given bit
  predicate Holds(s: Shape, p: Path, bit: nat) {
    InBounds(s, p) && Walks(s, p) && IsLeaf(At(s, p)) && Offset(s, p) <= bit < Offset(s, p) + Exact(At(s, p))
  }

  // The path to the leaf that holds a bit
  lemma {:induction false} Locate(s: Shape, bit: nat) returns (p: Path)
    requires Sized(s) && bit < Exact(s)
    ensures Holds(s, p, bit)
    decreases s, 0
  {
    match s
    case Struct(elements) =>
      p := LocateElement(elements, |elements|, bit);
    case Array(element, length) =>
      var n := Exact(element);
      LocateInArray(bit, n, length);
      var rest := Locate(element, bit % n);
      p := Below(s, bit / n, rest);
    case Pointer => p := [];
    case Integer(_) => p := [];
  }

  lemma {:induction false} LocateElement(elements: seq<Shape>, i: nat, bit: nat) returns (p: Path)
    requires i <= |elements| && Sized(Struct(elements)) && bit < ExactTo(elements, i)
    ensures Holds(Struct(elements), p, bit)
    decreases elements, i
  {
    var before := ExactTo(elements, i - 1);
    if bit < before {
      p := LocateElement(elements, i - 1, bit);
    } else {
      var rest := Locate(elements[i - 1], bit - before);
      p := Below(Struct(elements), i - 1, rest);
    }
  }

  // A path one step further up
  lemma Below(s: Shape, i: nat, rest: Path) returns (p: Path)
    requires s.Struct? || s.Array?
    requires if s.Struct? then i < |s.elements| else i < s.length
    requires var child := if s.Struct? then s.elements[i] else s.element; InBounds(child, rest) && Walks(child, rest)
    ensures InBounds(s, p) && Walks(s, p)
    ensures var child := if s.Struct? then s.elements[i] else s.element;
            && At(s, p) == At(child, rest)
            && Offset(s, p) == Offset(child, rest) + if s.Struct? then ExactTo(s.elements, i) else i * Exact(child)
  {
    p := [i] + rest;
    assert p[1..] == rest;
  }

  lemma LocateInArray(bit: nat, n: nat, length: nat)
    requires bit < length * n
    ensures n > 0 && bit / n < length && bit % n < n && bit / n * n + bit % n == bit
  {
    assert n == 0 ==> length * n == 0;
    FewerRows(bit / n, length, n);
  }

  lemma FewerRows(i: nat, length: nat, n: nat)
    requires i * n < length * n
    ensures i < length
  {
    assert length * n - i * n == (length - i) * n;
  }

  lemma {:induction false} LeavesAreApart(s: Shape, p: Path, q: Path)
    requires InBounds(s, p) && InBounds(s, q) && Walks(s, p) && Walks(s, q)
    requires IsLeaf(At(s, p)) && IsLeaf(At(s, q)) && p != q
    ensures Apart(p, q)
    decreases p
  {
    if p != [] && q != [] && p[0] == q[0] {
      assert p == [p[0]] + p[1..] && q == [q[0]] + q[1..];
      match s
      case Struct(elements) => LeavesAreApart(elements[p[0]], p[1..], q[1..]);
      case Array(element, _) => LeavesAreApart(element, p[1..], q[1..]);
    }
  }

  /** The leaves of a type tile it: every bit of it is in exactly one leaf, and no leaf
      has a bit outside. */
  lemma LeavesTile(s: Shape, bit: nat)
    requires Sized(s)
    ensures bit < Exact(s) <==> exists p :: Holds(s, p, bit)
    ensures forall p, q :: Holds(s, p, bit) && Holds(s, q, bit) ==> p == q
  {
    if bit < Exact(s) {
      var p := Locate(s, bit);
    }
    forall p | Holds(s, p, bit)
      ensures bit < Exact(s)
    {
      Inside(s, p);
    }
    forall p, q | Holds(s, p, bit) && Holds(s, q, bit)
      ensures p == q
    {
      if p != q {
        LeavesAreApart(s, p, q);
        ApartIsDisjoint(s, p, q);
      }
    }
  }

  lemma NoWrap(address: nat)
    requires address < POINTER_WORD
    ensures address % POINTER_WORD == address
  {
  }

  /* ---------------------------------------------------------------------- */
  // Types with every size
  /* ---------------------------------------------------------------------- */

  // Wherever an access path leads, the type there counts as bounded
  ghost predicate BoundedInside(s: Shape) {
    forall p: Path :: Walks(s, p) ==> IsSizeBounded(At(s, p))
  }

  /** A type has a size exactly when every type inside it counts as bounded. */
  lemma {:induction false} SizedIffBoundedInside(s: Shape)
    ensures Sized(s) <==> BoundedInside(s)
    decreases s
  {
    if Sized(s) {
      forall p: Path | Walks(s, p)
        ensures IsSizeBounded(At(s, p))
      {
        SizedInside(s, p);
      }
    }
    if BoundedInside(s) {
      assert Walks(s, []) && At(s, []) == s;
      match s
      case Array(element, length) =>
        ChildBoundedInside(s, 0, element);
        SizedIffBoundedInside(element);
      case Struct(elements) =>
        forall i | 0 <= i < |elements|
          ensures Sized(elements[i])
        {
          ChildBoundedInside(s, i, elements[i]);
          SizedIffBoundedInside(elements[i]);
        }
      case Pointer =>
      case Integer(_) =>
    }
  }

  lemma ChildBoundedInside(s: Shape, i: nat, child: Shape)
    requires (s.Array? && child == s.element) || (s.Struct? && i < |s.elements| && child == s.elements[i])
    requires BoundedInside(s)
    ensures BoundedInside(child)
  {
    forall p: Path | Walks(child, p)
      ensures IsSizeBounded(At(child, p))
    {
      var q: Path := [i] + p;
      assert q[1..] == p;
      assert Walks(s, q) && At(s, q) == At(child, p);
    }
  }

  lemma {:induction false} SizedInside(s: Shape, p: Path)
    requires Sized(s) && Walks(s, p)
    ensures Sized(At(s, p)) && IsSizeBounded(At(s, p))
    decreases p
  {
    if p != [] {
      match s
      case Struct(elements) => SizedInside(elements[p[0]], p[1..]);
      case Array(element, _) => SizedInside(element, p[1..]);
    }
  }
}
