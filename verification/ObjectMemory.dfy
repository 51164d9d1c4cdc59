/** Objects in memory: how many bytes they get, and where their parts are addressed.

    Memory is allocated and addressed in bytes.  Sizes and offsets of types are in bits,
    and a computed address adds them to a pointer as they are. */
module ObjectMemory {
  import opened Wrappers
  import opened Layout

  /* ---------------------------------------------------------------------- */
  // Allocation
  /* ---------------------------------------------------------------------- */

  // The bytes allocated for an object of some 32-bit size
  function Bytes(size: Word): nat {
    (size + 1) % WORD / 8
  }

  /** The bytes are those of one bit more than the size, rounded down, unless that bit makes
      the sum wrap. */
  lemma BytesMean(size: Word)
    ensures size + 1 < WORD ==> 8 * Bytes(size) <= size + 1 < 8 * Bytes(size) + 8
    ensures size + 1 == WORD ==> Bytes(size) == 0
  {
  }

  /** The bytes of an object hold all its bits exactly when its size fits in 32 bits, with
      one to spare, and is a multiple of eight or one less than that. */
  lemma BytesHoldIff(s: Shape)
    requires Sized(s)
    ensures Size(s).Some?
    ensures Exact(s) <= 8 * Bytes(Size(s).value) <==> Exact(s) + 1 < WORD && Exact(s) % 8 in {0, 7}
  {
    SizeIsExactModulo(s);
    var n := Size(s).value;
    if Exact(s) < WORD {
      NoWrapInWord(Exact(s));
    }
    EightfoldHoldsIff(n);
  }

  lemma EightfoldHoldsIff(n: Word)
    ensures 8 * Bytes(n) < WORD
    ensures n <= 8 * Bytes(n) <==> n + 1 < WORD && n % 8 in {0, 7}
  {
  }

  /** An object gets no bytes at all exactly when its 32-bit size is below seven, as that of
      a boolean, or the largest there is. */
  lemma NoBytesIff(size: Word)
    ensures Bytes(size) == 0 <==> size < 7 || size == WORD - 1
  {
  }

  /* ---------------------------------------------------------------------- */
  // Computed addresses
  /* ---------------------------------------------------------------------- */

  // No bit precedes what the path leads to: only empty elements are skipped
  predicate SkipsNothing(s: Shape, p: Path)
    requires Walks(s, p)
    decreases p
  {
    p == [] ||
    match s
    case Struct(elements) =>
      (forall k :: 0 <= k < p[0] ==> Empty(elements[k])) && SkipsNothing(elements[p[0]], p[1..])
    case Array(element, _) => (p[0] == 0 || Empty(element)) && SkipsNothing(element, p[1..])
  }

  // A type without a bit
  predicate Empty(s: Shape)
    decreases s
  {
    match s
    case Pointer => false
    case Integer(bits) => bits == 0
    case Array(element, length) => length == 0 || Empty(element)
    case Struct(elements) => forall i :: 0 <= i < |elements| ==> Empty(elements[i])
    case _ => true
  }

  lemma {:induction false} EmptyIff(s: Shape)
    ensures Exact(s) == 0 <==> Empty(s)
    decreases s, 0
  {
    match s
    case Array(element, length) => EmptyIff(element);
    case Struct(elements) => EmptyToIff(elements, |elements|);
    case _ =>
  }

  lemma {:induction false} EmptyToIff(elements: seq<Shape>, i: nat)
    requires i <= |elements|
    ensures ExactTo(elements, i) == 0 <==> forall k :: 0 <= k < i ==> Empty(elements[k])
    decreases elements, i
  {
    if i > 0 {
      EmptyIff(elements[i - 1]);
      EmptyToIff(elements, i - 1);
    }
  }

  lemma {:induction false} SkipsNothingIff(s: Shape, p: Path)
    requires Walks(s, p)
    ensures Offset(s, p) == 0 <==> SkipsNothing(s, p)
    decreases p
  {
    if p != [] {
      match s
      case Struct(elements) =>
        EmptyToIff(elements, p[0]);
        SkipsNothingIff(elements[p[0]], p[1..]);
      case Array(element, _) =>
        EmptyIff(element);
        SkipsNothingIff(element, p[1..]);
        ProductIsZero(p[0], Exact(element));
    }
  }

  lemma ProductIsZero(a: nat, b: nat)
    ensures a * b == 0 <==> a == 0 || b == 0
  {
    if a != 0 && b != 0 {
      assert a * b >= b;
    }
  }

  /** As long as no step overflows and the address does not wrap, the computed address is
      base plus the number of bits before the target. */
  lemma AddressCountsBits(base: nat, s: Shape, p: Path)
    requires Walks(s, p) && Sized(s) && Fits(s, p) && base + Offset(s, p) < POINTER_WORD
    ensures Address(base, s, p) == Some(base + Offset(s, p))
  {
    ComputedIsExactIff(s, p);
    AddressIsComputed(base, s, p);
    NoWrap(base + Offset(s, p));
  }

  /** So it is the address of the byte in which the target begins exactly when nothing
      precedes the target. */
  lemma AddressIsByteAddressIff(base: nat, s: Shape, p: Path)
    requires Walks(s, p) && Sized(s) && Fits(s, p) && base + Offset(s, p) < POINTER_WORD
    ensures Address(base, s, p) == Some(base + Offset(s, p) / 8) <==> SkipsNothing(s, p)
  {
    AddressCountsBits(base, s, p);
    SkipsNothingIff(s, p);
  }

  // The bytes at the computed address of the target lie among those of the object
  ghost predicate AddressedInside(base: nat, s: Shape, p: Path)
    requires Walks(s, p)
  {
    && Size(s).Some? && Size(At(s, p)).Some? && Address(base, s, p).Some?
    && base <= Address(base, s, p).value
    && Address(base, s, p).value + Bytes(Size(At(s, p)).value) <= base + Bytes(Size(s).value)
  }

  lemma WholeBytes(b: nat)
    requires 8 * b + 1 < WORD
    ensures Bytes(8 * b) == b
  {
  }

  lemma ScaledOrder(x: nat, y: nat, b: nat)
    requires b > 0
    ensures x * b <= y * b <==> x <= y
  {
    if x <= y {
      assert y * b == x * b + (y - x) * b;
    } else {
      assert x * b == y * b + (x - y) * b;
    }
  }

  // The bytes allocated for the elements of an array
  function ElementsBytes(element: Word, n: Word): nat {
    n * Bytes(element) % WORD
  }

  lemma ElementAddress(base: nat, element: Shape, k: nat)
    requires Sized(element) && Exact(element) < WORD && base + k * Exact(element) < POINTER_WORD
    ensures Address(base, Array(element, 0), [k]) == Some(base + k * Exact(element))
  {
    var s, p: Path := Array(element, 0), [k];
    SizeIsExactModulo(element);
    NoWrapInWord(Exact(element));
    NoWrap(k * Exact(element));
    NoWrap(base + k * Exact(element));
    assert p[1..] == [];
    assert Address(base + k * Exact(element), element, []) == Some(base + k * Exact(element));
  }

  // The bytes at the computed address of element `k` lie among those allocated for all `n`
  ghost predicate ElementIsInside(base: nat, element: Shape, n: Word, k: nat)
    requires Size(element).Some? && Address(base, Array(element, 0), [k]).Some?
  {
    Address(base, Array(element, 0), [k]).value + Bytes(Size(element).value) <=
      base + ElementsBytes(Size(element).value, n)
  }

  /** Element `k` of an array of `n` elements of `b` bytes each is addressed inside the memory
      of the array exactly when `8 k + 1` elements fit in the byte count of all of them, as
      truncated to 32 bits. */
  lemma ElementInsideIff(base: nat, element: Shape, b: nat, n: Word, k: nat)
    requires Sized(element) && Exact(element) == 8 * b && b > 0 && 8 * b + 1 < WORD
    requires base + k * (8 * b) < POINTER_WORD && k < n
    ensures Size(element).Some?
    ensures Address(base, Array(element, 0), [k]) == Some(base + k * (8 * b))
    ensures ElementsBytes(Size(element).value, n) == n * b % WORD
    ensures ElementIsInside(base, element, n, k) <==> (8 * k + 1) * b <= n * b % WORD
  {
    SizeIsExactModulo(element);
    NoWrapInWord(8 * b);
    WholeBytes(b);
    ElementAddress(base, element, k);
    assert k * (8 * b) + b == (8 * k + 1) * b;
  }

  /** While the byte count does not overflow, these are the elements in the first eighth. */
  lemma FirstEighthIsInside(base: nat, element: Shape, b: nat, n: Word, k: nat)
    requires Sized(element) && Exact(element) == 8 * b && b > 0 && 8 * b + 1 < WORD
    requires n * b < WORD && base + k * (8 * b) < POINTER_WORD && k < n
    ensures Size(element).Some? && Address(base, Array(element, 0), [k]).Some?
    ensures ElementIsInside(base, element, n, k) <==> 8 * k < n
  {
    ElementInsideIff(base, element, b, n, k);
    FirstEighth(k, b, n);
  }

  lemma FirstEighth(k: nat, b: nat, n: nat)
    requires b > 0 && n * b < WORD
    ensures (8 * k + 1) * b <= n * b % WORD <==> 8 * k < n
  {
    NoWrapInWord(n * b);
    ScaledOrder(8 * k + 1, n, b);
  }

  /** An array of 2^30 integers gets no bytes, and not even its first element is inside. */
  lemma ManyIntegersGetNoBytes(base: nat, k: nat)
    requires base + k * 32 < POINTER_WORD && k < 0x4000_0000
    ensures Size(Integer(32)) == Some(32) && ElementsBytes(32, 0x4000_0000) == 0
    ensures Address(base, Array(Integer(32), 0), [k]).Some? && !ElementIsInside(base, Integer(32), 0x4000_0000, k)
  {
    ElementInsideIff(base, Integer(32), 4, 0x4000_0000, k);
  }

  /** Whether inside the object or not, different leaves are addressed apart. */
  lemma LeavesAreAddressedApart(base: nat, s: Shape, p: Path, q: Path)
    requires Sized(s) && Exact(s) < WORD && base + Exact(s) < POINTER_WORD
    requires InBounds(s, p) && InBounds(s, q) && Walks(s, p) && Walks(s, q)
    requires IsLeaf(At(s, p)) && IsLeaf(At(s, q)) && p != q
    ensures Address(base, s, p).Some? && Address(base, s, q).Some?
    ensures var (a, b) := (Address(base, s, p).value, Address(base, s, q).value);
            a + Bytes(Exact(At(s, p))) <= b || b + Bytes(Exact(At(s, q))) <= a
  {
    Inside(s, p);
    Inside(s, q);
    AddressCountsBits(base, s, p);
    AddressCountsBits(base, s, q);
    LeavesAreApart(s, p, q);
    ApartIsDisjoint(s, p, q);
    FewerBytes(Exact(At(s, p)));
    FewerBytes(Exact(At(s, q)));
  }

  lemma FewerBytes(size: Word)
    ensures Bytes(size) <= size
  {
  }

  // What the code generator puts before the elements of an array: length and elements
  const HEADER: Shape := Struct([Integer(32), Pointer])

  /** The header of an array gets twelve bytes; its second field, which follows four bytes of
      the first, is addressed at byte 32. */
  lemma HeaderIsAddressedOutside(base: nat)
    requires base + 96 < POINTER_WORD
    ensures Walks(HEADER, [1]) && Sized(HEADER) && Size(HEADER) == Some(96) && Bytes(96) == 12
    ensures Offset(HEADER, [1]) / 8 == 4
    ensures Address(base, HEADER, [1]) == Some(base + 32)
    ensures !AddressedInside(base, HEADER, [1])
  {
    var elements := HEADER.elements;
    assert ExactTo(elements, 1) == ExactTo(elements, 0) + Exact(elements[0]) == 32;
    assert ExactTo(elements, 2) == ExactTo(elements, 1) + Exact(elements[1]) == 96;
    SizeIsExactModulo(HEADER);
    assert [1][1..] == [] && Offset(HEADER, [1]) == 32;
    AddressCountsBits(base, HEADER, [1]);
  }
}
