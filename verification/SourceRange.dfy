/** Source ranges and their merging into bounding boxes. */
module SourceRange {

  // A line of -1 marks a default-constructed location
  datatype Location = Location(file: int, line: int, column: int) {
    predicate IsValid() {
      line != -1
    }
  }

  datatype Range = Range(begin: Location, end: Location) {
    predicate IsValid() {
      begin.IsValid() && end.IsValid()
    }
  }

  function Min(a: int, b: int): int {
    if a <= b then a else b
  }

  function Max(a: int, b: int): int {
    if a >= b then a else b
  }

  predicate SameFile(a: Range, b: Range) {
    a.begin.file == b.begin.file
  }

  // The program asserts that both ranges are in one file
  function Merge(a: Range, b: Range): Range
    requires SameFile(a, b)
  {
    if !a.IsValid() then b
    else if !b.IsValid() then a
    else
      var file := a.begin.file;
      Range(
        Location(file, Min(a.begin.line, b.begin.line), Min(a.begin.column, b.begin.column)),
        Location(file, Max(a.end.line, b.end.line), Max(a.end.column, b.end.column)))
  }

  /** Merging is associative everywhere, and commutative as soon as one of the two
      ranges is valid; between invalid ranges it keeps the second. */
  lemma MergeLaws(a: Range, b: Range, c: Range)
    requires SameFile(a, b) && SameFile(b, c)
    ensures SameFile(Merge(a, b), c) && SameFile(a, Merge(b, c))
    ensures Merge(Merge(a, b), c) == Merge(a, Merge(b, c))
    ensures Merge(a, b) == Merge(b, a) <==> a.IsValid() || b.IsValid() || a == b
  {
    if a.IsValid() && b.IsValid() {
      assert Merge(a, b).IsValid();
    }
  }

  // Both ends of a range are in one file
  predicate WithinFile(r: Range, file: int) {
    r.begin.file == file && r.end.file == file
  }

  /** Ranges within a file merge to a range within it, at both ends; a merged range starts
      in the file of both in any case. */
  lemma MergeStaysInFile(a: Range, b: Range)
    requires SameFile(a, b)
    ensures Merge(a, b).begin.file == a.begin.file == b.begin.file
    ensures a.IsValid() && b.IsValid() ==> Merge(a, b).end.file == a.begin.file
    ensures forall file :: WithinFile(a, file) && WithinFile(b, file) ==> WithinFile(Merge(a, b), file)
    ensures !a.IsValid() ==> Merge(a, b) == b
    ensures a.IsValid() && !b.IsValid() ==> Merge(a, b) == a
  {
  }

  /* ---------------------------------------------------------------------- */
  // Bounding boxes
  /* ---------------------------------------------------------------------- */

  ghost predicate HasValid(ranges: seq<Range>) {
    exists i :: 0 <= i < |ranges| && ranges[i].IsValid()
  }

  // `low` is the least value of `coordinate` over the valid ranges
  ghost predicate IsLeast(low: int, ranges: seq<Range>, coordinate: Range -> int) {
    && (forall i :: 0 <= i < |ranges| && ranges[i].IsValid() ==> low <= coordinate(ranges[i]))
    && (exists i :: 0 <= i < |ranges| && ranges[i].IsValid() && low == coordinate(ranges[i]))
  }

  ghost predicate IsGreatest(high: int, ranges: seq<Range>, coordinate: Range -> int) {
    && (forall i :: 0 <= i < |ranges| && ranges[i].IsValid() ==> coordinate(ranges[i]) <= high)
    && (exists i :: 0 <= i < |ranges| && ranges[i].IsValid() && high == coordinate(ranges[i]))
  }

  // The smallest range around the valid ones; with none, one of the invalid ones
  ghost predicate IsBox(box: Range, ranges: seq<Range>) {
    if HasValid(ranges) then
      && box.IsValid()
      && IsLeast(box.begin.line, ranges, (r: Range) => r.begin.line)
      && IsLeast(box.begin.column, ranges, (r: Range) => r.begin.column)
      && IsGreatest(box.end.line, ranges, (r: Range) => r.end.line)
      && IsGreatest(box.end.column, ranges, (r: Range) => r.end.column)
    else
      !box.IsValid() && box in ranges
  }

  lemma LeastOfBoth(a: int, b: int, xs: seq<Range>, ys: seq<Range>, coordinate: Range -> int)
    requires IsLeast(a, xs, coordinate) && IsLeast(b, ys, coordinate)
    ensures IsLeast(Min(a, b), ys + xs, coordinate)
  {
    var i :| 0 <= i < |xs| && xs[i].IsValid() && a == coordinate(xs[i]);
    var j :| 0 <= j < |ys| && ys[j].IsValid() && b == coordinate(ys[j]);
    assert (ys + xs)[|ys| + i] == xs[i] && (ys + xs)[j] == ys[j];
  }

  lemma GreatestOfBoth(a: int, b: int, xs: seq<Range>, ys: seq<Range>, coordinate: Range -> int)
    requires IsGreatest(a, xs, coordinate) && IsGreatest(b, ys, coordinate)
    ensures IsGreatest(Max(a, b), ys + xs, coordinate)
  {
    var i :| 0 <= i < |xs| && xs[i].IsValid() && a == coordinate(xs[i]);
    var j :| 0 <= j < |ys| && ys[j].IsValid() && b == coordinate(ys[j]);
    assert (ys + xs)[|ys| + i] == xs[i] && (ys + xs)[j] == ys[j];
  }

  lemma LeastWithInvalid(a: int, xs: seq<Range>, ys: seq<Range>, coordinate: Range -> int)
    requires !HasValid(ys)
    ensures IsLeast(a, xs, coordinate) ==> IsLeast(a, xs + ys, coordinate) && IsLeast(a, ys + xs, coordinate)
    ensures IsGreatest(a, xs, coordinate) ==>
              IsGreatest(a, xs + ys, coordinate) && IsGreatest(a, ys + xs, coordinate)
  {
    forall i | 0 <= i < |xs|
      ensures (xs + ys)[i] == xs[i] && (ys + xs)[|ys| + i] == xs[i]
    {
    }
  }

  lemma BoxWithInvalid(a: Range, xs: seq<Range>, ys: seq<Range>)
    requires IsBox(a, xs) && HasValid(xs) && !HasValid(ys)
    ensures IsBox(a, xs + ys) && IsBox(a, ys + xs)
  {
    var i :| 0 <= i < |xs| && xs[i].IsValid();
    assert (xs + ys)[i] == xs[i] && (ys + xs)[|ys| + i] == xs[i];
    LeastWithInvalid(a.begin.line, xs, ys, (r: Range) => r.begin.line);
    LeastWithInvalid(a.begin.column, xs, ys, (r: Range) => r.begin.column);
    LeastWithInvalid(a.end.line, xs, ys, (r: Range) => r.end.line);
    LeastWithInvalid(a.end.column, xs, ys, (r: Range) => r.end.column);
  }

  /** Merging the boxes of two lists gives the box of both. */
  lemma MergeIsBox(a: Range, b: Range, xs: seq<Range>, ys: seq<Range>)
    requires SameFile(a, b) && IsBox(a, xs) && IsBox(b, ys)
    ensures IsBox(Merge(a, b), ys + xs)
  {
    if HasValid(xs) && HasValid(ys) {
      var i :| 0 <= i < |xs| && xs[i].IsValid();
      assert (ys + xs)[|ys| + i] == xs[i];
      LeastOfBoth(a.begin.line, b.begin.line, xs, ys, (r: Range) => r.begin.line);
      LeastOfBoth(a.begin.column, b.begin.column, xs, ys, (r: Range) => r.begin.column);
      GreatestOfBoth(a.end.line, b.end.line, xs, ys, (r: Range) => r.end.line);
      GreatestOfBoth(a.end.column, b.end.column, xs, ys, (r: Range) => r.end.column);
    } else if HasValid(xs) {
      BoxWithInvalid(a, xs, ys);
    } else if HasValid(ys) {
      BoxWithInvalid(b, ys, xs);
    } else {
      assert !HasValid(ys + xs);
    }
  }
}
