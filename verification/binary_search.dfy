/**
 * The iterative binary search of assignment-1/question-6/tests, written
 * there three times: in C++ (test.cpp), Python (test.py) and TypeScript
 * (test.ts). The three loops are the same; they differ only in how the
 * midpoint is computed, with each language's own division. The model gives
 * each version its own method with its own midpoint, a functional reference
 * search they all agree with, and the array builder the benchmarks search.
 */
module BinarySearch {

  /** Ascending order (repeats allowed). */
  predicate Sorted(a: seq<int>)
  {
    forall i, j :: 0 <= i < j < |a| ==> a[i] <= a[j]
  }

  // ---------------------------------------------------------------------------
  // The midpoint, in each language's arithmetic.
  // ---------------------------------------------------------------------------

  /** C++ `x / 2` on `int`: the quotient is truncated toward zero. */
  function TruncHalf(x: int): int
  {
    if x >= 0 then x / 2 else -((-x) / 2)
  }

  /** test.cpp: `left + (right - left) / 2`. */
  function CppMid(left: int, right: int): int
  {
    left + TruncHalf(right - left)
  }

  /** test.py: `left + (right - left) // 2`; `//` floors. */
  function PyMid(left: int, right: int): int
  {
    left + Floor(right - left, 2)
  }

  /** Python's `a // b` for `b > 0`: the greatest `q` with `q * b <= a`. */
  function Floor(a: int, b: int): (q: int)
    requires b > 0
    ensures q * b <= a < (q + 1) * b
  {
    a / b
  }

  /** test.ts: `Math.floor((left + right) / 2)`, a division of doubles, floored. */
  function TsMid(left: int, right: int): int
  {
    ((left + right) as real / 2.0).Floor
  }

  /**
   * Inside the loop (`0 <= left <= right`) the three midpoints are the same
   * index, and it lies in `[left, right]`: what keeps every access in bounds
   * and makes the range shrink.
   */
  lemma MidsAgree(left: int, right: int)
    requires 0 <= left <= right
    ensures CppMid(left, right) == PyMid(left, right) == TsMid(left, right)
    ensures left <= CppMid(left, right) <= right
  {
    CppMidOk(left, right);
    PyMidOk(left, right);
    TsMidOk(left, right);
  }

  /** In the loop the C++ midpoint is the reference search's probe. */
  lemma CppMidOk(left: int, right: int)
    requires 0 <= left <= right
    ensures CppMid(left, right) == left + (right - left) / 2
  {
  }

  /** In the loop the Python midpoint is the reference search's probe. */
  lemma PyMidOk(left: int, right: int)
    requires 0 <= left <= right
    ensures PyMid(left, right) == left + (right - left) / 2
  {
  }

  /** In the loop the TypeScript midpoint is the reference search's probe. */
  lemma TsMidOk(left: int, right: int)
    requires 0 <= left <= right
    ensures TsMid(left, right) == left + (right - left) / 2
  {
    var m := left + (right - left) / 2;
    assert (left + right) as real / 2.0 == m as real + (if (left + right) % 2 == 1 then 0.5 else 0.0);
  }

  /** Everywhere, the TypeScript midpoint is the Python one. */
  lemma TsIsFloor(left: int, right: int)
    ensures TsMid(left, right) == left + Floor(right - left, 2)
  {
    var q, r := (right - left) / 2, (right - left) % 2;
    assert (left + right) as real / 2.0 == (left + q) as real + r as real / 2.0;
  }

  /**
   * The midpoints part ways only outside the loop's range (`left > right`):
   * Python and TypeScript both floor, while C++ truncates toward zero, which
   * rounds a negative odd difference up.
   */
  lemma MidsBelow(left: int, right: int)
    requires left > right
    ensures PyMid(left, right) == TsMid(left, right)
    ensures (right - left) % 2 == 0 ==> CppMid(left, right) == PyMid(left, right)
    ensures (right - left) % 2 == 1 ==> CppMid(left, right) == PyMid(left, right) + 1
  {
    TsIsFloor(left, right);
  }

  // ---------------------------------------------------------------------------
  // The reference search.
  // ---------------------------------------------------------------------------

  /**
   * The search on the index range `[lo, hi]`, as a function: probe the middle,
   * answer it on a hit, otherwise continue right of it when the probe is too
   * small and left of it when too big; an empty range answers -1.
   */
  function Bisect(a: seq<int>, target: int, lo: int, hi: int): (r: int)
    requires 0 <= lo && hi < |a|
    decreases hi - lo
  {
    if lo > hi then -1
    else
      var mid := lo + (hi - lo) / 2;
      if a[mid] == target then mid
      else if a[mid] < target then Bisect(a, target, mid + 1, hi)
      else Bisect(a, target, lo, mid - 1)
  }

  /** The whole-array search. */
  function Search(a: seq<int>, target: int): int
  {
    Bisect(a, target, 0, |a| - 1)
  }

  /** An answer other than -1 is an index in the range holding `target`. */
  lemma {:induction false} BisectSound(a: seq<int>, target: int, lo: int, hi: int)
    requires 0 <= lo && hi < |a|
    ensures var r := Bisect(a, target, lo, hi);
      r == -1 || (lo <= r <= hi && a[r] == target)
    decreases hi - lo
  {
    if lo <= hi {
      var mid := lo + (hi - lo) / 2;
      if a[mid] < target {
        BisectSound(a, target, mid + 1, hi);
      } else if a[mid] > target {
        BisectSound(a, target, lo, mid - 1);
      }
    }
  }

  /** On a sorted array, -1 comes back only when `target` is nowhere in the range. */
  lemma {:induction false} BisectComplete(a: seq<int>, target: int, lo: int, hi: int)
    requires 0 <= lo && hi < |a| && Sorted(a)
    requires Bisect(a, target, lo, hi) == -1
    ensures forall i :: lo <= i <= hi ==> a[i] != target
    decreases hi - lo
  {
    if lo <= hi {
      var mid := lo + (hi - lo) / 2;
      if a[mid] < target {
        BisectComplete(a, target, mid + 1, hi);
      } else if a[mid] > target {
        BisectComplete(a, target, lo, mid - 1);
      }
    }
  }

  /**
   * What the search promises: its answer is -1 or an index of the array; an
   * index answer holds `target`; and on a sorted array the answer is -1
   * exactly when `target` is absent (so the empty array always gives -1).
   */
  lemma SearchSpec(a: seq<int>, target: int)
    ensures -1 <= Search(a, target) < |a|
    ensures Search(a, target) != -1 ==> a[Search(a, target)] == target
    ensures Sorted(a) ==> (Search(a, target) == -1 <==> target !in a)
  {
    BisectSound(a, target, 0, |a| - 1);
    if Sorted(a) && Search(a, target) == -1 {
      BisectComplete(a, target, 0, |a| - 1);
    }
  }

  // ---------------------------------------------------------------------------
  // The three loops.
  // ---------------------------------------------------------------------------

  /** test.cpp `binarySearch`: `right` starts at `array.size() - 1`, `mid` by truncating division. */
  method CppBinarySearch(arr: seq<int>, target: int) returns (r: int)
    ensures r == Search(arr, target)
    ensures -1 <= r < |arr| && (r != -1 ==> arr[r] == target)
    ensures Sorted(arr) ==> (r == -1 <==> target !in arr)
  {
    var left := 0;
    var right := |arr| - 1;
    while left <= right
      invariant 0 <= left && right < |arr|
      invariant Bisect(arr, target, left, right) == Search(arr, target)
      decreases right - left
    {
      CppMidOk(left, right);
      var mid := CppMid(left, right);
      if arr[mid] == target {
        SearchSpec(arr, target);
        return mid;
      } else if arr[mid] < target {
        left := mid + 1;
      } else {
        right := mid - 1;
      }
    }
    SearchSpec(arr, target);
    return -1;
  }

  /** test.py `binarySearch`: `right` starts at `len(array) - 1`, `mid` by floor division. */
  method PyBinarySearch(arr: seq<int>, target: int) returns (r: int)
    ensures r == Search(arr, target)
    ensures -1 <= r < |arr| && (r != -1 ==> arr[r] == target)
    ensures Sorted(arr) ==> (r == -1 <==> target !in arr)
  {
    var left := 0;
    var right := |arr| - 1;
    while left <= right
      invariant 0 <= left && right < |arr|
      invariant Bisect(arr, target, left, right) == Search(arr, target)
      decreases right - left
    {
      PyMidOk(left, right);
      var mid := PyMid(left, right);
      if arr[mid] == target {
        SearchSpec(arr, target);
        return mid;
      } else if arr[mid] < target {
        left := mid + 1;
      } else {
        right := mid - 1;
      }
    }
    SearchSpec(arr, target);
    return -1;
  }

  /** test.ts `binarySearch`: `right` starts at `array.length - 1`, `mid` is `Math.floor((left + right) / 2)`. */
  method TsBinarySearch(arr: seq<int>, target: int) returns (r: int)
    ensures r == Search(arr, target)
    ensures -1 <= r < |arr| && (r != -1 ==> arr[r] == target)
    ensures Sorted(arr) ==> (r == -1 <==> target !in arr)
  {
    var left := 0;
    var right := |arr| - 1;
    while left <= right
      invariant 0 <= left && right < |arr|
      invariant Bisect(arr, target, left, right) == Search(arr, target)
      decreases right - left
    {
      TsMidOk(left, right);
      var mid := TsMid(left, right);
      if arr[mid] == target {
        SearchSpec(arr, target);
        return mid;
      } else if arr[mid] < target {
        left := mid + 1;
      } else {
        right := mid - 1;
      }
    }
    SearchSpec(arr, target);
    return -1;
  }

  // ---------------------------------------------------------------------------
  // The arrays the benchmarks search.
  // ---------------------------------------------------------------------------

  /**
   * test.cpp and test.ts `createBinarySearchableArray(size)`: an array of
   * `size` slots (zeros in C++, holes in TypeScript), then slot `i` set to `i`.
   */
  method CreateBinarySearchableArray(size: nat) returns (arr: seq<int>)
    ensures |arr| == size && forall i :: 0 <= i < size ==> arr[i] == i
  {
    arr := seq(size, _ => 0);
    var i := 0;
    while i < size
      invariant 0 <= i <= size && |arr| == size
      invariant forall j :: 0 <= j < i ==> arr[j] == j
    {
      arr := arr[i := i];
      i := i + 1;
    }
  }

  /** test.py `createBinarySearchableArray(size)`: `list(range(size))`, empty when `size <= 0`. */
  function Range(size: int): (arr: seq<int>)
    ensures |arr| == (if size > 0 then size else 0)
    ensures forall i :: 0 <= i < |arr| ==> arr[i] == i
    decreases size
  {
    if size <= 0 then [] else Range(size - 1) + [size - 1]
  }

  /** `i` at slot `i` makes the array strictly increasing. */
  predicate Identity(a: seq<int>)
  {
    forall i :: 0 <= i < |a| ==> a[i] == i
  }

  /**
   * Searching such an array finds every stored value at its own index, and
   * anything else, such as the benchmarks' `size + 1`, not at all.
   */
  lemma SearchIdentity(a: seq<int>, target: int)
    requires Identity(a)
    ensures 0 <= target < |a| ==> Search(a, target) == target
    ensures !(0 <= target < |a|) ==> Search(a, target) == -1
  {
    assert Sorted(a);
    SearchSpec(a, target);
    if 0 <= target < |a| {
      assert a[target] == target;
    } else {
      assert target !in a;
    }
  }

  /** The benchmark's unsuccessful search: `size + 1` is never in `createBinarySearchableArray(size)`. */
  method UnsuccessfulSearch(size: nat) returns (cpp: int, py: int, ts: int)
    ensures cpp == -1 && py == -1 && ts == -1
  {
    var arr := CreateBinarySearchableArray(size);
    SearchIdentity(arr, size + 1);
    cpp := CppBinarySearch(arr, size + 1);
    ts := TsBinarySearch(arr, size + 1);
    SearchIdentity(Range(size), size + 1);
    py := PyBinarySearch(Range(size), size + 1);
  }
}
