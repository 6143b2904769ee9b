/**
 Iterative binary search over a list of integers, as written in `test.py`.

 The search keeps a closed window `[left, right]` of indices still to be
 examined. Each round probes the middle index `mid = (left + right) // 2`:
 an element equal to the target ends the search with `mid`, a smaller one
 moves `left` past `mid`, a larger one moves `right` before `mid`. An empty
 window ends the search with the sentinel `-1`.

 The module gives the search twice: `SearchFrom` is a functional reference
 definition of the loop, one recursive call per round, and `BinarySearchLoop` is
 the loop itself, proved to compute the same value. The lemmas state what
 the result means: a found index always holds the target (whatever the
 order of the list), and on a list sorted ascending `-1` means the target
 is absent.

 Python integers are unbounded, so `int` models them without wrap-around.
 Python's `//` rounds toward negative infinity; Dafny's `/` is Euclidean.
 The two agree whenever the divisor is positive, which is the only case used.
 */
module BinarySearch {

  /** The value `binary_search` returns when the target is not found. */
  const NotFound: int := -1

  /** The list is sorted ascending (repeated elements allowed). */
  predicate Sorted(arr: seq<int>) {
    forall i, j :: 0 <= i < j < |arr| ==> arr[i] <= arr[j]
  }

  /** The list is sorted strictly ascending, so every element occurs once. */
  predicate StrictlySorted(arr: seq<int>) {
    forall i, j :: 0 <= i < j < |arr| ==> arr[i] < arr[j]
  }

  /** A value `binary_search` may return for a list of length `n`:
      the sentinel or an index into the list. */
  predicate IsResultShape(r: int, n: nat) {
    r == NotFound || 0 <= r < n
  }

  /** The closed window `[left, right]` of indices still to be searched. */
  datatype Window = Window(left: int, right: int) {

    /** Number of indices in the window; zero once `left == right + 1`. */
    function Size(): int {
      right - left + 1
    }

    /** The window lies inside a list of length `n`, possibly empty. */
    predicate InBounds(n: nat) {
      0 <= left && right < n && left <= right + 1
    }

    /** The loop condition `left <= right`. */
    predicate NonEmpty() {
      left <= right
    }
  }

  /** The window the search starts from: the whole list. */
  function Initial(arr: seq<int>): (w: Window)
    ensures w.InBounds(|arr|)
    ensures w.Size() == |arr|
    ensures w.NonEmpty() <==> |arr| > 0
  {
    Window(0, |arr| - 1)
  }

  /** The probe index `(left + right) // 2` of a non-empty window. */
  function Mid(w: Window): (mid: int)
    requires w.NonEmpty()
    ensures w.left <= mid <= w.right
    ensures mid - w.left <= w.right - mid <= mid - w.left + 1
  {
    (w.left + w.right) / 2
  }

  /** Outcome of one round of the loop. */
  datatype Step = Hit(index: int) | Narrow(next: Window)

  /** One round of the loop on a non-empty window: probe the middle and
      either stop there or keep the half that can still hold the target. */
  function Probe(arr: seq<int>, target: int, w: Window): (s: Step)
    requires w.InBounds(|arr|) && w.NonEmpty()
    ensures s.Hit? <==> arr[Mid(w)] == target
    ensures s.Hit? ==> s.index == Mid(w)
    ensures s.Narrow? ==> s.next.InBounds(|arr|) && s.next.Size() < w.Size()
    ensures s.Narrow? && arr[Mid(w)] < target ==> s.next == Window(Mid(w) + 1, w.right)
    ensures s.Narrow? && arr[Mid(w)] > target ==> s.next == Window(w.left, Mid(w) - 1)
  {
    var mid := Mid(w);
    if arr[mid] == target then Hit(mid)
    else if arr[mid] < target then Narrow(Window(mid + 1, w.right))
    else Narrow(Window(w.left, mid - 1))
  }

  /** Reference definition of the search loop, run from window `w`.
      Whatever the order of the list, a result other than the sentinel is an
      index inside `w` that holds the target. */
  function SearchFrom(arr: seq<int>, target: int, w: Window): (r: int)
    requires w.InBounds(|arr|)
    ensures r == NotFound || (w.left <= r <= w.right && arr[r] == target)
    decreases w.Size()
  {
    if !w.NonEmpty() then NotFound
    else match Probe(arr, target, w)
      case Hit(i) => i
      case Narrow(next) => SearchFrom(arr, target, next)
  }

  /** What `binary_search(arr, target)` returns. */
  function Search(arr: seq<int>, target: int): (r: int)
    ensures IsResultShape(r, |arr|)
    ensures r != NotFound ==> arr[r] == target
    ensures |arr| == 0 ==> r == NotFound
  {
    SearchFrom(arr, target, Initial(arr))
  }

  /** Every index left of the window holds an element below the target and
      every index right of it an element above: the target, if present, lies
      inside the window. */
  predicate Excludes(arr: seq<int>, target: int, w: Window)
    requires w.InBounds(|arr|)
  {
    && (forall i :: 0 <= i < w.left ==> arr[i] < target)
    && (forall i :: w.right < i < |arr| ==> arr[i] > target)
  }

  /** On a sorted list, a round that narrows the window keeps every
      occurrence of the target inside it. */
  lemma ProbePreservesExclusion(arr: seq<int>, target: int, w: Window)
    requires Sorted(arr)
    requires w.InBounds(|arr|) && w.NonEmpty()
    requires Excludes(arr, target, w)
    requires Probe(arr, target, w).Narrow?
    ensures Excludes(arr, target, Probe(arr, target, w).next)
  {
  }

  /** On a sorted list, a search that ends with the sentinel from a window
      that holds every occurrence of the target proves the target absent. */
  lemma {:induction false} NotFoundMeansAbsent(arr: seq<int>, target: int, w: Window)
    requires Sorted(arr)
    requires w.InBounds(|arr|)
    requires Excludes(arr, target, w)
    requires SearchFrom(arr, target, w) == NotFound
    ensures forall i :: 0 <= i < |arr| ==> arr[i] != target
    decreases w.Size()
  {
    if w.NonEmpty() {
      var s := Probe(arr, target, w);
      if s.Narrow? {
        ProbePreservesExclusion(arr, target, w);
        NotFoundMeansAbsent(arr, target, s.next);
      }
    }
  }

  /** On a sorted list the search reports the sentinel exactly when the
      target does not occur, and otherwise an index holding the target. */
  lemma SearchCorrect(arr: seq<int>, target: int)
    requires Sorted(arr)
    ensures Search(arr, target) == NotFound <==> target !in arr
    ensures target in arr ==> 0 <= Search(arr, target) < |arr| && arr[Search(arr, target)] == target
  {
    if Search(arr, target) == NotFound {
      NotFoundMeansAbsent(arr, target, Initial(arr));
    }
  }

  /** When the list is sorted strictly ascending, the search finds the one
      index that holds the target. */
  lemma SearchFindsUniqueIndex(arr: seq<int>, target: int, i: int)
    requires StrictlySorted(arr)
    requires 0 <= i < |arr| && arr[i] == target
    ensures Search(arr, target) == i
  {
    SearchCorrect(arr, target);
  }

  /** Sortedness is needed for completeness: on `[2, 1]` the first probe sees
      2, discards the right half and misses the 1 it held. */
  lemma UnsortedMayMiss()
    ensures 1 in [2, 1] && Search([2, 1], 1) == NotFound
  {
    var arr := [2, 1];
    assert arr[1] == 1;
    assert Mid(Window(0, 1)) == 0;
    assert SearchFrom(arr, 1, Window(0, 1)) == SearchFrom(arr, 1, Window(0, -1));
  }

  /** The script's example call: 11 sits at index 5 of the odd numbers
      1 to 19, found by probing indices 4, 7 and 5. */
  lemma DriverExample()
    ensures Search([1, 3, 5, 7, 9, 11, 13, 15, 17, 19], 11) == 5
  {
    var arr := [1, 3, 5, 7, 9, 11, 13, 15, 17, 19];
    assert Probe(arr, 11, Window(0, 9)) == Narrow(Window(5, 9));
    assert Probe(arr, 11, Window(5, 9)) == Narrow(Window(5, 6));
    assert Probe(arr, 11, Window(5, 6)) == Hit(5);
  }

  /** The loop of `binary_search`. It keeps the window inside the list, so
      every probe `arr[mid]` is in bounds; on a sorted list it keeps every
      occurrence of the target inside the window; and each round that does
      not return shrinks the window. The result is that of the reference
      definition. */
  method BinarySearchLoop(arr: seq<int>, target: int) returns (r: int)
    ensures r == Search(arr, target)
    ensures IsResultShape(r, |arr|)
    ensures r != NotFound ==> arr[r] == target
    ensures Sorted(arr) ==> (r == NotFound <==> target !in arr)
  {
    var left, right := 0, |arr| - 1;
    while left <= right
      invariant 0 <= left <= right + 1 <= |arr|
      invariant SearchFrom(arr, target, Window(left, right)) == Search(arr, target)
      invariant Sorted(arr) ==> Excludes(arr, target, Window(left, right))
      decreases right - left + 1
    {
      ghost var w := Window(left, right);
      var mid := (left + right) / 2;
      assert mid == Mid(w);
      if Sorted(arr) && arr[mid] != target {
        ProbePreservesExclusion(arr, target, w);
      }
      if arr[mid] == target {
        return mid;
      } else if arr[mid] < target {
        left := mid + 1;
      } else {
        right := mid - 1;
      }
      assert Probe(arr, target, w) == Narrow(Window(left, right));
    }
    return NotFound;
  }
}
