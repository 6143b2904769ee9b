# Binary search, modelled in Dafny

This project models `binary_search(arr, target)` from `test.py`. It is an
iterative binary search over a Python list. The search keeps a closed window
`[left, right]`. Each round probes `mid = (left + right) // 2`:

- if `arr[mid]` equals the target, the search returns `mid`;
- if it is smaller, `left` moves to `mid + 1`;
- if it is larger, `right` moves to `mid - 1`.

When the window is empty (`left > right`), the search returns `-1`.

Everything is in `binary_search.dfy`, in module `BinarySearch`:

- `Window`, `Initial`, `Mid` and `Probe` model the search window, its starting value, the probe index and one round of the loop.
- `SearchFrom` and `Search` are a recursive reference definition of the loop.
- `BinarySearchLoop` is the `while` loop as written. It is proved to return the same value as `Search`.
- The lemmas say what the result means:
  - For any list, sorted or not, a result other than `-1` is an index that holds the target.
  - On a list sorted ascending, `-1` means the target is absent.
  - On a list sorted strictly ascending (so without repeated elements), the result is the target's unique index.
  - Sortedness is needed: an unsorted list can hide the target.
  - The script's example call (11 in the odd numbers 1 to 19) gives 5.

Python integers are unbounded, so `int` models them with no wrap-around.
Python's `//` rounds toward negative infinity and Dafny's `/` is Euclidean.
The two agree for a positive divisor, which is the only case the search uses.

## Model

| member | source | states |
|---|---|---|
| BinarySearch.BinarySearchLoop | test.py:1-18 | The loop returns exactly what the reference search returns. The result is `-1` or an index into the list. A returned index holds the target. On a sorted list, `-1` is returned exactly when the target is absent. Loop invariants keep `0 <= left <= right + 1 <= len(arr)`, so every `arr[mid]` is in bounds. On sorted input they keep every occurrence of the target inside the window. The window size `right - left + 1` decreases on each round that does not return. |
| BinarySearch.Search | test.py:1-18 | Whatever the order of the list, the result is `-1` or a valid index, and a valid index holds the target. An empty list gives `-1`. |
| BinarySearch.SearchFrom | test.py:4-18 | Searching from any in-bounds window returns `-1` or an index inside that window which holds the target. Termination rests on the window shrinking each round. |
| BinarySearch.Initial | test.py:2 | The starting window `[0, len(arr) - 1]` lies inside the list and covers all of it. It is empty exactly when the list is empty, so the loop body never runs on an empty list. |
| BinarySearch.Mid | test.py:5 | The probe `(left + right) // 2` lies inside a non-empty window and splits it into halves that differ by at most one index. |
| BinarySearch.Probe | test.py:5-15 | One round stops exactly when `arr[mid]` equals the target, and then returns `mid`. Otherwise it keeps `[mid + 1, right]` when `arr[mid]` is smaller and `[left, mid - 1]` when it is larger. The new window stays in bounds and is strictly smaller. |
| BinarySearch.ProbePreservesExclusion | test.py:11-15 | On a sorted list, if every index left of the window holds an element below the target and every index right of it an element above, this still holds after a narrowing round. |
| BinarySearch.NotFoundMeansAbsent | test.py:4-18 | On a sorted list, a `-1` result from a window that holds every occurrence of the target means the target occurs nowhere in the list. |
| BinarySearch.SearchCorrect | test.py:1-20 | On a list sorted ascending, as the script assumes, the search returns `-1` if and only if the target is absent. When the target is present, the result is an index holding it. |
| BinarySearch.SearchFindsUniqueIndex | test.py:1-18 | On a strictly ascending list, the search returns the one index that holds the target. |
| BinarySearch.UnsortedMayMiss | test.py:11-15 | Completeness needs sortedness: on `[2, 1]` the search for 1 returns `-1` although 1 is present. |
| BinarySearch.DriverExample | test.py:21-25 | For the script's example call on `[1, 3, 5, ..., 19]` with target 11, the search gives 5. |

## Left out

- The script's console output and f-string messages (test.py:28-31): these are I/O only.
- Which index is returned when the target occurs more than once: the code makes no first- or last-occurrence promise, so the model states none. On a sorted list with repeated elements, it promises only some index that holds the target. On an unsorted list, it promises only `-1` or an index that holds the target.
- Element types other than integers: Python accepts any comparable elements, but the model fixes them to `int`.
- `app.py` (Flask routes and SQLAlchemy models): this is web and persistence plumbing over libraries that are not part of this model. Its only arithmetic is an unconditional `person_like + 1` (app.py:65). It also fails when `.first()` returns `None` for an unknown id (app.py:64), an error path this model does not cover.
- app.py has no per-user like toggle, no cascading delete and no post-scoped comments, so none of them is modelled.
- `static/blossom.js`: a canvas animation driven by random numbers and floating-point motion. It has no logic worth verifying.
