# Template-match post-processing and the in-memory cache, in Dafny

This project models two parts of a desktop-automation toolkit.

**Match** (`match.dfy`) covers what the `CV` class in `src/image_tools/match.py` does with a correlation surface once OpenCV has computed it:

- `quick_match_exist` tests the surface maximum against a threshold, inclusively.
- `quick_match_position` returns the centre of the best placement, using exact halves, when the maximum beats the threshold strictly. Otherwise it raises "No match found".
- `find_image_matches` is a greedy scan over the cells in descending-score order. It keeps a growing list of accepted `((x, y), score)` entries. It skips a candidate that is too close to an accepted entry. It stops at the first non-overlapping candidate below `min_threshold`, or when the list reaches `matches_count`.
- `find_scale_and_position` is a best-so-far scan over the swept scales. It skips scales where the template does not fit and replaces the best only on a strictly greater maximum, starting from `(None, None, -1)`.

Some values come from outside the model and are inputs:

- The surface is a grid of `real` scores, `res[row][col]`.
- The visiting order of the scan is any duplicate-free enumeration of the grid with non-increasing scores. numpy's `argsort` fixes no order among equal scores.
- The maximum location is the one `cv2.minMaxLoc` reports. Its tie-breaking is OpenCV's own.
- Each swept scale is given as an observation: the scale, the resized height and width, and that scale's maximum score and its location.

Each loop is an imperative method proved equal to a specification function. The properties are lemmas about that function:

- `FindImageMatches` is proved against `Select`.
- `FindScaleAndPosition` is proved against `Sweep`.

**Cache** (`cache.dfy`) covers `CacheObject` in `src/io_tools/cache.py`. It is a class whose `entries` map is the `_cache` dictionary. `Set`, `Remove` and `Clear` update it in place. `Get` reads it. Each method's postcondition says what the new map is and that every other key keeps its value.

`wrappers.dfy` holds the `Option`, `Result` and `Outcome` types.

### Behaviour of the code worth knowing

- **Distance test.** The comment at `match.py:95` says the distance threshold is the template diagonal, and the list being built is named `non_overlapping`. The test itself, at `match.py:100`, compares a stored centre `(col + w//2, row + h//2)` with the candidate's raw index pair `(row, col)`, x against row. It does not compare two centres. The model keeps this test, squared on both sides so that it is exact on integers (`TooClose`). `ReturnedCentersCanBeCloserThanDiagonal` gives a concrete input: a 1×3 surface and a 1×1 template. On it, two returned centres lie one pixel apart, closer than the template diagonal (√2). What does hold is `WellSpaced`: each accepted cell passes the source's own test against every earlier centre.
- **Non-positive `matches_count`.** The count test at `match.py:111` is an equality checked after each candidate. Once the list is non-empty, a `matches_count` of 0 or less can never equal its length. So the cap never fires and the scan runs to the threshold or to the end of the surface (`SelectCapInert`, `ZeroCountStillScans`).
- **Ties.** The cells are visited in the reversed order of numpy's `argsort` (`match.py:90`), which fixes no order among equal scores. The model leaves that order open.

## Model

| member | source | states |
|---|---|---|
| `Match.SurfaceMax` | src/image_tools/match.py:32-37 | the value is an upper bound of every surface score and is attained by some cell (the `max_val` of `minMaxLoc`) |
| `Match.QuickMatchExist` | src/image_tools/match.py:28-38 | true iff some cell of the surface scores at least the threshold (inclusive test on the maximum) |
| `Match.QuickMatchPosition` | src/image_tools/match.py:40-56 | succeeds iff some cell scores strictly above the threshold; then returns `(x + w/2, y + h/2)` with exact halves at the reported maximum location; otherwise fails with NoMatchFound |
| `Match.QuickTestsDisagreeOnlyAtThreshold` | src/image_tools/match.py:32-56 | a successful position lookup implies the existence test holds; the existence test holds while the lookup fails exactly when the maximum equals the threshold |
| `Match.QuickCenterVersusFloorCenter` | src/image_tools/match.py:52-53 | the exact-half centre of `quick_match_position` exceeds the floor-division centre of `find_image_matches` for the same cell by 0.5 on each odd template side and by 0 otherwise |
| `Match.FindImageMatches` | src/image_tools/match.py:90-114 | the nested loop with its three `break`s returns exactly `Select` of the surface, template size, threshold, count and visiting order |
| `Match.SelectProperties` | src/image_tools/match.py:84-114 | for a descending visiting order the result is: in non-increasing score order; all scores at least `min_threshold`; no longer than `matches_count` when that is at least 1; well spaced by the source's distance test; every entry is `((col + w//2, row + h//2), res[row][col])` of a visited cell, and those cells occur in visiting order; for a positive `matches_count`, exactly the first `matches_count` entries of the uncapped scan; if the cap did not stop the scan, every visited cell scoring at least the threshold was accepted, or is too close to an entry whose cell was visited before it (the greedy rule, judged at visit time); and an empty surface gives an empty list |
| `Match.ScanTruncates` | src/image_tools/match.py:97-112 | with a positive cap the scan returns the first `matches_count` entries that the same scan returns under a cap it can never reach |
| `Match.SelectTruncates` | src/image_tools/match.py:111-112 | `find_image_matches` with a positive `matches_count` returns "the first n non-overlapping matches" of the uncapped scan |
| `Match.ScanInVisitOrder` | src/image_tools/match.py:97-110 | the cells of the returned entries occur in the visiting order in the order they were returned, so they form a subsequence of it |
| `Match.ScanSorted` | src/image_tools/match.py:90-110 | scanning a non-increasing order while only appending keeps the accepted scores non-increasing |
| `Match.ScanAtLeast` | src/image_tools/match.py:104-110 | no entry below `min_threshold` is ever appended |
| `Match.ScanWithinCap` | src/image_tools/match.py:111-112 | when the list starts shorter than a positive `matches_count`, it never grows beyond it |
| `Match.ScanWellSpaced` | src/image_tools/match.py:94-110 | each appended cell `(row, col)` satisfies `(c.x - row)^2 + (c.y - col)^2 >= w^2 + h^2` for every earlier accepted centre `c` |
| `Match.ScanFromCells` | src/image_tools/match.py:97-110 | every entry is the centre (floor halves) and score of a cell of the visiting order |
| `Match.ScanMaximal` | src/image_tools/match.py:97-112 | unless the count cap stopped the scan, each visited cell scoring at least the threshold was accepted, or lies too close to an entry accepted from a cell visited before it; the threshold exit loses nothing because later cells score no higher |
| `Match.ScanExtends` | src/image_tools/match.py:110 | the scan only appends: the accepted list is a prefix of the final result |
| `Match.ScanCapInert` | src/image_tools/match.py:111-112 | with `matches_count <= 0` the scan behaves exactly as with a cap it can never reach |
| `Match.SelectCapInert` | src/image_tools/match.py:111-112 | `find_image_matches` with `matches_count <= 0` returns what it returns with a cap above the number of cells |
| `Match.ReturnedCentersCanBeCloserThanDiagonal` | src/image_tools/match.py:100-106 | on a concrete surface and descending visiting order, two returned centres are one pixel apart, closer than the template diagonal |
| `Match.ZeroCountStillScans` | src/image_tools/match.py:104-112 | for any surface and visiting order, a `matches_count` of 0 or less still returns at least one entry, the first visited cell, when that cell reaches the threshold |
| `Match.FindScaleAndPosition` | src/image_tools/match.py:134-155 | the loop with its `continue` returns exactly `Sweep` of the template size and the per-scale observations |
| `Match.SweepDominates` | src/image_tools/match.py:136-153 | the best score is at least the sentinel -1 and at least every admissible scale's maximum |
| `Match.SweepFindsFirstBest` | src/image_tools/match.py:134-155 | the result is `(None, None, -1)` iff no admissible scale's maximum exceeds -1; otherwise it is the scale, location and maximum of the earliest admissible scale attaining the largest maximum (strict replacement keeps the earliest on ties) |
| `Match.SweepScaleInRange` | src/image_tools/match.py:139-153 | a returned scale is one of the swept scales, so it lies in any range containing them all |
| `Cache.CacheObject.constructor` | src/io_tools/cache.py:43-53 | a store created without a local database starts empty |
| `Cache.CacheObject.Set` | src/io_tools/cache.py:63-66 | the key now maps to the value, overwriting any old value (the warning condition is reported); every other key keeps its presence and value |
| `Cache.CacheObject.Get` | src/io_tools/cache.py:68-72 | returns the stored value when the key is present and None otherwise, without changing the store |
| `Cache.CacheObject.Remove` | src/io_tools/cache.py:74-77 | a present key is deleted and the call succeeds; an absent key fails with KeyError and leaves the store unchanged; other keys keep their values |
| `Cache.CacheObject.Clear` | src/io_tools/cache.py:79-80 | the store is empty afterwards |
| `Cache.SetGetRemoveGet` | src/io_tools/cache.py:21-28 | after `set(k, v)` a `get(k)` returns `v`; after `remove(k)` a `get(k)` returns None; the store ends as before minus `k` |

## Left out

- Correlation itself is not modelled: `cv2.matchTemplate` with `TM_CCOEFF_NORMED`, `cv2.minMaxLoc`, `cv2.resize` with `INTER_AREA`, `cv2.imread` and `cv2pil` are OpenCV calls with floating-point numerics. The surface, the reported maximum location and the per-scale observations are inputs instead.
- The scale grid `np.arange(lo, hi, step)` is not modelled: its float length rounding can add a last element near `hi`. The swept scales are a given sequence.
- Floating point is not modelled. Scores and thresholds are exact reals. The source raises both squared sums to the power `0.5` in floating point and compares the results (`match.py:94`, `match.py:100`). The candidate side is a numpy float64 power and the threshold side is a Python float power. The model compares the squared integer sums `a < b` instead. The two can differ only when rounding makes the powers of two different large integers equal.
- 64-bit wrap-around in numpy's squared index differences is not modelled: integers are unbounded.
- `Match.QuickMatchExist`, `Match.QuickMatchPosition`: require a non-empty surface, because `cv2.matchTemplate` never returns an empty one. It either returns a surface with at least one placement or raises, and that raise is OpenCV's own error path, which is not modelled.
- Default arguments are not modelled: every parameter is explicit in the model. The source's defaults are `threshold=0.95` (`match.py:31`), `threshold=0.90` (`match.py:43`), `min_threshold=0.9` and `matches_count=5` (`match.py:62-63`), and `scale_range=(0.5, 2.0)` with `scale_step=0.1` (`match.py:117`).
- Image loading and the `assert src is not None` checks of `find_image_matches` are I/O and are left out.
- `Match.FindImageMatches` requires only that the visiting order lies on the surface. The order being the descending sort is assumed by `SelectProperties`, which states the properties that need it.
- The cache's JSON persistence is not modelled: `_load`, `submit`, `__del__`, and the constructor given a `localdb` path are file I/O.
- The cache's `threading.Lock` is not modelled (concurrency). The singleton `__new__` is not modelled (process-global state).
- Warnings are not modelled as output. `Set` returns the condition under which it warns. The warnings of `Get` and `Remove` coincide with their `None` and `KeyError` outcomes.
- The cache test in `src/tests/test_cache.py` uses item syntax that `CacheObject` does not define, so it contributes no property.
- Screen capture and input devices are not part of this model: `src/io_tools/device.py`.
- Process control is not part of this model: `src/io_tools/systeminfo.py`.
- The background clean-up loop is not part of this model: `src/utils/background.py`.
- The web, server, configuration and logging code are not part of this model.
