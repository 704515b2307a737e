/**
 * Post-processing of template-match correlation surfaces: the classmethods
 * of `CV` in image_tools/match.py.
 *
 * The correlation surface that OpenCV computes (normalised correlation
 * coefficient at every placement of the template) is an INPUT here: a grid
 * of real scores indexed `res[row][col]`.  So are the visiting order that
 * numpy's `argsort` produces, the location OpenCV's `minMaxLoc` reports, and
 * the per-scale results of the scale sweep.  Everything the source does with
 * those values is modelled.
 */
module Match {
  import opened Wrappers

  // ---------------------------------------------------------------------
  // Correlation surfaces
  // ---------------------------------------------------------------------

  /** A correlation surface, row-major: `res[row][col]`. */
  type Surface = seq<seq<real>>

  /** An index pair of the surface, in numpy's order (row, col). */
  datatype Cell = Cell(row: int, col: int)

  /** An integer pixel position (x, y), as OpenCV reports points. */
  datatype Point = Point(x: int, y: int)

  /** Every row of the surface has the same length. */
  predicate IsGrid(res: Surface)
  {
    forall i :: 0 <= i < |res| ==> |res[i]| == |res[0]|
  }

  predicate InBounds(res: Surface, c: Cell)
  {
    0 <= c.row < |res| && 0 <= c.col < |res[c.row]|
  }

  function Score(res: Surface, c: Cell): real
    requires InBounds(res, c)
  {
    res[c.row][c.col]
  }

  /** The surface has at least one placement of the template. */
  predicate NonEmpty(res: Surface)
  {
    IsGrid(res) && |res| > 0 && |res[0]| > 0
  }

  /** `loc`, an OpenCV point (x = column, y = row), is a cell of maximal score. */
  ghost predicate IsMaxLoc(res: Surface, loc: Point)
  {
    && InBounds(res, Cell(loc.y, loc.x))
    && forall c :: InBounds(res, c) ==> Score(res, c) <= Score(res, Cell(loc.y, loc.x))
  }

  /** The largest entry of a non-empty row. */
  function RowMax(row: seq<real>): (m: real)
    requires |row| > 0
    ensures forall j :: 0 <= j < |row| ==> row[j] <= m
    ensures exists j :: 0 <= j < |row| && row[j] == m
    decreases |row|
  {
    if |row| == 1 then row[0]
    else
      var rest := RowMax(row[1..]);
      assert forall j :: 1 <= j < |row| ==> row[j] == row[1..][j - 1];
      if row[0] >= rest then row[0] else rest
  }

  /** The global maximum of the surface: the `max_val` of `cv2.minMaxLoc`. */
  function SurfaceMax(res: Surface): (m: real)
    requires |res| > 0 && forall i :: 0 <= i < |res| ==> |res[i]| > 0
    ensures forall c :: InBounds(res, c) ==> Score(res, c) <= m
    ensures exists c :: InBounds(res, c) && Score(res, c) == m
    decreases |res|
  {
    var first := RowMax(res[0]);
    assert exists c :: InBounds(res, c) && Score(res, c) == first by {
      var j :| 0 <= j < |res[0]| && res[0][j] == first;
      assert InBounds(res, Cell(0, j));
    }
    if |res| == 1 then first
    else
      var rest := SurfaceMax(res[1..]);
      assert forall c :: InBounds(res, c) && c.row > 0 ==>
        InBounds(res[1..], Cell(c.row - 1, c.col)) && Score(res, c) == Score(res[1..], Cell(c.row - 1, c.col));
      assert exists c :: InBounds(res, c) && Score(res, c) == rest by {
        var c :| InBounds(res[1..], c) && Score(res[1..], c) == rest;
        assert InBounds(res, Cell(c.row + 1, c.col));
      }
      if first >= rest then first else rest
  }

  // ---------------------------------------------------------------------
  // quick_match_exist and quick_match_position
  // ---------------------------------------------------------------------

  /** The centre `quick_match_position` returns, with exact halves. */
  datatype Center = Center(x: real, y: real)

  /** The exception `quick_match_position` raises. */
  datatype MatchError = NoMatchFound

  /**
   * `quick_match_exist`: whether the best placement reaches the threshold
   * (inclusive).  Equivalently: whether SOME placement does.
   */
  function QuickMatchExist(res: Surface, threshold: real): (found: bool)
    requires NonEmpty(res)
    ensures found <==> exists c :: InBounds(res, c) && Score(res, c) >= threshold
  {
    SurfaceMax(res) >= threshold
  }

  /**
   * `quick_match_position`: the centre of the template placed at the maximum
   * `maxLoc` reported by OpenCV, if that maximum exceeds the threshold
   * strictly; `NoMatchFound` otherwise.  `w` and `h` are the template width
   * and height; the halves are true divisions, not floor divisions.
   */
  function QuickMatchPosition(res: Surface, w: nat, h: nat, maxLoc: Point, threshold: real): (r: Result<Center, MatchError>)
    requires NonEmpty(res) && IsMaxLoc(res, maxLoc)
    ensures r.Ok? <==> exists c :: InBounds(res, c) && Score(res, c) > threshold
    ensures r.Err? ==> r.error == NoMatchFound
    ensures r.Ok? ==> (r.value.x - w as real / 2.0 == maxLoc.x as real &&
                       r.value.y - h as real / 2.0 == maxLoc.y as real)
  {
    var best := Score(res, Cell(maxLoc.y, maxLoc.x));
    if best > threshold then
      Ok(Center(maxLoc.x as real + w as real / 2.0, maxLoc.y as real + h as real / 2.0))
    else
      Err(NoMatchFound)
  }

  /**
   * The two quick tests disagree exactly when the maximum equals the
   * threshold: the existence test is inclusive, the position lookup strict.
   */
  lemma QuickTestsDisagreeOnlyAtThreshold(res: Surface, w: nat, h: nat, maxLoc: Point, threshold: real)
    requires NonEmpty(res) && IsMaxLoc(res, maxLoc)
    ensures QuickMatchPosition(res, w, h, maxLoc, threshold).Ok? ==> QuickMatchExist(res, threshold)
    ensures (QuickMatchExist(res, threshold) && QuickMatchPosition(res, w, h, maxLoc, threshold).Err?)
            <==> SurfaceMax(res) == threshold
  {
    var loc := Cell(maxLoc.y, maxLoc.x);
    var c :| InBounds(res, c) && Score(res, c) == SurfaceMax(res);
    assert Score(res, loc) == SurfaceMax(res);
  }

  /**
   * The centre `quick_match_position` reports for a cell and the centre
   * `find_image_matches` reports for the same cell differ only by the
   * half pixel that floor division drops on an odd template side.
   */
  lemma QuickCenterVersusFloorCenter(res: Surface, w: nat, h: nat, maxLoc: Point, threshold: real)
    requires NonEmpty(res) && IsMaxLoc(res, maxLoc)
    requires QuickMatchPosition(res, w, h, maxLoc, threshold).Ok?
    ensures var c := QuickMatchPosition(res, w, h, maxLoc, threshold).value;
            var p := CenterOf(Cell(maxLoc.y, maxLoc.x), w, h);
            && c.x == p.x as real + (if w % 2 == 1 then 0.5 else 0.0)
            && c.y == p.y as real + (if h % 2 == 1 then 0.5 else 0.0)
  {
    assert w as real / 2.0 == (w / 2) as real + (if w % 2 == 1 then 0.5 else 0.0);
    assert h as real / 2.0 == (h / 2) as real + (if h % 2 == 1 then 0.5 else 0.0);
  }

  // ---------------------------------------------------------------------
  // find_image_matches: greedy non-overlap selection
  // ---------------------------------------------------------------------

  /** One entry of the result: `((x, y), match_value)`. */
  datatype Found = Found(center: Point, score: real)

  /** The inputs of one selection: surface, template width and height, threshold, count. */
  datatype Search = Search(res: Surface, w: nat, h: nat, minThreshold: real, matchesCount: int)

  /** The centre of a placement, with floor halves: `(col + w // 2, row + h // 2)`. */
  function CenterOf(pt: Cell, w: nat, h: nat): Point
  {
    Point(pt.col + w / 2, pt.row + h / 2)
  }

  /** The result entry that accepting cell `pt` appends. */
  function FoundAt(q: Search, pt: Cell): Found
    requires InBounds(q.res, pt)
  {
    Found(CenterOf(pt, q.w, q.h), Score(q.res, pt))
  }

  /** The cell an entry was taken from: the inverse of CenterOf. */
  function CellOf(m: Found, w: nat, h: nat): Cell
  {
    Cell(m.center.y - h / 2, m.center.x - w / 2)
  }

  /**
   * The distance test as written: the stored CENTRE (x, y) is compared with
   * the candidate's raw index pair (row, col), x against row and y against
   * col, and found too close when it lies strictly inside the template
   * diagonal.  Both sides are squared, so the test is exact on integers.
   */
  predicate TooClose(center: Point, pt: Cell, w: nat, h: nat)
  {
    (center.x - pt.row) * (center.x - pt.row) + (center.y - pt.col) * (center.y - pt.col) < w * w + h * h
  }

  /** Some accepted entry is too close to the candidate. */
  predicate Overlaps(acc: seq<Found>, pt: Cell, w: nat, h: nat)
  {
    exists j :: 0 <= j < |acc| && TooClose(acc[j].center, pt, w, h)
  }

  /** The accepted list after visiting a candidate that does not end the scan. */
  function Admit(q: Search, acc: seq<Found>, pt: Cell): seq<Found>
    requires InBounds(q.res, pt)
  {
    if Overlaps(acc, pt, q.w, q.h) then acc else acc + [FoundAt(q, pt)]
  }

  predicate AllInBounds(res: Surface, order: seq<Cell>)
  {
    forall k :: 0 <= k < |order| ==> InBounds(res, order[k])
  }

  predicate NonIncreasing(res: Surface, order: seq<Cell>)
    requires AllInBounds(res, order)
  {
    forall k, l :: 0 <= k < l < |order| ==> Score(res, order[k]) >= Score(res, order[l])
  }

  /** No cell is visited twice. */
  predicate Distinct(order: seq<Cell>)
  {
    forall k, l :: 0 <= k < l < |order| ==> order[k] != order[l]
  }

  /**
   * `order` is what the reversed `argsort` can yield: every cell of the
   * grid exactly once, scores non-increasing.  Among equal scores the order
   * is left open.
   */
  ghost predicate IsDescendingOrder(res: Surface, order: seq<Cell>)
  {
    && IsGrid(res)
    && AllInBounds(res, order)
    && Distinct(order)
    && (forall c :: InBounds(res, c) ==> c in order)
    && NonIncreasing(res, order)
  }

  /**
   * The rest of the scan, from accepted list `acc` over the remaining
   * candidates `order`.  A non-overlapping candidate below the threshold
   * ends it; so does the accepted list reaching `matchesCount`, which is
   * tested after every candidate.
   */
  function Scan(q: Search, order: seq<Cell>, acc: seq<Found>): seq<Found>
    requires AllInBounds(q.res, order)
    decreases |order|
  {
    if order == [] then acc
    else if !Overlaps(acc, order[0], q.w, q.h) && Score(q.res, order[0]) < q.minThreshold then acc
    else
      var acc' := Admit(q, acc, order[0]);
      if |acc'| == q.matchesCount then acc' else Scan(q, order[1..], acc')
  }

  /** What `find_image_matches` returns for visiting order `order`. */
  function Select(q: Search, order: seq<Cell>): seq<Found>
    requires AllInBounds(q.res, order)
  {
    Scan(q, order, [])
  }

  /** One step of the scan, at position `i` of the visiting order. */
  lemma ScanAt(q: Search, order: seq<Cell>, i: int, acc: seq<Found>)
    requires AllInBounds(q.res, order) && 0 <= i < |order|
    ensures !Overlaps(acc, order[i], q.w, q.h) && Score(q.res, order[i]) < q.minThreshold ==>
              Scan(q, order[i..], acc) == acc
    ensures (Overlaps(acc, order[i], q.w, q.h) || Score(q.res, order[i]) >= q.minThreshold)
            && |Admit(q, acc, order[i])| == q.matchesCount ==>
              Scan(q, order[i..], acc) == Admit(q, acc, order[i])
    ensures (Overlaps(acc, order[i], q.w, q.h) || Score(q.res, order[i]) >= q.minThreshold)
            && |Admit(q, acc, order[i])| != q.matchesCount ==>
              Scan(q, order[i..], acc) == Scan(q, order[i + 1..], Admit(q, acc, order[i]))
  {
    assert order[i..][0] == order[i] && order[i..][1..] == order[i + 1..];
  }

  /**
   * `find_image_matches` after the surface is computed: the nested loop
   * over the sorted cells and the accepted list, with its early exits.
   * `order` is the reversed `argsort` of the surface (IsDescendingOrder);
   * the loop itself relies only on its cells lying on the surface, and the
   * properties that need the descending order are in SelectProperties.
   */
  method FindImageMatches(res: Surface, w: nat, h: nat, minThreshold: real, matchesCount: int, order: seq<Cell>)
    returns (matches: seq<Found>)
    requires AllInBounds(res, order)
    ensures matches == Select(Search(res, w, h, minThreshold, matchesCount), order)
  {
    ghost var q := Search(res, w, h, minThreshold, matchesCount);
    ghost var target := Select(q, order);
    matches := [];
    var i := 0;
    while i < |order|
      invariant 0 <= i <= |order|
      invariant Scan(q, order[i..], matches) == target
    {
      var pt := order[i];
      ghost var before := matches;
      ScanAt(q, order, i, before);
      var overlap := false;
      var j := 0;
      while j < |matches|
        invariant 0 <= j <= |matches|
        invariant !overlap
        invariant forall j' :: 0 <= j' < j ==> !TooClose(matches[j'].center, pt, w, h)
      {
        if TooClose(matches[j].center, pt, w, h) {
          overlap := true;
          break;
        }
        j := j + 1;
      }
      assert overlap == Overlaps(matches, pt, w, h);
      if !overlap {
        var center := Point(pt.col + w / 2, pt.row + h / 2);
        var matchValue := res[pt.row][pt.col];
        if matchValue < minThreshold {
          assert matches == target;
          break;
        }
        matches := matches + [Found(center, matchValue)];
      }
      assert matches == Admit(q, before, pt);
      if |matches| == matchesCount {
        assert matches == target;
        break;
      }
      i := i + 1;
    }
    assert i == |order| ==> order[i..] == [];
  }

  // Properties of the selection -----------------------------------------

  predicate ScoresNonIncreasing(r: seq<Found>)
  {
    forall i, j :: 0 <= i < j < |r| ==> r[i].score >= r[j].score
  }

  predicate AllAtLeast(r: seq<Found>, minThreshold: real)
  {
    forall i :: 0 <= i < |r| ==> r[i].score >= minThreshold
  }

  /** No entry's cell is too close, by the source's test, to an earlier entry's centre. */
  predicate WellSpaced(r: seq<Found>, w: nat, h: nat)
  {
    forall i, j :: 0 <= i < j < |r| ==> !TooClose(r[i].center, CellOf(r[j], w, h), w, h)
  }

  /** Every entry is `FoundAt` of a cell in `cells`. */
  predicate FromCells(q: Search, cells: seq<Cell>, r: seq<Found>)
  {
    forall i :: 0 <= i < |r| ==>
      var c := CellOf(r[i], q.w, q.h);
      c in cells && InBounds(q.res, c) && r[i] == FoundAt(q, c)
  }

  /**
   * Visited cell `order[k]` is too close to an entry of `r` whose cell was
   * visited before it: the reason the scan skips a candidate.
   */
  predicate BlockedEarlier(r: seq<Found>, order: seq<Cell>, k: int, w: nat, h: nat)
    requires 0 <= k < |order|
  {
    exists i :: 0 <= i < |r| && CellOf(r[i], w, h) in order[..k] && TooClose(r[i].center, order[k], w, h)
  }

  /**
   * The greedy rule, judged at visit time: from position `start` on, every
   * visited cell reaching the threshold was accepted, unless an entry
   * accepted before it is too close.
   */
  predicate Greedy(q: Search, r: seq<Found>, order: seq<Cell>, start: nat)
    requires AllInBounds(q.res, order)
  {
    forall k :: start <= k < |order| && Score(q.res, order[k]) >= q.minThreshold ==>
      FoundAt(q, order[k]) in r || BlockedEarlier(r, order, k, q.w, q.h)
  }

  lemma {:induction false} ScanExtends(q: Search, order: seq<Cell>, acc: seq<Found>)
    requires AllInBounds(q.res, order)
    ensures acc <= Scan(q, order, acc)
    decreases |order|
  {
    if order != [] && (Overlaps(acc, order[0], q.w, q.h) || Score(q.res, order[0]) >= q.minThreshold) {
      var acc' := Admit(q, acc, order[0]);
      if |acc'| != q.matchesCount {
        ScanExtends(q, order[1..], acc');
      }
    }
  }

  lemma {:induction false} ScanSorted(q: Search, order: seq<Cell>, acc: seq<Found>)
    requires AllInBounds(q.res, order) && NonIncreasing(q.res, order)
    requires ScoresNonIncreasing(acc)
    requires forall i, k :: 0 <= i < |acc| && 0 <= k < |order| ==> acc[i].score >= Score(q.res, order[k])
    ensures ScoresNonIncreasing(Scan(q, order, acc))
    decreases |order|
  {
    if order != [] && (Overlaps(acc, order[0], q.w, q.h) || Score(q.res, order[0]) >= q.minThreshold) {
      var acc' := Admit(q, acc, order[0]);
      assert ScoresNonIncreasing(acc');
      assert forall i, k :: 0 <= i < |acc'| && 0 <= k < |order[1..]| ==> acc'[i].score >= Score(q.res, order[1..][k]) by {
        forall i, k | 0 <= i < |acc'| && 0 <= k < |order[1..]|
          ensures acc'[i].score >= Score(q.res, order[1..][k])
        {
          assert order[1..][k] == order[k + 1];
          if i < |acc| {
            assert acc'[i] == acc[i];
          } else {
            assert acc'[i].score == Score(q.res, order[0]);
          }
        }
      }
      if |acc'| != q.matchesCount {
        ScanSorted(q, order[1..], acc');
      }
    }
  }

  lemma {:induction false} ScanAtLeast(q: Search, order: seq<Cell>, acc: seq<Found>)
    requires AllInBounds(q.res, order)
    requires AllAtLeast(acc, q.minThreshold)
    ensures AllAtLeast(Scan(q, order, acc), q.minThreshold)
    decreases |order|
  {
    if order != [] && (Overlaps(acc, order[0], q.w, q.h) || Score(q.res, order[0]) >= q.minThreshold) {
      var acc' := Admit(q, acc, order[0]);
      if |acc'| != q.matchesCount {
        ScanAtLeast(q, order[1..], acc');
      }
    }
  }

  lemma {:induction false} ScanWithinCap(q: Search, order: seq<Cell>, acc: seq<Found>)
    requires AllInBounds(q.res, order)
    requires |acc| < q.matchesCount
    ensures |Scan(q, order, acc)| <= q.matchesCount
    decreases |order|
  {
    if order != [] && (Overlaps(acc, order[0], q.w, q.h) || Score(q.res, order[0]) >= q.minThreshold) {
      var acc' := Admit(q, acc, order[0]);
      if |acc'| != q.matchesCount {
        ScanWithinCap(q, order[1..], acc');
      }
    }
  }

  lemma {:induction false} ScanWellSpaced(q: Search, order: seq<Cell>, acc: seq<Found>)
    requires AllInBounds(q.res, order)
    requires WellSpaced(acc, q.w, q.h)
    ensures WellSpaced(Scan(q, order, acc), q.w, q.h)
    decreases |order|
  {
    if order != [] && (Overlaps(acc, order[0], q.w, q.h) || Score(q.res, order[0]) >= q.minThreshold) {
      var pt := order[0];
      var acc' := Admit(q, acc, pt);
      if !Overlaps(acc, pt, q.w, q.h) {
        assert CellOf(acc'[|acc|], q.w, q.h) == pt;
        forall i, j | 0 <= i < j < |acc'|
          ensures !TooClose(acc'[i].center, CellOf(acc'[j], q.w, q.h), q.w, q.h)
        {
          assert acc'[i] == acc[i];
          if j < |acc| {
            assert acc'[j] == acc[j];
          }
        }
      }
      if |acc'| != q.matchesCount {
        ScanWellSpaced(q, order[1..], acc');
      }
    }
  }

  lemma {:induction false} ScanFromCells(q: Search, cells: seq<Cell>, order: seq<Cell>, acc: seq<Found>)
    requires AllInBounds(q.res, order)
    requires forall k :: 0 <= k < |order| ==> order[k] in cells
    requires FromCells(q, cells, acc)
    ensures FromCells(q, cells, Scan(q, order, acc))
    decreases |order|
  {
    if order != [] && (Overlaps(acc, order[0], q.w, q.h) || Score(q.res, order[0]) >= q.minThreshold) {
      var pt := order[0];
      var acc' := Admit(q, acc, pt);
      assert FromCells(q, cells, acc') by {
        forall i | 0 <= i < |acc'|
          ensures var c := CellOf(acc'[i], q.w, q.h); c in cells && InBounds(q.res, c) && acc'[i] == FoundAt(q, c)
        {
          if i < |acc| {
            assert acc'[i] == acc[i];
          } else {
            assert acc'[i] == FoundAt(q, pt) && CellOf(acc'[i], q.w, q.h) == pt;
          }
        }
      }
      assert forall k :: 0 <= k < |order[1..]| ==> order[1..][k] == order[k + 1];
      if |acc'| != q.matchesCount {
        ScanFromCells(q, cells, order[1..], acc');
      }
    }
  }

  /** Admitting `full[start]` keeps every accepted cell among those visited. */
  lemma AdmitVisited(q: Search, full: seq<Cell>, start: nat, acc: seq<Found>)
    requires AllInBounds(q.res, full) && start < |full|
    requires forall i :: 0 <= i < |acc| ==> CellOf(acc[i], q.w, q.h) in full[..start]
    ensures var acc' := Admit(q, acc, full[start]);
            forall i :: 0 <= i < |acc'| ==> CellOf(acc'[i], q.w, q.h) in full[..start + 1]
  {
    var acc' := Admit(q, acc, full[start]);
    assert full[..start + 1] == full[..start] + [full[start]];
    forall i | 0 <= i < |acc'|
      ensures CellOf(acc'[i], q.w, q.h) in full[..start + 1]
    {
      if i < |acc| {
        assert acc'[i] == acc[i];
      } else {
        assert CellOf(acc'[i], q.w, q.h) == full[start];
      }
    }
  }

  /**
   * A candidate that does not end the scan and reaches the threshold is in
   * the result, or an entry accepted before it blocks it.
   */
  lemma VisitedAccounted(q: Search, full: seq<Cell>, start: nat, acc: seq<Found>, r: seq<Found>)
    requires AllInBounds(q.res, full) && start < |full|
    requires forall i :: 0 <= i < |acc| ==> CellOf(acc[i], q.w, q.h) in full[..start]
    requires Admit(q, acc, full[start]) <= r
    ensures FoundAt(q, full[start]) in r || BlockedEarlier(r, full, start, q.w, q.h)
  {
    var pt := full[start];
    if Overlaps(acc, pt, q.w, q.h) {
      var j :| 0 <= j < |acc| && TooClose(acc[j].center, pt, q.w, q.h);
      assert r[j] == acc[j];
    } else {
      assert r[|acc|] == Admit(q, acc, pt)[|acc|] == FoundAt(q, pt);
    }
  }

  /**
   * Unless the count cap stopped it, the scan from position `start` of
   * `full` accepts every cell reaching the threshold that no earlier
   * acceptance blocks.  The threshold exit loses nothing, because later
   * cells score no higher.
   */
  lemma {:induction false} ScanMaximal(q: Search, full: seq<Cell>, start: nat, acc: seq<Found>)
    requires AllInBounds(q.res, full) && NonIncreasing(q.res, full) && start <= |full|
    requires forall i :: 0 <= i < |acc| ==> CellOf(acc[i], q.w, q.h) in full[..start]
    requires q.matchesCount <= 0 || |Scan(q, full[start..], acc)| < q.matchesCount
    ensures Greedy(q, Scan(q, full[start..], acc), full, start)
    decreases |full| - start
  {
    if start == |full| {
      return;
    }
    var pt := full[start];
    var r := Scan(q, full[start..], acc);
    ScanAt(q, full, start, acc);
    if !Overlaps(acc, pt, q.w, q.h) && Score(q.res, pt) < q.minThreshold {
      // every later candidate scores no higher than the one that ended the scan
      assert forall k :: start <= k < |full| ==> Score(q.res, full[k]) <= Score(q.res, pt);
      return;
    }
    var acc' := Admit(q, acc, pt);
    if Overlaps(acc, pt, q.w, q.h) {
      var j :| 0 <= j < |acc| && TooClose(acc[j].center, pt, q.w, q.h);
      assert |acc'| > 0;
    }
    assert |acc'| != q.matchesCount;
    assert r == Scan(q, full[start + 1..], acc');
    AdmitVisited(q, full, start, acc);
    ScanMaximal(q, full, start + 1, acc');
    ScanExtends(q, full[start + 1..], acc');
    VisitedAccounted(q, full, start, acc, r);
  }

  /**
   * A non-positive `matchesCount` never stops the scan: the result is the
   * one an unreachable cap would give.
   */
  lemma {:induction false} ScanCapInert(q: Search, big: int, order: seq<Cell>, acc: seq<Found>)
    requires AllInBounds(q.res, order)
    requires q.matchesCount <= 0 && big > |acc| + |order|
    ensures Scan(q, order, acc) == Scan(q.(matchesCount := big), order, acc)
    decreases |order|
  {
    var q' := q.(matchesCount := big);
    if order != [] && (Overlaps(acc, order[0], q.w, q.h) || Score(q.res, order[0]) >= q.minThreshold) {
      var pt := order[0];
      var acc' := Admit(q, acc, pt);
      assert Admit(q', acc, pt) == acc';
      if Overlaps(acc, pt, q.w, q.h) {
        var j :| 0 <= j < |acc| && TooClose(acc[j].center, pt, q.w, q.h);
      }
      assert |acc'| != q.matchesCount && |acc'| != big;
      ScanCapInert(q, big, order[1..], acc');
    }
  }

  lemma SelectCapInert(q: Search, order: seq<Cell>)
    requires AllInBounds(q.res, order) && q.matchesCount <= 0
    ensures Select(q, order) == Select(q.(matchesCount := |order| + 1), order)
  {
    ScanCapInert(q, |order| + 1, order, []);
  }

  /** The first `n` entries of `u`, or all of them when there are fewer. */
  function Truncate(u: seq<Found>, n: nat): (r: seq<Found>)
    ensures r <= u && |r| == if |u| > n then n else |u|
  {
    if |u| > n then u[..n] else u
  }

  /**
   * A positive cap only cuts the scan short: the result is the first
   * `matchesCount` entries of the scan under a cap it can never reach.
   */
  lemma {:induction false} ScanTruncates(q: Search, big: int, order: seq<Cell>, acc: seq<Found>)
    requires AllInBounds(q.res, order)
    requires 1 <= q.matchesCount && |acc| < q.matchesCount && big > |acc| + |order|
    ensures Scan(q, order, acc) == Truncate(Scan(q.(matchesCount := big), order, acc), q.matchesCount)
    decreases |order|
  {
    var q' := q.(matchesCount := big);
    if order != [] && (Overlaps(acc, order[0], q.w, q.h) || Score(q.res, order[0]) >= q.minThreshold) {
      var pt := order[0];
      var acc' := Admit(q, acc, pt);
      assert Admit(q', acc, pt) == acc';
      assert |acc'| != big;
      var u := Scan(q', order[1..], acc');
      assert Scan(q', order, acc) == u;
      if |acc'| == q.matchesCount {
        ScanExtends(q', order[1..], acc');
        assert u[..|acc'|] == acc';
      } else {
        ScanTruncates(q, big, order[1..], acc');
      }
    }
  }

  lemma SelectTruncates(q: Search, order: seq<Cell>)
    requires AllInBounds(q.res, order) && q.matchesCount >= 1
    ensures Select(q, order) == Truncate(Select(q.(matchesCount := |order| + 1), order), q.matchesCount)
  {
    ScanTruncates(q, |order| + 1, order, []);
  }

  /**
   * The entries' cells occur in `order` in the order they were returned; as
   * `order` has no repeated cell, they form a subsequence of it.
   */
  predicate InVisitOrder(r: seq<Found>, order: seq<Cell>, w: nat, h: nat)
  {
    forall i, j, k, l ::
      (0 <= i < j < |r| && 0 <= k < |order| && 0 <= l < |order| &&
       CellOf(r[i], w, h) == order[k] && CellOf(r[j], w, h) == order[l]) ==> k < l
  }

  lemma {:induction false} ScanInVisitOrder(q: Search, full: seq<Cell>, start: int, acc: seq<Found>)
    requires AllInBounds(q.res, full) && Distinct(full) && 0 <= start <= |full|
    requires InVisitOrder(acc, full, q.w, q.h)
    requires forall i, k :: 0 <= i < |acc| && 0 <= k < |full| && CellOf(acc[i], q.w, q.h) == full[k] ==> k < start
    ensures InVisitOrder(Scan(q, full[start..], acc), full, q.w, q.h)
    decreases |full| - start
  {
    if start == |full| {
      assert full[start..] == [];
      return;
    }
    var pt := full[start];
    ScanAt(q, full, start, acc);
    if !Overlaps(acc, pt, q.w, q.h) && Score(q.res, pt) < q.minThreshold {
      return;
    }
    var acc' := Admit(q, acc, pt);
    if !Overlaps(acc, pt, q.w, q.h) {
      assert CellOf(acc'[|acc|], q.w, q.h) == pt;
      forall i, k | 0 <= i < |acc'| && 0 <= k < |full| && CellOf(acc'[i], q.w, q.h) == full[k]
        ensures k < start + 1
      {
        if i < |acc| {
          assert acc'[i] == acc[i];
        } else {
          assert full[k] == full[start];
        }
      }
      forall i, j, k, l | 0 <= i < j < |acc'| && 0 <= k < |full| && 0 <= l < |full|
          && CellOf(acc'[i], q.w, q.h) == full[k] && CellOf(acc'[j], q.w, q.h) == full[l]
        ensures k < l
      {
        assert acc'[i] == acc[i];
        if j < |acc| {
          assert acc'[j] == acc[j];
        } else {
          assert full[l] == full[start];
        }
      }
    }
    if |acc'| != q.matchesCount {
      ScanInVisitOrder(q, full, start + 1, acc');
    }
  }

  /** What `find_image_matches` promises about its result. */
  lemma SelectProperties(q: Search, order: seq<Cell>)
    requires IsDescendingOrder(q.res, order)
    ensures var r := Select(q, order);
      && ScoresNonIncreasing(r)
      && AllAtLeast(r, q.minThreshold)
      && (q.matchesCount >= 1 ==> |r| <= q.matchesCount)
      && WellSpaced(r, q.w, q.h)
      && FromCells(q, order, r)
      && InVisitOrder(r, order, q.w, q.h)
      && (q.matchesCount >= 1 ==> r == Truncate(Select(q.(matchesCount := |order| + 1), order), q.matchesCount))
      && ((q.matchesCount <= 0 || |r| < q.matchesCount) ==>
            forall k :: 0 <= k < |order| && Score(q.res, order[k]) >= q.minThreshold ==>
              FoundAt(q, order[k]) in r || BlockedEarlier(r, order, k, q.w, q.h))
      && (|q.res| == 0 || |q.res[0]| == 0 ==> r == [])
  {
    var r := Select(q, order);
    ScanSorted(q, order, []);
    ScanAtLeast(q, order, []);
    if q.matchesCount >= 1 {
      ScanWithinCap(q, order, []);
    }
    ScanWellSpaced(q, order, []);
    ScanFromCells(q, order, order, []);
    assert order[0..] == order;
    ScanInVisitOrder(q, order, 0, []);
    if q.matchesCount >= 1 {
      SelectTruncates(q, order);
    }
    if q.matchesCount <= 0 || |r| < q.matchesCount {
      ScanMaximal(q, order, 0, []);
    }
  }

  /**
   * Because the test compares a centre with a raw (row, col) pair, two
   * returned centres can lie one pixel apart with a 1x1 template, whose
   * diagonal is sqrt 2.
   */
  lemma ReturnedCentersCanBeCloserThanDiagonal()
    ensures var q := Search([[0.0, 1.0, 1.0]], 1, 1, 0.5, 5);
            var order := [Cell(0, 1), Cell(0, 2), Cell(0, 0)];
            var r := Select(q, order);
            && IsDescendingOrder(q.res, order)
            && r == [Found(Point(1, 0), 1.0), Found(Point(2, 0), 1.0)]
            && (r[1].center.x - r[0].center.x) * (r[1].center.x - r[0].center.x)
               + (r[1].center.y - r[0].center.y) * (r[1].center.y - r[0].center.y) < q.w * q.w + q.h * q.h
  {
    var q := Search([[0.0, 1.0, 1.0]], 1, 1, 0.5, 5);
    var order := [Cell(0, 1), Cell(0, 2), Cell(0, 0)];
    var a1 := [Found(Point(1, 0), 1.0)];
    var a2 := a1 + [Found(Point(2, 0), 1.0)];
    assert !Overlaps([], Cell(0, 1), 1, 1);
    assert Scan(q, order, []) == Scan(q, order[1..], a1);
    assert !TooClose(Point(1, 0), Cell(0, 2), 1, 1);
    assert !Overlaps(a1, Cell(0, 2), 1, 1);
    assert Scan(q, order[1..], a1) == Scan(q, order[2..], a2);
    assert TooClose(a2[0].center, Cell(0, 0), 1, 1);
    assert Scan(q, order[2..], a2) == Scan(q, [], a2);
    forall c | InBounds(q.res, c) ensures c in order {
      assert c == Cell(0, 0) || c == Cell(0, 1) || c == Cell(0, 2);
    }
  }

  /**
   * A non-positive `matchesCount` does not make the result empty: the first
   * visited cell is returned when it reaches the threshold.
   */
  lemma ZeroCountStillScans(q: Search, order: seq<Cell>)
    requires AllInBounds(q.res, order) && q.matchesCount <= 0
    requires order != [] && Score(q.res, order[0]) >= q.minThreshold
    ensures |Select(q, order)| >= 1 && Select(q, order)[0] == FoundAt(q, order[0])
  {
    var acc' := [FoundAt(q, order[0])];
    assert !Overlaps([], order[0], q.w, q.h);
    assert Admit(q, [], order[0]) == acc';
    assert Select(q, order) == Scan(q, order[1..], acc');
    ScanExtends(q, order[1..], acc');
  }

  // ---------------------------------------------------------------------
  // find_scale_and_position: best-so-far scan over the scale grid
  // ---------------------------------------------------------------------

  /**
   * What one scale contributes: the scale, the resized source's height and
   * width, and the maximum score and its location on that scale's surface
   * (meaningful only when the template fits).
   */
  datatype ScaleObservation = ScaleObservation(scale: real, height: int, width: int, maxVal: real, maxLoc: Point)

  /** `(best_scale, best_loc, best_match_val)`. */
  datatype ScaleResult = ScaleResult(scale: Option<real>, loc: Option<Point>, score: real)

  /** The starting value `(None, None, -1)`. */
  const NoScale := ScaleResult(None, None, -1.0)

  /** The template fits inside the resized source. */
  predicate Admissible(templateHeight: int, templateWidth: int, o: ScaleObservation)
  {
    !(templateHeight > o.height || templateWidth > o.width)
  }

  function ResultOf(o: ScaleObservation): ScaleResult
  {
    ScaleResult(Some(o.scale), Some(o.maxLoc), o.maxVal)
  }

  /** One iteration of the sweep. */
  function SweepStep(templateHeight: int, templateWidth: int, best: ScaleResult, o: ScaleObservation): ScaleResult
  {
    if !Admissible(templateHeight, templateWidth, o) then best
    else if o.maxVal > best.score then ResultOf(o)
    else best
  }

  /** The best-so-far value after the observations `obs`, in order. */
  function Sweep(templateHeight: int, templateWidth: int, obs: seq<ScaleObservation>): ScaleResult
    decreases |obs|
  {
    if obs == [] then NoScale
    else SweepStep(templateHeight, templateWidth, Sweep(templateHeight, templateWidth, obs[..|obs| - 1]), obs[|obs| - 1])
  }

  /**
   * `find_scale_and_position` after each scale's surface maximum is known:
   * skip scales where the template does not fit, replace the best on a
   * strictly greater maximum.
   */
  method FindScaleAndPosition(templateHeight: int, templateWidth: int, obs: seq<ScaleObservation>)
    returns (bestScale: Option<real>, bestLoc: Option<Point>, bestMatchVal: real)
    ensures ScaleResult(bestScale, bestLoc, bestMatchVal) == Sweep(templateHeight, templateWidth, obs)
  {
    bestScale, bestLoc, bestMatchVal := None, None, -1.0;
    for i := 0 to |obs|
      invariant ScaleResult(bestScale, bestLoc, bestMatchVal) == Sweep(templateHeight, templateWidth, obs[..i])
    {
      assert obs[..i + 1][..i] == obs[..i];
      var o := obs[i];
      if templateHeight > o.height || templateWidth > o.width {
        continue;
      }
      if o.maxVal > bestMatchVal {
        bestScale := Some(o.scale);
        bestLoc := Some(o.maxLoc);
        bestMatchVal := o.maxVal;
      }
    }
    assert obs[..|obs|] == obs;
  }

  /**
   * Index `k` is the earliest admissible scale whose maximum is the largest
   * among admissible scales, and that maximum beats the sentinel -1.
   */
  predicate IsFirstBest(templateHeight: int, templateWidth: int, obs: seq<ScaleObservation>, k: int)
  {
    && 0 <= k < |obs|
    && Admissible(templateHeight, templateWidth, obs[k])
    && obs[k].maxVal > -1.0
    && (forall j :: 0 <= j < |obs| && Admissible(templateHeight, templateWidth, obs[j]) ==> obs[j].maxVal <= obs[k].maxVal)
    && (forall j :: 0 <= j < k && Admissible(templateHeight, templateWidth, obs[j]) ==> obs[j].maxVal < obs[k].maxVal)
  }

  /** No admissible scale's maximum beats the sentinel. */
  predicate NoneAboveSentinel(templateHeight: int, templateWidth: int, obs: seq<ScaleObservation>)
  {
    forall j :: 0 <= j < |obs| && Admissible(templateHeight, templateWidth, obs[j]) ==> obs[j].maxVal <= -1.0
  }

  /** The sweep's score is at least the sentinel and every admissible maximum. */
  lemma {:induction false} SweepDominates(templateHeight: int, templateWidth: int, obs: seq<ScaleObservation>)
    ensures var r := Sweep(templateHeight, templateWidth, obs);
      && r.score >= -1.0
      && forall j :: 0 <= j < |obs| && Admissible(templateHeight, templateWidth, obs[j]) ==> obs[j].maxVal <= r.score
    decreases |obs|
  {
    if obs != [] {
      var n := |obs| - 1;
      SweepDominates(templateHeight, templateWidth, obs[..n]);
      assert forall j :: 0 <= j < n ==> obs[j] == obs[..n][j];
    }
  }

  /**
   * The sweep returns the sentinel exactly when no admissible scale beats
   * -1, and otherwise the scale, location and score of the earliest
   * admissible scale with the largest maximum.
   */
  lemma {:induction false} SweepFindsFirstBest(templateHeight: int, templateWidth: int, obs: seq<ScaleObservation>)
    ensures var r := Sweep(templateHeight, templateWidth, obs);
      && (r == NoScale <==> NoneAboveSentinel(templateHeight, templateWidth, obs))
      && (r != NoScale ==> exists k :: IsFirstBest(templateHeight, templateWidth, obs, k) && r == ResultOf(obs[k]))
    decreases |obs|
  {
    if obs == [] {
      return;
    }
    var n := |obs| - 1;
    var p := obs[..n];
    var o := obs[n];
    var b := Sweep(templateHeight, templateWidth, p);
    var r := Sweep(templateHeight, templateWidth, obs);
    SweepFindsFirstBest(templateHeight, templateWidth, p);
    SweepDominates(templateHeight, templateWidth, p);
    SweepDominates(templateHeight, templateWidth, obs);
    assert forall j :: 0 <= j < n ==> obs[j] == p[j];
    if r == NoScale {
      assert NoneAboveSentinel(templateHeight, templateWidth, obs);
    } else if r == b {
      var k :| IsFirstBest(templateHeight, templateWidth, p, k) && b == ResultOf(p[k]);
      assert IsFirstBest(templateHeight, templateWidth, obs, k);
    } else {
      assert r == ResultOf(o) && o.maxVal > b.score;
      assert IsFirstBest(templateHeight, templateWidth, obs, n);
    }
  }

  /** The returned scale is one of those swept, so it lies in any range holding them all. */
  lemma SweepScaleInRange(templateHeight: int, templateWidth: int, obs: seq<ScaleObservation>, lo: real, hi: real)
    requires forall k :: 0 <= k < |obs| ==> lo <= obs[k].scale < hi
    ensures var r := Sweep(templateHeight, templateWidth, obs);
            r.scale.Some? ==> lo <= r.scale.value < hi
  {
    SweepFindsFirstBest(templateHeight, templateWidth, obs);
  }
}
