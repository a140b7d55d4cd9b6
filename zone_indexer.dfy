/** Zones of the grid and the forward mapping from a black module to its
    animatable identity `(zone, rank)`. */
module ZoneIndexer {
  import opened QRGrid

  // ---------------------------------------------------------------------
  // Zones and the clipped row-major scan of one zone
  // ---------------------------------------------------------------------

  /** The zone of a module. Module coordinates are non-negative, where
      Swift's truncating division and Dafny's agree. */
  function ZoneOf(p: IntPoint): IntPoint
    requires 0 <= p.x && 0 <= p.y
  {
    IntPoint(p.x / 3, p.y / 3)
  }

  /** The row offset of step `k` (0 to 8) of a zone scan: the outer loop's
      `yOffset`, i.e. `k / 3`, written out by cases for the three rows. */
  function StepRow(k: int): int
  {
    if k < 3 then 0 else if k < 6 then 1 else 2
  }

  /** The column offset of step `k`: the inner loop's `xOffset`, `k % 3`. */
  function StepCol(k: int): int
  {
    if k < 3 then k else if k < 6 then k - 3 else k - 6
  }

  /** The cell visited at step `k` of the scan of `zone`. */
  function ScanCell(zone: IntPoint, k: int): IntPoint
  {
    IntPoint(zone.x * 3 + StepCol(k), zone.y * 3 + StepRow(k))
  }

  /** Step `k` passes both `where` clauses of the scan: its row and its
      column lie below the grid size `n`. */
  predicate Scanned(n: int, zone: IntPoint, k: int)
  {
    zone.y * 3 + StepRow(k) < n && zone.x * 3 + StepCol(k) < n
  }

  /** The step at which the scan of a module's own zone meets the module. */
  function ScanIndex(p: IntPoint): (k: int)
    requires 0 <= p.x && 0 <= p.y
    ensures 0 <= k < 9
    ensures ScanCell(ZoneOf(p), k) == p
  {
    3 * (p.y % 3) + p.x % 3
  }

  /** The scan of `zone` reads no negative coordinate: the zone is
      non-negative, or the `where` clauses skip every step. */
  predicate ScanReadable(n: int, zone: IntPoint)
  {
    (0 <= zone.x && 0 <= zone.y) || n <= zone.x * 3 || n <= zone.y * 3
  }

  /** The scan reads only cells inside the grid, partial edge zones included,
      exactly when `ScanReadable` holds. */
  lemma ScanStaysInGrid(n: int, zone: IntPoint)
    ensures ScanReadable(n, zone) <==>
              forall k :: 0 <= k < 9 && Scanned(n, zone, k) ==> InGrid(n, ScanCell(zone, k))
  {
    if !ScanReadable(n, zone) {
      assert Scanned(n, zone, 0) && !InGrid(n, ScanCell(zone, 0));
    }
  }

  /** A scanned step of a non-negative zone lies in that zone, at that step. */
  lemma ScanCellInZone(zone: IntPoint, k: int)
    requires 0 <= zone.x && 0 <= zone.y && 0 <= k < 9
    ensures 0 <= ScanCell(zone, k).x && 0 <= ScanCell(zone, k).y
    ensures ZoneOf(ScanCell(zone, k)) == zone
    ensures ScanIndex(ScanCell(zone, k)) == k
  {
  }

  /** The black cells the scan of `zone` meets in its first `k` steps, in
      the order it meets them. */
  function BlackScan(qr: QR, zone: IntPoint, k: int): seq<IntPoint>
    requires Valid(qr) && ScanReadable(Size(qr), zone) && 0 <= k <= 9
  {
    if k == 0 then []
    else
      var c := ScanCell(zone, k - 1);
      BlackScan(qr, zone, k - 1) +
        if Scanned(Size(qr), zone, k - 1) && !IsWhiteAt(qr, c) then [c] else []
  }

  /** All black cells of `zone`, in scan order. */
  function BlackCells(qr: QR, zone: IntPoint): seq<IntPoint>
    requires Valid(qr) && ScanReadable(Size(qr), zone)
  {
    BlackScan(qr, zone, 9)
  }

  lemma {:induction false} BlackScanLength(qr: QR, zone: IntPoint, k: int)
    requires Valid(qr) && ScanReadable(Size(qr), zone) && 0 <= k <= 9
    ensures |BlackScan(qr, zone, k)| <= k
  {
    if k > 0 {
      BlackScanLength(qr, zone, k - 1);
    }
  }

  /** A shorter scan is a prefix of a longer one. */
  lemma {:induction false} BlackScanPrefix(qr: QR, zone: IntPoint, j: int, k: int)
    requires Valid(qr) && ScanReadable(Size(qr), zone) && 0 <= j <= k <= 9
    ensures |BlackScan(qr, zone, j)| <= |BlackScan(qr, zone, k)|
    ensures forall i :: 0 <= i < |BlackScan(qr, zone, j)| ==> BlackScan(qr, zone, k)[i] == BlackScan(qr, zone, j)[i]
  {
    if j < k {
      BlackScanPrefix(qr, zone, j, k - 1);
    }
  }

  /** Every cell the scan reports is an in-bounds black module of `zone`,
      met before step `k`. */
  lemma {:induction false} BlackScanMembers(qr: QR, zone: IntPoint, k: int)
    requires Valid(qr) && ScanReadable(Size(qr), zone) && 0 <= k <= 9
    ensures forall i :: 0 <= i < |BlackScan(qr, zone, k)| ==>
              var c := BlackScan(qr, zone, k)[i];
              InBounds(qr, c) && !IsWhiteAt(qr, c) && ZoneOf(c) == zone && ScanIndex(c) < k
  {
    if k > 0 {
      BlackScanMembers(qr, zone, k - 1);
      if Scanned(Size(qr), zone, k - 1) {
        ScanCellInZone(zone, k - 1);
      }
    }
  }

  /** The scan meets cells in strictly increasing step order, so it never
      reports a cell twice. */
  lemma {:induction false} BlackScanIncreasing(qr: QR, zone: IntPoint, k: int, i: int, j: int)
    requires Valid(qr) && ScanReadable(Size(qr), zone) && 0 <= k <= 9
    requires 0 <= i < j < |BlackScan(qr, zone, k)|
    ensures InBounds(qr, BlackScan(qr, zone, k)[i]) && InBounds(qr, BlackScan(qr, zone, k)[j])
    ensures ScanIndex(BlackScan(qr, zone, k)[i]) < ScanIndex(BlackScan(qr, zone, k)[j])
  {
    var prev := BlackScan(qr, zone, k - 1);
    BlackScanMembers(qr, zone, k - 1);
    if Scanned(Size(qr), zone, k - 1) {
      ScanCellInZone(zone, k - 1);
    }
    assert BlackScan(qr, zone, k)[i] == prev[i];
    if j < |prev| {
      BlackScanIncreasing(qr, zone, k - 1, i, j);
      assert BlackScan(qr, zone, k)[j] == prev[j];
    }
  }

  /** Within its own zone, a module is met at exactly one step, and that
      step passes the `where` clauses when the module is in the grid. */
  lemma MetOnlyAtScanIndex(n: int, p: IntPoint, k: int)
    requires InGrid(n, p) && 0 <= k < 9
    ensures ScanCell(ZoneOf(p), k) == p <==> k == ScanIndex(p)
    ensures Scanned(n, ZoneOf(p), ScanIndex(p))
  {
  }

  /** Step `3 * yOffset + xOffset` is row `yOffset`, column `xOffset`. */
  lemma StepOffsets(yOffset: int, xOffset: int)
    requires 0 <= yOffset < ZoneSize && 0 <= xOffset < ZoneSize
    ensures StepRow(3 * yOffset + xOffset) == yOffset
    ensures StepCol(3 * yOffset + xOffset) == xOffset
  {
  }

  // ---------------------------------------------------------------------
  // The zone list
  // ---------------------------------------------------------------------

  /** Number of zones along one side. The source rounds the floating-point
      quotient `size / 3` away from zero; for a non-negative size that is
      the ceiling, the least `w` with `3 * w >= size`. */
  function ZoneWidth(n: nat): (w: nat)
    ensures 3 * w >= n
    ensures 3 * (w - 1) < n
  {
    (n + 2) / 3
  }

  /** Position of zone `(col, row)` in the row-major zone list. */
  function ZonePosition(w: int, row: int, col: int): int
  {
    row * w + col
  }

  /** The identities of row `row` of zones, rank 0. */
  function ZoneRow(w: nat, row: int): seq<AnimatableData>
  {
    seq(w, col => AnimatableData(IntPoint(col, row), 0))
  }

  /** The flat-mapped list of the first `rows` rows of zones. */
  function ZoneRows(w: nat, rows: nat): seq<AnimatableData>
  {
    if rows == 0 then [] else ZoneRows(w, rows - 1) + ZoneRow(w, rows - 1)
  }

  /** Every zone identity of a grid of size `n`, row by row, rank 0. */
  function ZoneIds(n: nat): seq<AnimatableData>
  {
    ZoneRows(ZoneWidth(n), ZoneWidth(n))
  }

  /** Zone `(col, row)` of a `rows`-row list sits inside the list. */
  lemma PositionInRange(w: nat, rows: nat, row: int, col: int)
    requires 0 <= row < rows && 0 <= col < w
    ensures 0 <= ZonePosition(w, row, col) < rows * w
  {
    assert row * w <= (rows - 1) * w by {
      assert (rows - 1) * w - row * w == (rows - 1 - row) * w;
    }
    assert rows * w == (rows - 1) * w + w;
  }

  lemma {:induction false} ZoneRowsLength(w: nat, rows: nat)
    ensures |ZoneRows(w, rows)| == rows * w
  {
    if rows > 0 {
      ZoneRowsLength(w, rows - 1);
      assert rows * w == (rows - 1) * w + w;
    }
  }

  lemma {:induction false} ZoneRowsAt(w: nat, rows: nat, row: int, col: int)
    requires 0 <= row < rows && 0 <= col < w
    ensures ZonePosition(w, row, col) < |ZoneRows(w, rows)|
    ensures ZoneRows(w, rows)[ZonePosition(w, row, col)] == AnimatableData(IntPoint(col, row), 0)
  {
    ZoneRowsLength(w, rows);
    PositionInRange(w, rows, row, col);
    ZoneRowsLength(w, rows - 1);
    if row < rows - 1 {
      PositionInRange(w, rows - 1, row, col);
      ZoneRowsAt(w, rows - 1, row, col);
    } else {
      assert ZonePosition(w, row, col) == |ZoneRows(w, rows - 1)| + col;
    }
  }

  lemma {:induction false} ZoneRowsEntries(w: nat, rows: nat)
    ensures forall d :: d in ZoneRows(w, rows) ==>
              d.blackPixelCount == 0 && 0 <= d.zone.x < w && 0 <= d.zone.y < rows
  {
    if rows > 0 {
      ZoneRowsEntries(w, rows - 1);
    }
  }

  /** A `w` by `w` zone list, laid out row by row. */
  lemma SquareZoneRows(w: nat)
    ensures |ZoneRows(w, w)| == w * w
    ensures forall row, col :: 0 <= row < w && 0 <= col < w ==>
              ZonePosition(w, row, col) < |ZoneRows(w, w)| &&
              ZoneRows(w, w)[ZonePosition(w, row, col)] == AnimatableData(IntPoint(col, row), 0)
    ensures forall d :: d in ZoneRows(w, w) ==> d.blackPixelCount == 0
  {
    ZoneRowsLength(w, w);
    ZoneRowsEntries(w, w);
    forall row, col | 0 <= row < w && 0 <= col < w
      ensures ZonePosition(w, row, col) < |ZoneRows(w, w)|
      ensures ZoneRows(w, w)[ZonePosition(w, row, col)] == AnimatableData(IntPoint(col, row), 0)
    {
      ZoneRowsAt(w, w, row, col);
    }
  }

  /** The zone list has `zoneWidth * zoneWidth` entries in row-major order:
      row outer, column inner. */
  lemma ZoneIdsLayout(n: nat)
    ensures |ZoneIds(n)| == ZoneWidth(n) * ZoneWidth(n)
    ensures forall row, col :: 0 <= row < ZoneWidth(n) && 0 <= col < ZoneWidth(n) ==>
              ZonePosition(ZoneWidth(n), row, col) < |ZoneIds(n)| &&
              ZoneIds(n)[ZonePosition(ZoneWidth(n), row, col)] == AnimatableData(IntPoint(col, row), 0)
  {
    var w := ZoneWidth(n);
    SquareZoneRows(w);
    assert ZoneIds(n) == ZoneRows(w, w);
  }

  /** The zone list holds exactly the zones of in-bounds modules, all with
      rank 0: each entry has its top-left module inside the grid, and every
      in-bounds module's zone is listed. */
  lemma ZoneIdsCoverGrid(n: nat)
    ensures forall d :: d in ZoneIds(n) ==>
              d.blackPixelCount == 0 && InGrid(n, IntPoint(d.zone.x * 3, d.zone.y * 3))
    ensures forall p :: InGrid(n, p) ==> AnimatableData(ZoneOf(p), 0) in ZoneIds(n)
  {
    var w, ids := ZoneWidth(n), ZoneIds(n);
    assert ids == ZoneRows(w, w);
    ZoneRowsEntries(w, w);
    forall d | d in ids
      ensures InGrid(n, IntPoint(d.zone.x * 3, d.zone.y * 3))
    {
      assert d.zone.x <= w - 1 && d.zone.y <= w - 1;
    }
    forall p | InGrid(n, p) ensures AnimatableData(ZoneOf(p), 0) in ids {
      var row, col := p.y / 3, p.x / 3;
      assert row < w && col < w;
      ZoneRowsAt(w, w, row, col);
      assert ids[ZonePosition(w, row, col)] == AnimatableData(ZoneOf(p), 0);
    }
  }

  // ---------------------------------------------------------------------
  // Forward mapping
  // ---------------------------------------------------------------------

  /** The identity of a module: none for a white module; for a black one,
      its zone and the number of black cells the zone's scan meets before it. */
  function Identity(qr: QR, p: IntPoint): (d: Option<AnimatableData>)
    requires Valid(qr) && InBounds(qr, p)
    ensures d.None? <==> IsWhiteAt(qr, p)
    ensures d.Some? ==> d.value.zone == ZoneOf(p)
  {
    if IsWhiteAt(qr, p) then None
    else Some(AnimatableData(ZoneOf(p), |BlackScan(qr, ZoneOf(p), ScanIndex(p))|))
  }

  /** A black module's rank is its position among its zone's black cells;
      in particular the scan always meets it (the internal-inconsistency
      trap is unreachable) and the rank is below `zoneSize * zoneSize`. */
  lemma RankIsPosition(qr: QR, p: IntPoint)
    requires Valid(qr) && InBounds(qr, p) && !IsWhiteAt(qr, p)
    ensures Identity(qr, p).value.blackPixelCount < |BlackCells(qr, ZoneOf(p))| <= 9
    ensures BlackCells(qr, ZoneOf(p))[Identity(qr, p).value.blackPixelCount] == p
  {
    var zone, k := ZoneOf(p), ScanIndex(p);
    assert Scanned(Size(qr), zone, k);
    assert BlackScan(qr, zone, k + 1) == BlackScan(qr, zone, k) + [p];
    BlackScanPrefix(qr, zone, k + 1, 9);
    BlackScanLength(qr, zone, 9);
  }

  /** Two distinct black modules of one zone get distinct ranks. */
  lemma DistinctRanks(qr: QR, p: IntPoint, q: IntPoint)
    requires Valid(qr) && InBounds(qr, p) && InBounds(qr, q)
    requires !IsWhiteAt(qr, p) && !IsWhiteAt(qr, q)
    requires p != q && ZoneOf(p) == ZoneOf(q)
    ensures Identity(qr, p) != Identity(qr, q)
  {
    RankIsPosition(qr, p);
    RankIsPosition(qr, q);
  }

  /** The ranks of a zone's black modules are exactly `0 .. k-1`, `k` the
      zone's black-cell count: the `i`-th black cell has rank `i`. */
  lemma RanksAreDense(qr: QR, zone: IntPoint, i: int)
    requires Valid(qr) && ScanReadable(Size(qr), zone)
    requires 0 <= i < |BlackCells(qr, zone)|
    ensures InBounds(qr, BlackCells(qr, zone)[i])
    ensures Identity(qr, BlackCells(qr, zone)[i]) == Some(AnimatableData(zone, i))
  {
    var cells := BlackCells(qr, zone);
    var c := cells[i];
    BlackScanMembers(qr, zone, 9);
    RankIsPosition(qr, c);
    var r := Identity(qr, c).value.blackPixelCount;
    if r != i {
      BlackScanIncreasing(qr, zone, 9, if r < i then r else i, if r < i then i else r);
    }
  }

  /** A step that meets a black cell appends it to the scan; the cell's
      ordinal among the zone's black cells is the count before the step. */
  lemma BlackStep(qr: QR, zone: IntPoint, k: int)
    requires Valid(qr) && ScanReadable(Size(qr), zone) && 0 <= k < 9
    requires Scanned(Size(qr), zone, k) && !IsWhiteAt(qr, ScanCell(zone, k))
    ensures BlackScan(qr, zone, k + 1) == BlackScan(qr, zone, k) + [ScanCell(zone, k)]
    ensures |BlackScan(qr, zone, k)| < |BlackCells(qr, zone)|
    ensures BlackCells(qr, zone)[|BlackScan(qr, zone, k)|] == ScanCell(zone, k)
    ensures BlackCells(qr, zone)[0] == BlackScan(qr, zone, k + 1)[0]
  {
    BlackScanPrefix(qr, zone, k + 1, 9);
  }

  /** A step that meets no black cell leaves the scan unchanged. */
  lemma OtherStep(qr: QR, zone: IntPoint, k: int)
    requires Valid(qr) && ScanReadable(Size(qr), zone) && 0 <= k < 9
    requires !Scanned(Size(qr), zone, k) || IsWhiteAt(qr, ScanCell(zone, k))
    ensures BlackScan(qr, zone, k + 1) == BlackScan(qr, zone, k)
  {
  }

  /** A row the outer `where` clause skips adds no black cell. */
  lemma RowSkipped(qr: QR, zone: IntPoint, yOffset: int)
    requires Valid(qr) && ScanReadable(Size(qr), zone) && 0 <= yOffset < ZoneSize
    requires Size(qr) <= zone.y * 3 + yOffset
    ensures BlackScan(qr, zone, 3 * yOffset + 3) == BlackScan(qr, zone, 3 * yOffset)
  {
    var k := 3 * yOffset;
    assert BlackScan(qr, zone, k + 1) == BlackScan(qr, zone, k);
    assert BlackScan(qr, zone, k + 2) == BlackScan(qr, zone, k + 1);
    assert BlackScan(qr, zone, k + 3) == BlackScan(qr, zone, k + 2);
  }

  /** `animationData(for:)`: the nested scan over the zone, counting black
      cells until it meets `p`. */
  method AnimationData(qr: QR, p: IntPoint) returns (r: Option<AnimatableData>)
    requires Valid(qr) && InBounds(qr, p)
    ensures r == Identity(qr, p)
  {
    if IsWhiteAt(qr, p) {
      return None;
    }
    var zone := ZoneOf(p);
    ghost var target := ScanIndex(p);
    var blackPixelCount := 0;
    for yOffset := 0 to ZoneSize
      invariant blackPixelCount == |BlackScan(qr, zone, 3 * yOffset)|
      invariant 3 * yOffset <= target
    {
      if zone.y * 3 + yOffset < Size(qr) {
        for xOffset := 0 to ZoneSize
          invariant blackPixelCount == |BlackScan(qr, zone, 3 * yOffset + xOffset)|
          invariant 3 * yOffset + xOffset <= target
        {
          ghost var k := 3 * yOffset + xOffset;
          StepOffsets(yOffset, xOffset);
          MetOnlyAtScanIndex(Size(qr), p, k);
          if zone.x * 3 + xOffset < Size(qr) {
            var position := IntPoint(zone.x * 3 + xOffset, zone.y * 3 + yOffset);
            assert position == ScanCell(zone, k);
            if !IsWhiteAt(qr, position) {
              BlackStep(qr, zone, k);
              if position == p {
                assert k == target;
                return Some(AnimatableData(zone, blackPixelCount));
              }
              blackPixelCount := blackPixelCount + 1;
            } else {
              OtherStep(qr, zone, k);
            }
          } else {
            OtherStep(qr, zone, k);
          }
        }
      } else {
        StepOffsets(yOffset, 0);
        MetOnlyAtScanIndex(Size(qr), p, 3 * yOffset);
        RowSkipped(qr, zone, yOffset);
      }
    }
    assert false;
  }
}
