/** A worked example on a 21 by 21 grid (a version-1 QR code): zone (0,0)
    holds black modules at (0,0), (1,0) and (2,2) and white ones elsewhere. */
module Scenario {
  import opened QRGrid
  import opened ZoneIndexer
  import opened IdentityMapper

  /** The grid's zone (0,0) is as in the example. */
  predicate ExampleZone(qr: QR)
    requires Valid(qr) && Size(qr) == 21
  {
    !IsWhiteAt(qr, IntPoint(0, 0)) && !IsWhiteAt(qr, IntPoint(1, 0)) && IsWhiteAt(qr, IntPoint(2, 0)) &&
    IsWhiteAt(qr, IntPoint(0, 1)) && IsWhiteAt(qr, IntPoint(1, 1)) && IsWhiteAt(qr, IntPoint(2, 1)) &&
    IsWhiteAt(qr, IntPoint(0, 2)) && IsWhiteAt(qr, IntPoint(1, 2)) && !IsWhiteAt(qr, IntPoint(2, 2))
  }

  /** The first row of zone (0,0): black, black, white. */
  lemma ExampleFirstRow(qr: QR)
    requires Valid(qr) && Size(qr) == 21
    requires !IsWhiteAt(qr, IntPoint(0, 0)) && !IsWhiteAt(qr, IntPoint(1, 0)) && IsWhiteAt(qr, IntPoint(2, 0))
    ensures BlackScan(qr, IntPoint(0, 0), 1) == [IntPoint(0, 0)]
    ensures BlackScan(qr, IntPoint(0, 0), 3) == [IntPoint(0, 0), IntPoint(1, 0)]
  {
    assert BlackScan(qr, IntPoint(0, 0), 1) == [IntPoint(0, 0)];
    assert BlackScan(qr, IntPoint(0, 0), 2) == [IntPoint(0, 0), IntPoint(1, 0)];
  }

  /** The second row of zone (0,0) is white. */
  lemma ExampleSecondRow(qr: QR)
    requires Valid(qr) && Size(qr) == 21
    requires IsWhiteAt(qr, IntPoint(0, 1)) && IsWhiteAt(qr, IntPoint(1, 1)) && IsWhiteAt(qr, IntPoint(2, 1))
    ensures BlackScan(qr, IntPoint(0, 0), 6) == BlackScan(qr, IntPoint(0, 0), 3)
  {
    assert BlackScan(qr, IntPoint(0, 0), 4) == BlackScan(qr, IntPoint(0, 0), 3);
    assert BlackScan(qr, IntPoint(0, 0), 5) == BlackScan(qr, IntPoint(0, 0), 3);
  }

  /** The third row of zone (0,0): white, white, black. */
  lemma ExampleThirdRow(qr: QR)
    requires Valid(qr) && Size(qr) == 21
    requires IsWhiteAt(qr, IntPoint(0, 2)) && IsWhiteAt(qr, IntPoint(1, 2)) && !IsWhiteAt(qr, IntPoint(2, 2))
    ensures BlackScan(qr, IntPoint(0, 0), 8) == BlackScan(qr, IntPoint(0, 0), 6)
    ensures BlackCells(qr, IntPoint(0, 0)) == BlackScan(qr, IntPoint(0, 0), 6) + [IntPoint(2, 2)]
  {
    assert BlackScan(qr, IntPoint(0, 0), 7) == BlackScan(qr, IntPoint(0, 0), 6);
  }

  /** The scan of zone (0,0) meets its black modules in the order (0,0),
      (1,0), (2,2). */
  lemma ExampleScan(qr: QR)
    requires Valid(qr) && Size(qr) == 21 && ExampleZone(qr)
    ensures BlackScan(qr, IntPoint(0, 0), 1) == [IntPoint(0, 0)]
    ensures BlackScan(qr, IntPoint(0, 0), 8) == [IntPoint(0, 0), IntPoint(1, 0)]
    ensures BlackCells(qr, IntPoint(0, 0)) == [IntPoint(0, 0), IntPoint(1, 0), IntPoint(2, 2)]
  {
    var z := IntPoint(0, 0);
    ExampleFirstRow(qr);
    ExampleSecondRow(qr);
    ExampleThirdRow(qr);
    assert BlackScan(qr, z, 8) == BlackScan(qr, z, 3);
    assert BlackCells(qr, z) == [IntPoint(0, 0), IntPoint(1, 0)] + [IntPoint(2, 2)];
  }

  /** The three black modules get ranks 0, 1 and 2 of zone (0,0). */
  lemma ExampleRanks(qr: QR)
    requires Valid(qr) && Size(qr) == 21 && ExampleZone(qr)
    ensures Identity(qr, IntPoint(0, 0)) == Some(AnimatableData(IntPoint(0, 0), 0))
    ensures Identity(qr, IntPoint(1, 0)) == Some(AnimatableData(IntPoint(0, 0), 1))
    ensures Identity(qr, IntPoint(2, 2)) == Some(AnimatableData(IntPoint(0, 0), 2))
  {
    var z := IntPoint(0, 0);
    ExampleScan(qr);
    RanksAreDense(qr, z, 0);
    RanksAreDense(qr, z, 1);
    RanksAreDense(qr, z, 2);
  }

  /** A stale rank 5 falls back to the zone's first black module (0,0). */
  lemma ExampleFallback(qr: QR)
    requires Valid(qr) && Size(qr) == 21 && ExampleZone(qr)
    ensures Locate(qr, AnimatableData(IntPoint(0, 0), 5)) == Some(IntPoint(0, 0))
  {
    ExampleScan(qr);
  }
}
