/** The inverse mapping: from an animatable identity `(zone, rank)` back to
    a module of the grid, with the fallback to the zone's first black
    module for ranks the grid no longer has. */
module IdentityMapper {
  import opened QRGrid
  import opened ZoneIndexer

  /** The module an identity designates: the zone's black cell of that rank;
      when the rank is out of range, the zone's first black cell; none when
      the zone has no black cell. */
  function Locate(qr: QR, d: AnimatableData): Option<IntPoint>
    requires Valid(qr) && ScanReadable(Size(qr), d.zone)
  {
    var cells := BlackCells(qr, d.zone);
    if 0 <= d.blackPixelCount < |cells| then Some(cells[d.blackPixelCount])
    else if cells != [] then Some(cells[0])
    else None
  }

  /** `pointFor(animationData:)`: the same nested scan as `AnimationData`,
      returning the black cell whose ordinal equals the rank and remembering
      the first black cell for the fallback. */
  method PointFor(qr: QR, animationData: AnimatableData) returns (r: Option<IntPoint>)
    requires Valid(qr) && ScanReadable(Size(qr), animationData.zone)
    ensures r == Locate(qr, animationData)
  {
    var zone := animationData.zone;
    var blackPixelCount := animationData.blackPixelCount;
    ghost var cells := BlackCells(qr, zone);
    var firstBlackPixel: Option<IntPoint> := None;
    var currentBlackPixelCount := 0;
    for yOffset := 0 to ZoneSize
      invariant currentBlackPixelCount == |BlackScan(qr, zone, 3 * yOffset)|
      invariant blackPixelCount < 0 || currentBlackPixelCount <= blackPixelCount
      invariant currentBlackPixelCount <= |cells|
      invariant firstBlackPixel == if currentBlackPixelCount == 0 then None else Some(cells[0])
    {
      if zone.y * 3 + yOffset < Size(qr) {
        for xOffset := 0 to ZoneSize
          invariant currentBlackPixelCount == |BlackScan(qr, zone, 3 * yOffset + xOffset)|
          invariant blackPixelCount < 0 || currentBlackPixelCount <= blackPixelCount
          invariant currentBlackPixelCount <= |cells|
          invariant firstBlackPixel == if currentBlackPixelCount == 0 then None else Some(cells[0])
        {
          ghost var k := 3 * yOffset + xOffset;
          StepOffsets(yOffset, xOffset);
          if zone.x * 3 + xOffset < Size(qr) {
            var position := IntPoint(zone.x * 3 + xOffset, zone.y * 3 + yOffset);
            assert position == ScanCell(zone, k);
            if !IsWhiteAt(qr, position) {
              BlackStep(qr, zone, k);
              if firstBlackPixel.None? {
                firstBlackPixel := Some(position);
              }
              if currentBlackPixelCount == blackPixelCount {
                return Some(position);
              }
              currentBlackPixelCount := currentBlackPixelCount + 1;
            } else {
              OtherStep(qr, zone, k);
            }
          } else {
            OtherStep(qr, zone, k);
          }
        }
      } else {
        RowSkipped(qr, zone, yOffset);
      }
    }
    return firstBlackPixel;
  }

  /** Round trip: the identity of a black module leads back to it. */
  lemma RoundTrip(qr: QR, p: IntPoint)
    requires Valid(qr) && InBounds(qr, p) && !IsWhiteAt(qr, p)
    ensures ScanReadable(Size(qr), Identity(qr, p).value.zone)
    ensures Locate(qr, Identity(qr, p).value) == Some(p)
  {
    RankIsPosition(qr, p);
  }

  /** The other direction of the inverse pair: an identity whose rank the
      zone has leads to a module whose own identity it is. */
  lemma LocateInverse(qr: QR, d: AnimatableData)
    requires Valid(qr) && ScanReadable(Size(qr), d.zone)
    requires 0 <= d.blackPixelCount < |BlackCells(qr, d.zone)|
    ensures Locate(qr, d).Some? && InBounds(qr, Locate(qr, d).value)
    ensures Identity(qr, Locate(qr, d).value) == Some(d)
  {
    RanksAreDense(qr, d.zone, d.blackPixelCount);
  }

  /** Whatever the identity, a located module is an in-bounds black module
      of the identity's zone. */
  lemma LocateSound(qr: QR, d: AnimatableData)
    requires Valid(qr) && ScanReadable(Size(qr), d.zone)
    requires Locate(qr, d).Some?
    ensures InBounds(qr, Locate(qr, d).value) && !IsWhiteAt(qr, Locate(qr, d).value)
    ensures ZoneOf(Locate(qr, d).value) == d.zone
  {
    BlackScanMembers(qr, d.zone, 9);
  }

  /** The mapping finds nothing exactly when the zone holds no black module
      of the grid. */
  lemma LocateNoneIffZoneWhite(qr: QR, d: AnimatableData)
    requires Valid(qr) && ScanReadable(Size(qr), d.zone)
    ensures Locate(qr, d).None? <==>
              forall p :: InBounds(qr, p) && !IsWhiteAt(qr, p) ==> ZoneOf(p) != d.zone
  {
    if Locate(qr, d).None? {
      forall p | InBounds(qr, p) && !IsWhiteAt(qr, p) ensures ZoneOf(p) != d.zone {
        if ZoneOf(p) == d.zone {
          RankIsPosition(qr, p);
        }
      }
    } else {
      LocateSound(qr, d);
    }
  }

  /** A rank the zone does not have (too large, or negative) falls back to
      rank 0, which is the zone's first black module in scan order. */
  lemma Fallback(qr: QR, d: AnimatableData)
    requires Valid(qr) && ScanReadable(Size(qr), d.zone)
    requires d.blackPixelCount < 0 || |BlackCells(qr, d.zone)| <= d.blackPixelCount
    ensures Locate(qr, d) == Locate(qr, d.With(0))
    ensures Locate(qr, d).Some? ==>
              InBounds(qr, Locate(qr, d).value) &&
              forall q :: InBounds(qr, q) && !IsWhiteAt(qr, q) && ZoneOf(q) == d.zone ==>
                ScanIndex(Locate(qr, d).value) <= ScanIndex(q)
  {
    if Locate(qr, d).Some? {
      LocateSound(qr, d);
      forall q | InBounds(qr, q) && !IsWhiteAt(qr, q) && ZoneOf(q) == d.zone
        ensures ScanIndex(Locate(qr, d).value) <= ScanIndex(q)
      {
        RankIsPosition(qr, q);
        var r := Identity(qr, q).value.blackPixelCount;
        if r > 0 {
          BlackScanIncreasing(qr, d.zone, 9, 0, r);
        }
      }
    }
  }
}
