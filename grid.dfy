/** The QR module grid: one snapshot of black and white modules, indexed
    `rawData[y][x]`, together with the coordinate and identity values that
    the zone indexer and the identity mapper pass around. */
module QRGrid {

  /** Side length, in modules, of the square zones the grid is cut into.
      The scan arithmetic of the zone indexer and the identity mapper writes
      this constant out as `3` (and a zone's area as `9`), which keeps every
      product linear for the solver. */
  const ZoneSize: int := 3

  datatype Option<T> = None | Some(value: T)

  /** A module coordinate, or (for `AnimatableData.zone`) a zone coordinate. */
  datatype IntPoint = IntPoint(x: int, y: int)

  /** The animatable identity of a black module: the zone it lies in and its
      rank among that zone's black modules. */
  datatype AnimatableData = AnimatableData(zone: IntPoint, blackPixelCount: int)
  {
    /** A copy of this identity with the rank replaced and the zone kept. */
    function With(count: int): (d: AnimatableData)
      ensures d.zone == zone && d.blackPixelCount == count
    {
      this.(blackPixelCount := count)
    }
  }

  /** One brightness sample of the rasterised QR image. */
  newtype UInt8 = b: int | 0 <= b < 256

  /** The grid; a cell holds `true` when the module is WHITE. */
  datatype QR = QR(rawData: seq<seq<bool>>)

  /** The grid's side length: the number of rows. */
  function Size(qr: QR): nat
  {
    |qr.rawData|
  }

  /** The grid is square: every row holds exactly `Size` cells. */
  predicate Valid(qr: QR)
  {
    forall y :: 0 <= y < |qr.rawData| ==> |qr.rawData[y]| == |qr.rawData|
  }

  /** `p` lies in `[0, n)` on both axes. */
  predicate InGrid(n: int, p: IntPoint)
  {
    0 <= p.x < n && 0 <= p.y < n
  }

  predicate InBounds(qr: QR, p: IntPoint)
  {
    InGrid(Size(qr), p)
  }

  /** The cell itself: `true` means white. */
  function IsWhiteAt(qr: QR, p: IntPoint): bool
    requires Valid(qr) && InBounds(qr, p)
  {
    qr.rawData[p.y][p.x]
  }

  /** The initializer's threshold: a module is white exactly where the
      sampled brightness is above zero. */
  function FromBrightness(sample: seq<seq<UInt8>>): (qr: QR)
    ensures Size(qr) == |sample|
    ensures forall y :: 0 <= y < |sample| ==> |qr.rawData[y]| == |sample[y]|
  {
    QR(seq(|sample|, y requires 0 <= y < |sample| =>
      seq(|sample[y]|, x requires 0 <= x < |sample[y]| => sample[y][x] > 0)))
  }

  /** A square sample gives a valid grid whose white modules are exactly the
      bright samples. */
  lemma FromBrightnessPolarity(sample: seq<seq<UInt8>>)
    requires forall y :: 0 <= y < |sample| ==> |sample[y]| == |sample|
    ensures Valid(FromBrightness(sample))
    ensures forall p :: InBounds(FromBrightness(sample), p) ==>
              (IsWhiteAt(FromBrightness(sample), p) <==> sample[p.y][p.x] > 0)
  {
  }
}
