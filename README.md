# MutatingQRTest core in Dafny

MutatingQRTest animates the modules (pixels) of a QR code between two
layouts: one by grid coordinate, and one by a stable identity. A black
module's identity is its zone together with its rank in that zone. A zone is
a 3 by 3 block of modules. The rank is the number of black modules before the
module in the zone's row-major scan, clipped at the edge of the grid. This
project models `struct QR` of `MutatingQRTest/QR.swift` and proves its
identity mapping correct:

- `animationData(for:)` turns a module into its identity.
- `pointFor(animationData:)` turns an identity back into a module. A stale
  rank falls back to the zone's first black module.
- `zoneIds` lists every zone of the grid.

Modules:

- `QRGrid` (`grid.dfy`) holds the values:
  - `IntPoint`;
  - `AnimatableData` (`QRAnimatableData`) with `With` (`with(blackPixelCount:)`);
  - the grid `QR`, whose `rawData[y][x]` is `true` for a WHITE module, with
    `Size` (`size`) and `IsWhiteAt` (`isWhiteAt`);
  - `FromBrightness`, the initializer's `> 0` threshold on a brightness
    sample.
- `ZoneIndexer` (`zone_indexer.dfy`) holds the zone scan, `zoneIds` and
  `animationData(for:)`.
  - The scan is specified by `BlackScan(qr, zone, k)`: the black cells that the
    first `k` of the nine steps meet, in order. Step `k` is `yOffset = k / 3`
    and `xOffset = k % 3`. A step counts only when it passes both `where`
    clauses.
  - `Identity` is the specification function of `animationData(for:)`.
  - The method `AnimationData` keeps the Swift nested `for … where` loops,
    and its invariants are proved against `BlackScan`.
  - The `fatalError` after the loops is an `assert false` that the proof
    shows unreachable.
- `IdentityMapper` (`identity_mapper.dfy`) holds `pointFor(animationData:)`.
  - `Locate` is its specification: the zone's black cell of the given rank;
    otherwise the first black cell; otherwise none.
  - The method `PointFor` keeps the Swift loops, including
    `firstBlackPixel = firstBlackPixel ?? position`.
- `Scenario` (`scenario.dfy`) is a worked example on a 21 by 21 grid. Zone
  (0,0) holds black modules at (0,0), (1,0) and (2,2).

Preconditions follow the places where the Swift code traps:

- `isWhiteAt` and `animationData(for:)` index `rawData` directly, so they
  require an in-bounds point.
- `pointFor` requires `ScanReadable(size, zone)`. This holds when the zone is
  non-negative, or when a `where` clause skips every step. These are exactly
  the zones whose scan indexes no negative coordinate (`ScanStaysInGrid`).
  Every other zone traps in Swift.
- `Valid(qr)` asks for a square grid: every row holds exactly `size` cells.
  On a square grid, `isWhiteAt` traps exactly outside `[0, size)²`.

## Model

| member | source | states |
|---|---|---|
| QRGrid.AnimatableData.With | MutatingQRTest/QR.swift:116-120 | the copy keeps the zone and carries the new rank |
| QRGrid.FromBrightness | MutatingQRTest/QR.swift:38-40 | the thresholded grid has one row per sample row, each as long as its sample row |
| QRGrid.FromBrightnessPolarity | MutatingQRTest/QR.swift:39-44 | a square sample gives a valid grid; a module is white exactly when its brightness is above zero |
| ZoneIndexer.ScanIndex | MutatingQRTest/QR.swift:53-62 | every non-negative module is met by its own zone's scan, at a step in `[0, 9)` |
| ZoneIndexer.MetOnlyAtScanIndex | MutatingQRTest/QR.swift:60-66 | a module is met at its scan index and at no other step; for an in-grid module, that step passes both `where` clauses |
| ZoneIndexer.ScanStaysInGrid | MutatingQRTest/QR.swift:60-62 | the clipped scan reads only cells inside `[0, size)²`, exactly when the zone is readable (both directions) |
| ZoneIndexer.ScanCellInZone | MutatingQRTest/QR.swift:60-62 | each step of a non-negative zone's scan lies in that zone, at that step |
| ZoneIndexer.BlackScanMembers | MutatingQRTest/QR.swift:60-64 | every cell the scan counts is an in-bounds black module of the zone, met before the current step |
| ZoneIndexer.BlackScanIncreasing | MutatingQRTest/QR.swift:60-64 | the scan counts cells in strictly increasing step order, so it never counts a module twice |
| ZoneIndexer.ZoneWidth | MutatingQRTest/QR.swift:24 | the number of zones per side is the least `w` with `3 * w >= size` (the ceiling) |
| ZoneIndexer.ZoneIdsLayout | MutatingQRTest/QR.swift:23-32 | `zoneIds` has `zoneWidth²` entries; entry `row * zoneWidth + col` is zone `(col, row)` with rank 0 (row-major) |
| ZoneIndexer.ZoneIdsCoverGrid | MutatingQRTest/QR.swift:22-32 | every entry has rank 0 and a zone whose corner lies in the grid; the zone of every in-grid module is listed |
| ZoneIndexer.Identity | MutatingQRTest/QR.swift:49-56 | the identity is absent exactly when the module is white; otherwise its zone is `(x / 3, y / 3)` |
| ZoneIndexer.RankIsPosition | MutatingQRTest/QR.swift:58-70 | a black module's rank is below its zone's black count (at most 9), and the zone's black cell at that rank is the module |
| ZoneIndexer.DistinctRanks | MutatingQRTest/QR.swift:58-70 | two different black modules of one zone get different identities |
| ZoneIndexer.RanksAreDense | MutatingQRTest/QR.swift:58-70 | every rank `0 .. k-1` of a zone with `k` black modules is the identity of one of its black modules (no gaps) |
| ZoneIndexer.AnimationData | MutatingQRTest/QR.swift:49-75 | the nested scan returns `Identity`; the `fatalError` is unreachable for an in-bounds point |
| IdentityMapper.PointFor | MutatingQRTest/QR.swift:79-104 | the nested scan returns `Locate`: the black cell of that rank, else the first black cell, else nil |
| IdentityMapper.RoundTrip | MutatingQRTest/QR.swift:49-104 | for a black in-bounds module, `pointFor(animationData(p)!) == p` |
| IdentityMapper.LocateInverse | MutatingQRTest/QR.swift:49-104 | for a rank the zone has, `pointFor` finds an in-bounds module whose own identity is that `(zone, rank)` |
| IdentityMapper.LocateSound | MutatingQRTest/QR.swift:87-96 | any module `pointFor` returns is an in-bounds black module of the identity's zone |
| IdentityMapper.LocateNoneIffZoneWhite | MutatingQRTest/QR.swift:84-103 | `pointFor` returns nil exactly when the zone has no black module in the grid |
| IdentityMapper.Fallback | MutatingQRTest/QR.swift:83-103 | a rank that is negative or not below the zone's black count gives the same result as rank 0: the zone's first black module in scan order |
| Scenario.ExampleScan | MutatingQRTest/QR.swift:58-72 | in the example, zone (0,0)'s scan meets (0,0), (1,0), (2,2) in that order |
| Scenario.ExampleRanks | MutatingQRTest/QR.swift:49-75 | in the example, the three black modules get ranks 0, 1 and 2 of zone (0,0) |
| Scenario.ExampleFallback | MutatingQRTest/QR.swift:83-103 | in the example, the stale rank 5 of zone (0,0) lands on (0,0) |

`Size`, `IsWhiteAt`, `ZoneOf`, `BlackScan`, `BlackCells`, `ZoneIds` and
`Locate` are definitions with no contract of their own; the lemmas above
state their properties.

## Left out

- Building the grid from a string (`CGImage.qrImage(from:)`, CoreImage's QR
  generator) and reading pixels (`samplePixelBrightness`) are foreign
  graphics calls. The model takes the brightness sample as a parameter and
  keeps only the `> 0` threshold, `FromBrightness`. The `init?` failure path
  (no image) belongs to that foreign call.
- ZoneWidth: the source rounds the floating-point quotient `size / 3` away
  from zero. The model computes the integer ceiling `(size + 2) / 3`, which
  is the same value for every non-negative size. Floating point itself is
  not modelled.
- Swift `Int` is 64 bits. The model's integers are unbounded, so the trap on
  overflow of `zone.x * 3 + xOffset` in `pointFor`, for zone coordinates
  near `Int.max / 3`, is not modelled.
- Out-of-bounds queries trap in Swift (array index out of range). The model
  therefore makes them preconditions (`InBounds`, `ScanReadable`).
  It does not return a reportable error: the code traps, and the model
  follows the code.
- Valid: the model covers square grids only, which is what the QR
  rasteriser produces. Other grids are outside the model:
  - On a grid with a short row, Swift traps on some reads.
  - On a grid with a long row, `isWhiteAt` reads past `size` without
    trapping, and `animationData(for:)` of a black cell there reaches its
    `fatalError`, because the `where` clauses skip it.
- `ContentView.swift` (the SwiftUI views, the timer that regenerates the
  code, and the layout transitions) is not part of this model.
- `Equatable` and `Hashable` on `IntPoint` and `QRAnimatableData` are the
  structural equality of Dafny datatypes. Hashing is not modelled.
