/** The values the sync reads: catalog packages from the primary database and the
    entries of the local package directory listing. */
module Catalog {
  import opened Wrappers
  import opened Paths

  /** Go's int64, the type of PackageSize() and of FileInfo.Size(). */
  newtype int64 = x: int | -0x8000_0000_0000_0000 <= x < 0x8000_0000_0000_0000

  const TWO_64: int := 0x1_0000_0000_0000_0000

  /** Go's conversion uint64(x) of an int64: the value modulo 2^64. */
  function ToUint64(x: int64): (r: nat)
    ensures r < TWO_64
    ensures (r - x as int) % TWO_64 == 0
    ensures x >= 0 ==> r == x as int
  {
    (x as int) % TWO_64
  }

  /** One catalog package: LocationHref(), PackageSize(), ChecksumType(), and
      Checksum(), which may fail (None). */
  datatype Package = Package(
    locationHref: string,
    packageSize: int64,
    checksum: Option<string>,
    checksumType: string)

  /** One entry of the package directory listing: Name() and Size(). */
  datatype FileInfo = FileInfo(name: string, size: int64)

  /** The file name a package is stored under: the base of its location. */
  function FileName(p: Package): string {
    Base(p.locationHref)
  }

  /** The local path of a package inside the package directory. */
  function LocalPath(packagedir: string, p: Package): string {
    Join(packagedir, FileName(p))
  }

  /** Sum of the declared sizes, as unbounded integers. */
  function SumSizes(ps: seq<Package>): int
    decreases |ps|
  {
    if ps == [] then 0 else SumSizes(ps[..|ps| - 1]) + ps[|ps| - 1].packageSize as int
  }
}
