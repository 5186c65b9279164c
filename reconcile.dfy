/** The first phase of Repo.Sync: decide, for each catalog package, whether a valid
    copy is already in the package directory, and collect the packages to download. */
module Reconciliation {
  import opened Wrappers
  import opened Paths
  import opened Catalog

  /** The three outcomes of ValidateFileChecksum(path, sum, type): nil,
      ErrChecksumMismatch, or any other error. */
  datatype ChecksumCheck = ChecksumOk | ChecksumMismatch | ChecksumError

  /** ValidateFileChecksum, which hashes a file on disk, given (path, sum, type). */
  type ChecksumValidator = (string, string, string) -> ChecksumCheck

  datatype ChecksumFailure = Unreadable | Mismatch | ValidationError

  /** How the scan of the listing for one package ends. */
  datatype Disposition =
    | Valid                          // same size and the checksum validates
    | Corrupt(cause: ChecksumFailure) // same size, checksum unreadable, wrong or not checkable
    | TooLarge                       // a file of that name is larger than declared
    | Incomplete                     // only smaller files of that name
    | Missing                        // no file of that name

  /** The checksum step, taken when a listed file has exactly the declared size. */
  function CheckSameSize(p: Package, packagedir: string, validate: ChecksumValidator): (d: Disposition)
    ensures d == Valid || d.Corrupt?
    ensures d == Valid <==> p.checksum.Some? && validate(LocalPath(packagedir, p), p.checksum.value, p.checksumType) == ChecksumOk
  {
    match p.checksum
    case None => Corrupt(Unreadable)
    case Some(sum) =>
      match validate(LocalPath(packagedir, p), sum, p.checksumType)
      case ChecksumOk => Valid
      case ChecksumMismatch => Corrupt(Mismatch)
      case ChecksumError => Corrupt(ValidationError)
  }

  /** The inner scan over the listing: files of another name are passed over, a smaller
      file of the package's name is passed over too (and remembered), a larger one or
      one of the declared size ends the scan. */
  function ScanFrom(p: Package, files: seq<FileInfo>, packagedir: string, validate: ChecksumValidator,
                    seenSmaller: bool): Disposition
    decreases |files|
  {
    if files == [] then (if seenSmaller then Incomplete else Missing)
    else if files[0].name != FileName(p) then ScanFrom(p, files[1..], packagedir, validate, seenSmaller)
    else if files[0].size == p.packageSize then CheckSameSize(p, packagedir, validate)
    else if files[0].size > p.packageSize then TooLarge
    else ScanFrom(p, files[1..], packagedir, validate, true)
  }

  function Classify(p: Package, files: seq<FileInfo>, packagedir: string, validate: ChecksumValidator): Disposition {
    ScanFrom(p, files, packagedir, validate, false)
  }

  /** The `found` flag of the source. */
  predicate Found(p: Package, files: seq<FileInfo>, packagedir: string, validate: ChecksumValidator) {
    Classify(p, files, packagedir, validate) == Valid
  }

  /** Listing entry k is the one that ends the scan: it carries the package's name, is
      not smaller than declared, and every earlier entry of that name is smaller. */
  predicate Decisive(p: Package, files: seq<FileInfo>, k: int) {
    0 <= k < |files| && files[k].name == FileName(p) && files[k].size >= p.packageSize &&
    forall j | 0 <= j < k :: files[j].name == FileName(p) ==> files[j].size < p.packageSize
  }

  lemma {:induction false} ScanDecisive(p: Package, files: seq<FileInfo>, packagedir: string,
                                        validate: ChecksumValidator, seen: bool, k: int)
    requires Decisive(p, files, k)
    ensures ScanFrom(p, files, packagedir, validate, seen) ==
            if files[k].size == p.packageSize then CheckSameSize(p, packagedir, validate) else TooLarge
    decreases k
  {
    if k > 0 {
      assert files[0].name == FileName(p) ==> files[0].size < p.packageSize;
      assert Decisive(p, files[1..], k - 1) by {
        forall j | 0 <= j < k - 1
          ensures files[1..][j].name == FileName(p) ==> files[1..][j].size < p.packageSize
        {
          assert files[1..][j] == files[j + 1];
        }
      }
      ScanDecisive(p, files[1..], packagedir, validate, seen || files[0].name == FileName(p), k - 1);
    }
  }

  lemma {:induction false} ScanNoDecisive(p: Package, files: seq<FileInfo>, packagedir: string,
                                          validate: ChecksumValidator, seen: bool)
    requires forall k | 0 <= k < |files| :: files[k].name == FileName(p) ==> files[k].size < p.packageSize
    ensures ScanFrom(p, files, packagedir, validate, seen) ==
            if seen || exists k | 0 <= k < |files| :: files[k].name == FileName(p) then Incomplete else Missing
    decreases |files|
  {
    if files != [] {
      var rest := files[1..];
      forall k | 0 <= k < |rest| ensures rest[k] == files[k + 1] { }
      ScanNoDecisive(p, rest, packagedir, validate, seen || files[0].name == FileName(p));
      if exists k | 0 <= k < |rest| :: rest[k].name == FileName(p) {
        var k :| 0 <= k < |rest| && rest[k].name == FileName(p);
        assert files[k + 1].name == FileName(p);
      }
    }
  }

  /** Either some entry ends the scan (the first one of the package's name that is not
      smaller), or every entry of that name is smaller. */
  lemma {:induction false} DecisiveOrNone(p: Package, files: seq<FileInfo>)
    ensures (exists k :: Decisive(p, files, k)) ||
            forall k | 0 <= k < |files| :: files[k].name == FileName(p) ==> files[k].size < p.packageSize
    decreases |files|
  {
    if files != [] {
      DecisiveOrNone(p, files[..|files| - 1]);
      var init := files[..|files| - 1];
      if k :| Decisive(p, init, k) {
        assert Decisive(p, files, k);
      } else {
        var n := |files| - 1;
        if files[n].name == FileName(p) && files[n].size >= p.packageSize {
          assert Decisive(p, files, n);
        }
      }
    }
  }

  /** The full classification of one package against the listing. */
  lemma ClassifyCases(p: Package, files: seq<FileInfo>, packagedir: string, validate: ChecksumValidator)
    ensures var d := Classify(p, files, packagedir, validate);
      && (d == Missing <==> forall k | 0 <= k < |files| :: files[k].name != FileName(p))
      && (d == Incomplete <==>
            (exists k | 0 <= k < |files| :: files[k].name == FileName(p)) &&
            forall k | 0 <= k < |files| :: files[k].name == FileName(p) ==> files[k].size < p.packageSize)
      && (d == TooLarge <==> exists k :: Decisive(p, files, k) && files[k].size > p.packageSize)
      && ((d == Valid || d.Corrupt?) <==> exists k :: Decisive(p, files, k) && files[k].size == p.packageSize)
      && ((d == Valid || d.Corrupt?) ==> d == CheckSameSize(p, packagedir, validate))
  {
    DecisiveOrNone(p, files);
    if k :| Decisive(p, files, k) {
      ScanDecisive(p, files, packagedir, validate, false, k);
      forall k' | Decisive(p, files, k') ensures k' == k { }
    } else {
      ScanNoDecisive(p, files, packagedir, validate, false);
    }
  }

  /** A package is kept out of the download list exactly when the first listed file of
      its name that is not smaller than declared has exactly the declared size, and its
      checksum can be read and validates against that file. */
  lemma FoundIff(p: Package, files: seq<FileInfo>, packagedir: string, validate: ChecksumValidator)
    ensures Found(p, files, packagedir, validate) <==>
      (exists k :: Decisive(p, files, k) && files[k].size == p.packageSize) &&
      p.checksum.Some? && validate(LocalPath(packagedir, p), p.checksum.value, p.checksumType) == ChecksumOk
  {
    ClassifyCases(p, files, packagedir, validate);
  }

  /** A file of the package's name that is larger than declared, reached before any
      file of the declared size, ends the scan with the package not found. */
  lemma TooLargeNotFound(p: Package, files: seq<FileInfo>, packagedir: string, validate: ChecksumValidator, k: int)
    requires Decisive(p, files, k) && files[k].size > p.packageSize
    ensures Classify(p, files, packagedir, validate) == TooLarge
    ensures !Found(p, files, packagedir, validate)
  {
    ScanDecisive(p, files, packagedir, validate, false, k);
  }

  /** Smaller files never set `found`: a listing whose entries of the package's name are
      all smaller than declared leaves the package Incomplete (or Missing with no such entry). */
  lemma SmallerNeverFound(p: Package, files: seq<FileInfo>, packagedir: string, validate: ChecksumValidator)
    requires forall k | 0 <= k < |files| :: files[k].name == FileName(p) ==> files[k].size < p.packageSize
    ensures Classify(p, files, packagedir, validate) == Incomplete || Classify(p, files, packagedir, validate) == Missing
    ensures !Found(p, files, packagedir, validate)
  {
    ScanNoDecisive(p, files, packagedir, validate, false);
  }

  /** The `missing` list: the packages not found, in catalog order. */
  function MissingOf(packages: seq<Package>, files: seq<FileInfo>, packagedir: string, validate: ChecksumValidator): seq<Package>
    decreases |packages|
  {
    if packages == [] then []
    else
      var p := packages[|packages| - 1];
      MissingOf(packages[..|packages| - 1], files, packagedir, validate) +
      (if Found(p, files, packagedir, validate) then [] else [p])
  }

  /** The positions in `packages` of the packages that are not found, in increasing order. */
  function NotFoundIndices(packages: seq<Package>, files: seq<FileInfo>, packagedir: string, validate: ChecksumValidator): seq<nat>
    decreases |packages|
  {
    if packages == [] then []
    else
      var n := |packages| - 1;
      NotFoundIndices(packages[..n], files, packagedir, validate) +
      (if Found(packages[n], files, packagedir, validate) then [] else [n])
  }

  /** The not-found positions are positions of the catalog, in strictly increasing
      order, and a position is listed exactly when its package is not found. */
  lemma {:induction false} NotFoundIndicesExact(packages: seq<Package>, files: seq<FileInfo>,
                                                packagedir: string, validate: ChecksumValidator)
    ensures var idx := NotFoundIndices(packages, files, packagedir, validate);
      && (forall k | 0 <= k < |idx| :: idx[k] < |packages|)
      && (forall k, l | 0 <= k < l < |idx| :: idx[k] < idx[l])
      && (forall i | 0 <= i < |packages| :: i in idx <==> !Found(packages[i], files, packagedir, validate))
    decreases |packages|
  {
    if packages != [] {
      var n := |packages| - 1;
      var init := packages[..n];
      NotFoundIndicesExact(init, files, packagedir, validate);
      var idx0 := NotFoundIndices(init, files, packagedir, validate);
      var idx := NotFoundIndices(packages, files, packagedir, validate);
      if Found(packages[n], files, packagedir, validate) {
        assert idx == idx0;
      } else {
        assert idx == idx0 + [n];
      }
      forall i | 0 <= i < n ensures i in idx <==> !Found(packages[i], files, packagedir, validate) {
        assert init[i] == packages[i];
        assert i in idx <==> i in idx0;
      }
    }
  }

  /** `missing` is exactly the subsequence of the packages that were not found, in their
      original order: its k-th element is the package at the k-th not-found position. */
  lemma {:induction false} MissingAtNotFoundIndices(packages: seq<Package>, files: seq<FileInfo>,
                                                    packagedir: string, validate: ChecksumValidator)
    ensures var m, idx := MissingOf(packages, files, packagedir, validate), NotFoundIndices(packages, files, packagedir, validate);
      && |m| == |idx|
      && (forall k | 0 <= k < |idx| :: idx[k] < |packages| && m[k] == packages[idx[k]])
    decreases |packages|
  {
    if packages != [] {
      var n := |packages| - 1;
      var init := packages[..n];
      MissingAtNotFoundIndices(init, files, packagedir, validate);
      var m0, idx0 := MissingOf(init, files, packagedir, validate), NotFoundIndices(init, files, packagedir, validate);
      var m, idx := MissingOf(packages, files, packagedir, validate), NotFoundIndices(packages, files, packagedir, validate);
      if Found(packages[n], files, packagedir, validate) {
        assert m == m0 && idx == idx0;
      } else {
        assert m == m0 + [packages[n]] && idx == idx0 + [n];
      }
      forall k | 0 <= k < |idx0| ensures idx[k] < |packages| && m[k] == packages[idx[k]] {
        assert idx[k] == idx0[k] && m[k] == m0[k] && init[idx0[k]] == packages[idx0[k]];
      }
    }
  }

  /** Each package occurs in `missing` as often as in the catalog when it is not found,
      and not at all when it is. */
  lemma {:induction false} MissingMultiplicity(packages: seq<Package>, files: seq<FileInfo>,
                                               packagedir: string, validate: ChecksumValidator, q: Package)
    ensures multiset(MissingOf(packages, files, packagedir, validate))[q] ==
            if Found(q, files, packagedir, validate) then 0 else multiset(packages)[q]
    decreases |packages|
  {
    if packages != [] {
      var n := |packages| - 1;
      var init := packages[..n];
      MissingMultiplicity(init, files, packagedir, validate, q);
      assert init + [packages[n]] == packages;
      assert multiset(packages) == multiset(init) + multiset{packages[n]};
      var m0 := MissingOf(init, files, packagedir, validate);
      if Found(packages[n], files, packagedir, validate) {
        assert MissingOf(packages, files, packagedir, validate) == m0;
      } else {
        assert MissingOf(packages, files, packagedir, validate) == m0 + [packages[n]];
        assert multiset(m0 + [packages[n]]) == multiset(m0) + multiset{packages[n]};
      }
    }
  }

  /** A catalog package is scheduled for download exactly when it is not found. */
  lemma MissingMembers(packages: seq<Package>, files: seq<FileInfo>, packagedir: string,
                       validate: ChecksumValidator, q: Package)
    requires q in packages
    ensures q in MissingOf(packages, files, packagedir, validate) <==> !Found(q, files, packagedir, validate)
  {
    MissingMultiplicity(packages, files, packagedir, validate, q);
  }

  /** Everything in `missing` comes from the catalog and was not found. */
  lemma MissingFromCatalog(packages: seq<Package>, files: seq<FileInfo>, packagedir: string,
                           validate: ChecksumValidator, q: Package)
    requires q in MissingOf(packages, files, packagedir, validate)
    ensures q in packages && !Found(q, files, packagedir, validate)
  {
    MissingMultiplicity(packages, files, packagedir, validate, q);
  }

  /** Adding x to a uint64 accumulator and adding uint64(x) wrap around to the same value. */
  lemma AddUint64(t: int, x: int64)
    ensures (t % TWO_64 + ToUint64(x)) % TWO_64 == (t + x as int) % TWO_64
  {
  }

  /** The inner loop of the reconciliation: scan the listing for the package's file. */
  method ScanListing(p: Package, files: seq<FileInfo>, packagedir: string, validate: ChecksumValidator)
    returns (found: bool)
    ensures found == Found(p, files, packagedir, validate)
  {
    var packageFilename := Base(p.locationHref);
    var packagePath := Join(packagedir, Base(p.locationHref));
    found := false;
    ghost var seenSmaller := false;
    var j := 0;
    while j < |files|
      invariant 0 <= j <= |files|
      invariant !found
      invariant Classify(p, files, packagedir, validate) == ScanFrom(p, files[j..], packagedir, validate, seenSmaller)
    {
      var fi := files[j];
      assert files[j..][0] == fi && files[j..][1..] == files[j + 1..];
      if fi.name == packageFilename {
        if fi.size == p.packageSize {
          if p.checksum.None? {
            break;
          }
          var check := validate(packagePath, p.checksum.value, p.checksumType);
          if check == ChecksumMismatch {
            break;
          } else if check == ChecksumError {
            break;
          }
          found := true;
          break;
        } else if fi.size > p.packageSize {
          break;
        } else {
          seenSmaller := true;
        }
      }
      j := j + 1;
    }
  }

  /** The reconciliation loop: the `missing` slice and the uint64 `totalsize`. */
  method Reconcile(packages: seq<Package>, files: seq<FileInfo>, packagedir: string, validate: ChecksumValidator)
    returns (missing: seq<Package>, totalsize: nat)
    ensures missing == MissingOf(packages, files, packagedir, validate)
    ensures totalsize < TWO_64 && totalsize == SumSizes(missing) % TWO_64
  {
    missing := [];
    totalsize := 0;
    for i := 0 to |packages|
      invariant missing == MissingOf(packages[..i], files, packagedir, validate)
      invariant totalsize < TWO_64 && totalsize == SumSizes(missing) % TWO_64
    {
      var p := packages[i];
      var found := ScanListing(p, files, packagedir, validate);
      assert packages[..i + 1][..i] == packages[..i];
      if !found {
        AddUint64(SumSizes(missing), p.packageSize);
        missing := missing + [p];
        totalsize := (totalsize + ToUint64(p.packageSize)) % TWO_64;
      }
    }
    assert packages[..|packages|] == packages;
  }
}
