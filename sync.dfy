/** Repo.Sync from the loaded catalog to the handled downloads: reconciliation,
    request building and the post-download GPG check, and what the phases promise together. */
module Pipeline {
  import opened Catalog
  import opened Config
  import opened Reconciliation
  import opened Scheduling
  import opened PostDownload

  /** What a sync run produced, or the key ring error that stops it before anything else. */
  datatype SyncOutcome =
    | KeyRingFailed
    | Synced(missing: seq<Package>, totalsize: nat, reqs: seq<Request>)

  /** The concurrent download of all requests; its responses arrive in any order. */
  type Downloader = seq<Request> -> seq<Response>

  /** Every request the sync builds is for a catalog package that was not found, and
      downloads to that package's local path. */
  lemma RequestsOnlyForNotFound(packages: seq<Package>, files: seq<FileInfo>, packagedir: string,
                                validate: ChecksumValidator, baseURL: string, resolve: UrlResolver, r: Request)
    requires r in Requests(MissingOf(packages, files, packagedir, validate), packagedir, baseURL, resolve)
    ensures r.caption.package in packages
    ensures !Found(r.caption.package, files, packagedir, validate)
    ensures r.filename == LocalPath(packagedir, r.caption.package)
  {
    var missing := MissingOf(packages, files, packagedir, validate);
    var reqs := Requests(missing, packagedir, baseURL, resolve);
    RequestsFromPositions(missing, |missing|, packagedir, baseURL, resolve);
    var k :| 0 <= k < |reqs| && reqs[k] == r;
    var i := r.caption.position - 1;
    RequestForSpec(missing, i, packagedir, baseURL, resolve);
    assert r.caption.package == missing[i];
    MissingFromCatalog(packages, files, packagedir, validate, missing[i]);
  }

  /** A local file larger than declared does not protect its package: the package is
      scheduled for download like a missing one. */
  lemma OversizedIsScheduled(packages: seq<Package>, files: seq<FileInfo>, packagedir: string,
                             validate: ChecksumValidator, p: Package, k: int)
    requires p in packages
    requires Decisive(p, files, k) && files[k].size > p.packageSize
    ensures p in MissingOf(packages, files, packagedir, validate)
  {
    TooLargeNotFound(p, files, packagedir, validate, k);
    MissingMembers(packages, files, packagedir, validate, p);
  }

  /** A package whose local copy is valid is never downloaded again. */
  lemma FoundNeverRequested(packages: seq<Package>, files: seq<FileInfo>, packagedir: string,
                            validate: ChecksumValidator, baseURL: string, resolve: UrlResolver, p: Package)
    requires Found(p, files, packagedir, validate)
    ensures forall r | r in Requests(MissingOf(packages, files, packagedir, validate), packagedir, baseURL, resolve) ::
              r.caption.package != p
  {
    forall r | r in Requests(MissingOf(packages, files, packagedir, validate), packagedir, baseURL, resolve)
      ensures r.caption.package != p
    {
      RequestsOnlyForNotFound(packages, files, packagedir, validate, baseURL, resolve, r);
    }
  }

  /** When the responses answer the sync's own requests, a file the GPG phase deletes is
      the local path of a catalog package that was scheduled because it was not found. */
  lemma DeletedWasScheduled(packages: seq<Package>, files: seq<FileInfo>, packagedir: string,
                            validate: ChecksumValidator, baseURL: string, resolve: UrlResolver,
                            disk: set<string>, responses: seq<Response>, gpgCheck: bool, ops: FileOps, f: string)
    requires forall i | 0 <= i < |responses| ::
      responses[i].request in Requests(MissingOf(packages, files, packagedir, validate), packagedir, baseURL, resolve)
    requires f in disk && f !in AfterResponses(disk, responses, gpgCheck, ops)
    ensures exists q | q in packages :: !Found(q, files, packagedir, validate) && f == LocalPath(packagedir, q)
  {
    RemovedIff(disk, responses, gpgCheck, ops, f);
    var i :| 0 <= i < |responses| && !responses[i].failed && responses[i].request.filename == f;
    RequestsOnlyForNotFound(packages, files, packagedir, validate, baseURL, resolve, responses[i].request);
  }

  /** Repo.Sync once the catalog is loaded and filtered and the package directory is
      listed. With GPG checking on, a key ring that cannot be opened ends the sync
      before anything is touched. */
  method Sync(repo: Repo, keyRingOpens: bool, packages: seq<Package>, listing: seq<FileInfo>,
              packagedir: string, validate: ChecksumValidator, resolve: UrlResolver,
              download: Downloader, ops: FileOps, dir: PackageDir)
    returns (outcome: SyncOutcome)
    modifies dir
    ensures repo.gpgCheck && !keyRingOpens ==> outcome == KeyRingFailed && dir.files == old(dir.files)
    ensures !(repo.gpgCheck && !keyRingOpens) ==>
      && outcome.Synced?
      && outcome.missing == MissingOf(packages, listing, packagedir, validate)
      && outcome.totalsize == SumSizes(outcome.missing) % TWO_64
      && outcome.reqs == Requests(outcome.missing, packagedir, repo.baseURL, resolve)
      && dir.files == AfterResponses(old(dir.files), download(outcome.reqs), repo.gpgCheck, ops)
  {
    if repo.gpgCheck && !keyRingOpens {
      return KeyRingFailed;
    }
    var missing, totalsize := Reconcile(packages, listing, packagedir, validate);
    var reqs := BuildRequests(missing, packagedir, repo.baseURL, resolve);
    var responses := download(reqs);
    dir.HandleResponses(responses, repo.gpgCheck, ops);
    outcome := Synced(missing, totalsize, reqs);
  }
}
