# go-yum repository sync, modelled in Dafny

This project models the core of `Repo.Sync` in go-yum's `repo.go`: the part that
mirrors an upstream yum repository into a local package directory. It also models
the small `Repo.Validate` check of a Yumfile repository entry.

- **Reconciliation** (`reconcile.dfy`, module `Reconciliation`). For each catalog
  package (after filtering), the directory listing is scanned for a file named after
  the base of the package's location. A file of the declared size whose checksum reads
  and validates makes the package *found*. A larger file ends the scan with the package
  not found. A smaller file is passed over. Every package not found is appended to
  `missing`, and its size is added to the uint64 `totalsize`. The scan's verdict is a
  `Disposition` (`Valid`, `Corrupt`, `TooLarge`, `Incomplete`, `Missing`).
  `found` is `Disposition == Valid`.
- **Request building** (`requests.dfy`, module `Scheduling`). Each missing package
  becomes a download request. The request carries the label `[ i+1 / len(missing) ]`,
  the destination `Join(packagedir, Base(href))`, the declared size and the decoded
  checksum. A package is dropped when the URL, the checksum read or the hex decoding
  fails.
- **Post-download GPG check** (`verify.dfy`, module `PostDownload`). A successful
  response means its file has been written to the package directory. That file is
  GPG-checked when the repository has `GPGCheck` on, and deleted when it opens and
  fails the check. The disk is a `PackageDir` object holding a set of paths.
- **The pipeline** (`sync.dfy`, module `Pipeline`). `Sync` chains the three phases.
  Lemmas state what they guarantee together.
- Supporting modules: `Config` (`Validate`), `Catalog` (packages, listing entries,
  Go's `int64` and `uint64`), `Paths` (`filepath.Base`, `filepath.Join`), `Hex`
  (`hex.DecodeString`), `Wrappers` (`Option`).

The checksum validator, the URL builder, the download client, and the file operations
`os.Open`, `rpm.GPGCheck` and `os.Remove` are parameters of the model. The checksum
validator is `ValidateFileChecksum`. The URL builder is `grab.NewRequest` of
`urljoin(BaseURL, href)`. The file operations are predicates on a path. Hex decoding
is modelled exactly: it succeeds iff the string has even length and only hexadecimal
digits.

### Behaviour worth knowing

- An oversized local file is classified `TooLarge`, and its package is still
  downloaded again: the scan ends with `found == false`, so the package goes into
  `missing` (`repo.go:173-176`, `185-188`). `Pipeline.OversizedIsScheduled` states this.
- A corrupt local file is not deleted during reconciliation. Its package is only
  scheduled again.
- A request whose URL, checksum or hex decoding fails is not reported as a failed
  download. It is logged and dropped before the download starts.
- Requests are always built from `BaseURL`, even when the repository passed `Validate`
  with only a `MirrorURL` set.

## Model

| member | source | states |
|---|---|---|
| Config.Validate | repo.go:50-60 | returns no error iff the ID is set and a mirror or base URL is set; an empty ID gives the missing-ID error, which wins over the missing-URL error; both errors carry the Yumfile path and line |
| Paths.BaseOfJoin | repo.go:142-143 | the base of the destination path `Join(packagedir, name)` is the name searched for in the listing |
| Hex.DecodeEncode | repo.go:207 | hex decoding undoes hex encoding, so every byte string written as hex decodes back unchanged |
| Hex.Decode | repo.go:207 | decoding succeeds iff the input has even length and only hexadecimal digits, and then gives one byte per two digits |
| Hex.DecodeValues | repo.go:207 | byte k of a successful decoding is 16 times the value of digit 2k plus the value of digit 2k+1, in either letter case |
| Catalog.ToUint64 | repo.go:187 | Go's `uint64(int64)` conversion is below 2^64, congruent to its input modulo 2^64, and the identity on non-negative sizes |
| Reconciliation.CheckSameSize | repo.go:151-171 | with a file of the declared size, the package is valid iff its checksum can be read and the validator accepts it; every other outcome is `Corrupt` |
| Reconciliation.ClassifyCases | repo.go:146-181 | full case split of the scan: `Missing` iff no file has the name; `Incomplete` iff some do and all are smaller; `TooLarge` iff the first not-smaller one is larger; otherwise the same-size checksum step decides |
| Reconciliation.FoundIff | repo.go:146-171 | a package is found iff the first listed file of its name that is not smaller has exactly the declared size, and its checksum reads and validates |
| Reconciliation.TooLargeNotFound | repo.go:173-176 | a larger file reached before any same-size file ends the scan as `TooLarge` with the package not found |
| Reconciliation.SmallerNeverFound | repo.go:177-179 | when every file of the package's name is smaller, the scan never sets `found` (`Incomplete`, or `Missing` when no file has the name) |
| Reconciliation.ScanListing | repo.go:146-181 | the inner loop with its `break`s computes exactly the `found` of the scan |
| Reconciliation.NotFoundIndicesExact | repo.go:141-188 | the not-found positions are strictly increasing catalog positions, and a position is listed iff its package is not found |
| Reconciliation.MissingAtNotFoundIndices | repo.go:139-188 | `missing` has one element per not-found position, and its k-th element is the package at the k-th such position (catalog order kept) |
| Reconciliation.MissingMultiplicity | repo.go:185-186 | each package occurs in `missing` as often as in the catalog if not found, and never if found |
| Reconciliation.MissingMembers | repo.go:141-188 | a catalog package is in `missing` iff it is not found |
| Reconciliation.MissingFromCatalog | repo.go:185-186 | everything in `missing` is a catalog package that was not found |
| Reconciliation.Reconcile | repo.go:139-189 | the loop yields the not-found packages in catalog order, and `totalsize` is the sum of their declared sizes modulo 2^64 |
| Scheduling.RequestForSpec | repo.go:195-214 | a missing package is dropped iff URL creation, checksum reading or hex decoding fails; otherwise its request has the URL, the label `[ i+1 / len(missing) ]`, the destination `Join(packagedir, Base(href))` whose base is the file name, the declared size as uint64, the checksum type and the decoded checksum |
| Scheduling.RequestsFromPositions | repo.go:194-216 | there are at most `len(missing)` requests, and each one is the request built for the missing package at its label position |
| Scheduling.RequestsInOrder | repo.go:194-216 | request label positions strictly increase, so the requests follow the order of `missing` |
| Scheduling.RequestsComplete | repo.go:196-213 | some request carries position i+1 iff building succeeds for `missing[i]` |
| Scheduling.BuildRequests | repo.go:193-216 | the request loop yields exactly the requests built for the missing packages, in order |
| PostDownload.OnDiskIff | repo.go:219-249 | after the responses, a file some download wrote is on disk unless `GPGCheck` is on and it opens, fails the GPG check and can be removed; any other file is on disk iff it was before |
| PostDownload.AfterResponsesBounded | repo.go:219-249 | the only files that can appear are the ones successful downloads wrote |
| PostDownload.NoGpgCheckKeepsAll | repo.go:228 | with `GPGCheck` off, the disk ends as the old files plus every downloaded file, whatever the signatures |
| PostDownload.RemovedIff | repo.go:222-249 | a file on disk is removed iff `GPGCheck` is on, a response for it has no error, it opens, its GPG check fails and `os.Remove` succeeds; failed downloads remove nothing |
| PostDownload.PackageDir.Store | repo.go:219 | a download adds exactly its destination file to the disk |
| PostDownload.PackageDir.Remove | repo.go:242 | `os.Remove` succeeds only on an existing, removable file, and then removes only that file |
| PostDownload.PackageDir.HandleResponses | repo.go:222-249 | the response loop leaves the disk as the response-by-response fold of the write, check and delete step |
| Pipeline.RequestsOnlyForNotFound | repo.go:185-216 | every built request is for a catalog package that was not found, and downloads to that package's local path |
| Pipeline.FoundNeverRequested | repo.go:141-216 | a package whose local copy is valid gets no download request |
| Pipeline.OversizedIsScheduled | repo.go:173-188 | a catalog package whose decisive local file is larger than declared ends up in `missing` |
| Pipeline.DeletedWasScheduled | repo.go:193-249 | when the responses answer the sync's own requests, every deleted file is the local path of a catalog package that was scheduled because it was not found |
| Pipeline.Sync | repo.go:91-249 | with GPG checking on and an unreadable key ring, the sync fails and touches nothing; otherwise `missing`, `totalsize` and the requests are those of the first two phases, and the final disk holds the old files and the downloaded ones, minus those the GPG step deleted |

## Left out

- Metadata caching (`CacheLocal`, `NewCache`, `PrimaryDB`, `Packages`) and the early error returns around it: the filtered catalog is an input sequence.
- `FilterPackages`: its source is not part of this model. The catalog input is taken to be already filtered.
- `os.MkdirAll` and `ioutil.ReadDir`: the directory listing is an input sequence of (name, size) pairs.
- `OpenKeyRing`: only whether it succeeds is modelled (`keyRingOpens`).
- `ValidateFileChecksum`, `grab.NewRequest`/`urljoin`, `os.Open`, `rpm.GPGCheck` and `os.Remove`: these are oracle parameters. Their results depend only on their arguments, so a file's contents and signature do not change during the run.
- The concurrent download client `download(reqs, DownloadThreads)`: a function from the requests to an arbitrary sequence of responses. Completion order and transfer-time checksum checks are not modelled. The destination of a response is its request's file name, and its file is taken to be written when its response arrives.
- Pipeline.Sync: a failed download is taken to leave nothing on disk; partial files that the download client may leave behind are not modelled.
- The directory listing (names and sizes) and the on-disk set of paths in `PackageDir` are separate inputs, so the model does not tie the sizes in the listing to the files on disk.
- The index rebuild (`createrepo`, `filepath.Glob`, `rpm.OpenPackageFile`, `PanicOn`, lines 251-273): RPM parsing and index writing are all I/O.
- Logging (`Dprintf`, `Errorf`) and `bytefmt` formatting. The request label is a structured value (position, total, package), not a formatted string.
- `defer f.Close()` inside the response loop: file handles are not modelled.
- Paths.Join: concatenates with one slash and does not apply `filepath.Clean`. So `Join("a", ".")` is `a/.` here, while Go gives `a`, and `Join("a", "..")` is `a/..` here, while Go gives the parent directory.
- Scheduling.RequestForSpec: the base of the destination path is stated equal to the file name only when the file name is not `/` (a location made only of slashes). With Go's cleaning `filepath.Join` it also differs when the file name is `.` or `..` (an empty location, or one ending in `/.` or `/..`), which this model's `Join` does not reproduce.
