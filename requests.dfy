/** The second phase of Repo.Sync: turn the `missing` packages into download requests. */
module Scheduling {
  import opened Wrappers
  import opened Paths
  import opened Hex
  import opened Catalog

  /** The request label "[ position / total ] package" (Dafny reserves the word `label`,
      so a request's label is its `caption`). */
  datatype Label = Label(position: nat, total: nat, package: Package)

  /** A grab.Request as the sync fills it in: URL, label, destination file name, expected
      size and the checksum (algorithm and decoded bytes) the download is checked against. */
  datatype Request = Request(
    url: string,
    caption: Label,
    filename: string,
    size: nat,
    checksumType: string,
    checksum: seq<byte>)

  /** grab.NewRequest(urljoin(baseURL, href)): the request URL, or None when it fails. */
  type UrlResolver = (string, string) -> Option<string>

  /** The request built for missing[i], or None when the package is dropped because the
      URL, the checksum or its hex decoding fails. */
  function RequestFor(missing: seq<Package>, i: nat, packagedir: string, baseURL: string, resolve: UrlResolver): Option<Request>
    requires i < |missing|
  {
    var p := missing[i];
    match resolve(baseURL, p.locationHref)
    case None => None
    case Some(url) =>
      match p.checksum
      case None => None
      case Some(sum) =>
        match Decode(sum)
        case None => None
        case Some(bytes) =>
          Some(Request(url, Label(i + 1, |missing|, p), Join(packagedir, Base(p.locationHref)),
                       ToUint64(p.packageSize), p.checksumType, bytes))
  }

  /** The requests built from the first n missing packages, in order. */
  function RequestsUpTo(missing: seq<Package>, n: nat, packagedir: string, baseURL: string, resolve: UrlResolver): seq<Request>
    requires n <= |missing|
    decreases n
  {
    if n == 0 then []
    else
      var r := RequestFor(missing, n - 1, packagedir, baseURL, resolve);
      RequestsUpTo(missing, n - 1, packagedir, baseURL, resolve) + (if r.Some? then [r.value] else [])
  }

  function Requests(missing: seq<Package>, packagedir: string, baseURL: string, resolve: UrlResolver): seq<Request> {
    RequestsUpTo(missing, |missing|, packagedir, baseURL, resolve)
  }

  /** A package is dropped exactly when the URL cannot be built, its checksum cannot be
      read, or the checksum is not valid hex; otherwise its request is labelled with its
      1-based position out of |missing|, is written to the package directory under the
      package's base name, and carries its declared size and decoded checksum. */
  lemma RequestForSpec(missing: seq<Package>, i: nat, packagedir: string, baseURL: string, resolve: UrlResolver)
    requires i < |missing|
    ensures var r, p := RequestFor(missing, i, packagedir, baseURL, resolve), missing[i];
      && (r.Some? <==> resolve(baseURL, p.locationHref).Some? && p.checksum.Some? && Decode(p.checksum.value).Some?)
      && (r.Some? ==>
            && r.value.url == resolve(baseURL, p.locationHref).value
            && r.value.caption == Label(i + 1, |missing|, p)
            && r.value.filename == LocalPath(packagedir, p)
            && (FileName(p) != "/" ==> Base(r.value.filename) == FileName(p))
            && r.value.size == ToUint64(p.packageSize)
            && r.value.checksumType == p.checksumType
            && Decode(p.checksum.value) == Some(r.value.checksum))
  {
    var p := missing[i];
    if FileName(p) != "/" {
      BaseOfJoin(packagedir, FileName(p));
    }
  }

  /** There are at most n requests, and each one is the request built for the package
      at its label position. */
  lemma {:induction false} RequestsFromPositions(missing: seq<Package>, n: nat, packagedir: string,
                                                 baseURL: string, resolve: UrlResolver)
    requires n <= |missing|
    ensures var reqs := RequestsUpTo(missing, n, packagedir, baseURL, resolve);
      && |reqs| <= n
      && (forall k | 0 <= k < |reqs| ::
            && 1 <= reqs[k].caption.position <= n
            && RequestFor(missing, reqs[k].caption.position - 1, packagedir, baseURL, resolve) == Some(reqs[k]))
    decreases n
  {
    if n > 0 {
      RequestsFromPositions(missing, n - 1, packagedir, baseURL, resolve);
      var reqs0 := RequestsUpTo(missing, n - 1, packagedir, baseURL, resolve);
      var r := RequestFor(missing, n - 1, packagedir, baseURL, resolve);
      if r.Some? {
        assert RequestsUpTo(missing, n, packagedir, baseURL, resolve) == reqs0 + [r.value];
        assert r.value.caption.position == n;
      }
    }
  }

  /** The requests keep the order of `missing`: label positions strictly increase. */
  lemma {:induction false} RequestsInOrder(missing: seq<Package>, n: nat, packagedir: string,
                                           baseURL: string, resolve: UrlResolver)
    requires n <= |missing|
    ensures var reqs := RequestsUpTo(missing, n, packagedir, baseURL, resolve);
      forall k, l | 0 <= k < l < |reqs| :: reqs[k].caption.position < reqs[l].caption.position
    decreases n
  {
    if n > 0 {
      RequestsInOrder(missing, n - 1, packagedir, baseURL, resolve);
      RequestsFromPositions(missing, n - 1, packagedir, baseURL, resolve);
      var reqs0 := RequestsUpTo(missing, n - 1, packagedir, baseURL, resolve);
      var r := RequestFor(missing, n - 1, packagedir, baseURL, resolve);
      if r.Some? {
        assert RequestsUpTo(missing, n, packagedir, baseURL, resolve) == reqs0 + [r.value];
        assert r.value.caption.position == n;
      }
    }
  }

  /** Some request in `reqs` is labelled with the given position. */
  predicate HasPosition(reqs: seq<Request>, position: nat) {
    exists k | 0 <= k < |reqs| :: reqs[k].caption.position == position
  }

  lemma HasPositionAppend(reqs: seq<Request>, tail: seq<Request>, position: nat)
    ensures HasPosition(reqs + tail, position) <==> HasPosition(reqs, position) || HasPosition(tail, position)
  {
    if HasPosition(reqs + tail, position) {
      var k :| 0 <= k < |reqs + tail| && (reqs + tail)[k].caption.position == position;
      if k >= |reqs| {
        assert tail[k - |reqs|] == (reqs + tail)[k];
      }
    }
    if HasPosition(tail, position) {
      var k :| 0 <= k < |tail| && tail[k].caption.position == position;
      assert (reqs + tail)[|reqs| + k] == tail[k];
    }
    if HasPosition(reqs, position) {
      var k :| 0 <= k < |reqs| && reqs[k].caption.position == position;
      assert (reqs + tail)[k] == reqs[k];
    }
  }

  /** A missing package gets a request (one whose label carries its position) exactly
      when RequestFor succeeds for it. */
  lemma {:induction false} RequestsComplete(missing: seq<Package>, n: nat, packagedir: string,
                                            baseURL: string, resolve: UrlResolver)
    requires n <= |missing|
    ensures forall i | 0 <= i < n ::
      RequestFor(missing, i, packagedir, baseURL, resolve).Some? <==>
      HasPosition(RequestsUpTo(missing, n, packagedir, baseURL, resolve), i + 1)
    decreases n
  {
    if n > 0 {
      RequestsComplete(missing, n - 1, packagedir, baseURL, resolve);
      RequestsFromPositions(missing, n - 1, packagedir, baseURL, resolve);
      var reqs0 := RequestsUpTo(missing, n - 1, packagedir, baseURL, resolve);
      var r := RequestFor(missing, n - 1, packagedir, baseURL, resolve);
      var tail := if r.Some? then [r.value] else [];
      assert RequestsUpTo(missing, n, packagedir, baseURL, resolve) == reqs0 + tail;
      assert !HasPosition(reqs0, n);
      forall i | 0 <= i < n
        ensures RequestFor(missing, i, packagedir, baseURL, resolve).Some? <==> HasPosition(reqs0 + tail, i + 1)
      {
        HasPositionAppend(reqs0, tail, i + 1);
        if r.Some? {
          assert tail[0].caption.position == n;
        }
      }
    }
  }

  /** The request-building loop of the sync. */
  method BuildRequests(missing: seq<Package>, packagedir: string, baseURL: string, resolve: UrlResolver)
    returns (reqs: seq<Request>)
    ensures reqs == Requests(missing, packagedir, baseURL, resolve)
  {
    reqs := [];
    for i := 0 to |missing|
      invariant reqs == RequestsUpTo(missing, i, packagedir, baseURL, resolve)
    {
      var p := missing[i];
      var url := resolve(baseURL, p.locationHref);
      if url.Some? {
        var caption := Label(i + 1, |missing|, p);
        var filename := Join(packagedir, Base(p.locationHref));
        var size := ToUint64(p.packageSize);
        if p.checksum.Some? {
          var bytes := Decode(p.checksum.value);
          if bytes.Some? {
            reqs := reqs + [Request(url.value, caption, filename, size, p.checksumType, bytes.value)];
          }
        }
      }
    }
  }
}
