/** The third phase of Repo.Sync: handle each finished download, and delete a
    downloaded package whose GPG signature check fails. */
module PostDownload {
  import opened Scheduling

  /** A grab.Response: the request it answers and whether it carries an error. */
  datatype Response = Response(request: Request, failed: bool)

  /** The file operations of this phase, given as predicates on a path: whether os.Open
      of an existing file succeeds, whether rpm.GPGCheck accepts it, and whether
      os.Remove of an existing file succeeds. */
  datatype FileOps = FileOps(
    readable: string -> bool,
    signatureOk: string -> bool,
    removable: string -> bool)

  /** The GPG step deletes file f: it opens, fails the signature check and can be removed. */
  predicate Rejected(ops: FileOps, f: string) {
    ops.readable(f) && !ops.signatureOk(f) && ops.removable(f)
  }

  /** The files on disk after one response arrives. A successful response means the
      download client has written its file; with GPG checking on, that file is then
      opened, checked and, when the check fails, removed. */
  function HandleResponse(files: set<string>, resp: Response, gpgCheck: bool, ops: FileOps): set<string> {
    var f := resp.request.filename;
    if resp.failed then files
    else
      var written := files + {f};
      if !gpgCheck then written
      else if !ops.readable(f) then written
      else if ops.signatureOk(f) then written
      else if ops.removable(f) then written - {f}
      else written
  }

  /** The files on disk after handling the responses in the order they arrive. */
  function AfterResponses(files: set<string>, responses: seq<Response>, gpgCheck: bool, ops: FileOps): set<string>
    decreases |responses|
  {
    if responses == [] then files
    else
      HandleResponse(AfterResponses(files, responses[..|responses| - 1], gpgCheck, ops),
                     responses[|responses| - 1], gpgCheck, ops)
  }

  /** A successful response for file f: the file was written and the GPG check is applied to it. */
  predicate Downloaded(responses: seq<Response>, f: string) {
    exists i | 0 <= i < |responses| :: !responses[i].failed && responses[i].request.filename == f
  }

  /** Exactly which files are on disk after the responses: a file some download wrote is
      there unless GPG checking is on and the GPG step rejects it; any other file is
      there iff it was there before. */
  lemma {:induction false} OnDiskIff(files: set<string>, responses: seq<Response>, gpgCheck: bool, ops: FileOps, f: string)
    ensures f in AfterResponses(files, responses, gpgCheck, ops) <==>
      if Downloaded(responses, f) then !(gpgCheck && Rejected(ops, f)) else f in files
    decreases |responses|
  {
    if responses != [] {
      var n := |responses| - 1;
      var init := responses[..n];
      OnDiskIff(files, init, gpgCheck, ops, f);
      var resp := responses[n];
      var hits := !resp.failed && resp.request.filename == f;
      if Downloaded(init, f) {
        var i :| 0 <= i < |init| && !init[i].failed && init[i].request.filename == f;
        assert responses[i] == init[i];
      }
      if Downloaded(responses, f) && !hits {
        var i :| 0 <= i < |responses| && !responses[i].failed && responses[i].request.filename == f;
        assert i < n && init[i] == responses[i];
      }
      assert hits ==> Downloaded(responses, f);
    }
  }

  /** The only files that can appear are the ones the downloads wrote. */
  lemma AfterResponsesBounded(files: set<string>, responses: seq<Response>, gpgCheck: bool, ops: FileOps, f: string)
    requires f in AfterResponses(files, responses, gpgCheck, ops)
    ensures f in files || Downloaded(responses, f)
  {
    OnDiskIff(files, responses, gpgCheck, ops, f);
  }

  /** With GPG checking off, every file is kept and every downloaded file stays, whatever
      the signatures. */
  lemma NoGpgCheckKeepsAll(files: set<string>, responses: seq<Response>, ops: FileOps, f: string)
    ensures f in AfterResponses(files, responses, false, ops) <==> f in files || Downloaded(responses, f)
  {
    OnDiskIff(files, responses, false, ops, f);
  }

  /** A file that was on disk is removed exactly when GPG checking is on, it was downloaded
      without error, it opens, its signature check fails, and os.Remove succeeds.
      Failed downloads therefore remove nothing. */
  lemma RemovedIff(files: set<string>, responses: seq<Response>, gpgCheck: bool, ops: FileOps, f: string)
    requires f in files
    ensures f !in AfterResponses(files, responses, gpgCheck, ops) <==>
      gpgCheck && Downloaded(responses, f) && ops.readable(f) && !ops.signatureOk(f) && ops.removable(f)
  {
    OnDiskIff(files, responses, gpgCheck, ops, f);
  }

  /** The package directory as far as this phase sees it: the set of file paths on disk. */
  class PackageDir {
    var files: set<string>

    constructor (files: set<string>)
      ensures this.files == files
    {
      this.files := files;
    }

    /** The download client writing a package to its destination. */
    method Store(f: string)
      modifies this
      ensures files == old(files) + {f}
    {
      files := files + {f};
    }

    /** os.Remove: succeeds on an existing file unless the file system refuses. */
    method Remove(f: string, ops: FileOps) returns (ok: bool)
      modifies this
      ensures ok == (f in old(files) && ops.removable(f))
      ensures files == if ok then old(files) - {f} else old(files)
    {
      ok := f in files && ops.removable(f);
      if ok {
        files := files - {f};
      }
    }

    /** The loop over the download responses. A successful response's file has been
        written by the download client by the time the response arrives. */
    method HandleResponses(responses: seq<Response>, gpgCheck: bool, ops: FileOps)
      modifies this
      ensures files == AfterResponses(old(files), responses, gpgCheck, ops)
    {
      for i := 0 to |responses|
        invariant files == AfterResponses(old(files), responses[..i], gpgCheck, ops)
      {
        assert responses[..i + 1][..i] == responses[..i];
        var resp := responses[i];
        if resp.failed {
          // the download error is only logged
        } else {
          var f := resp.request.filename;
          Store(f);
          if gpgCheck && ops.readable(f) {
            if !ops.signatureOk(f) {
              var removed := Remove(f, ops);
            }
          }
        }
      }
      assert responses[..|responses|] == responses;
    }
  }
}
