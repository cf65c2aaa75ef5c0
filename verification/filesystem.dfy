/**
 * The filesystem as the server observes it, and the path check both programs run
 * before creating or serving a resource.
 *
 * The filesystem is a record of facts per path: whether it is a directory, whether
 * it exists, whether fopen(p, "r") succeeds, and whether a failing fopen leaves errno
 * at EACCES. The one change the core makes to it is packaging a directory into an
 * archive file.
 */
module Filesystem {
  import opened Paths
  import opened Http

  datatype Fs = Fs(
    directories: set<Path>,   // is_directory(p)
    existing: set<Path>,      // exists(p)
    openable: set<Path>,      // fopen(p, "r") != NULL
    accessDenied: set<Path>)  // after a failed fopen, errno == EACCES

  predicate IsDirectory(fs: Fs, p: Path) {
    p in fs.directories
  }

  /**
   * check_path: "" when the path can be served, otherwise the status line to answer
   * with. A directory is accepted without further checks; an existing non-directory
   * must open for reading.
   */
  function CheckPath(fs: Fs, p: Path): (r: string)
    ensures r == "" <==> p in fs.directories || (p in fs.existing && p in fs.openable)
    ensures r == FORBIDDEN <==>
              p !in fs.directories && p in fs.existing && p !in fs.openable && p in fs.accessDenied
    ensures r == BAD_REQUEST <==>
              p !in fs.directories && p in fs.existing && p !in fs.openable && p !in fs.accessDenied
    ensures r == NOT_FOUND <==> p !in fs.directories && p !in fs.existing
  {
    if p in fs.directories then ""
    else if p in fs.existing then
      if p in fs.openable then ""
      else if p in fs.accessDenied then FORBIDDEN
      else BAD_REQUEST
    else NOT_FOUND
  }

  /** Two filesystems agree on every fact about `p`. */
  predicate SameFacts(a: Fs, b: Fs, p: Path) {
    && (p in a.directories <==> p in b.directories)
    && (p in a.existing <==> p in b.existing)
    && (p in a.openable <==> p in b.openable)
    && (p in a.accessDenied <==> p in b.accessDenied)
  }

  /**
   * compress_directory(dir, out), seen from outside and with its walk corrected
   * (CompressEntries): afterwards `out` is a regular, readable file (the archive) and
   * nothing else has changed.
   */
  function Package(fs: Fs, dir: Path, out: Path): (r: Fs)
    ensures !IsDirectory(r, out) && CheckPath(r, out) == ""
    ensures forall p :: p != out ==> SameFacts(fs, r, p)
  {
    Fs(fs.directories - {out}, fs.existing + {out}, fs.openable + {out}, fs.accessDenied - {out})
  }

  // ---------------------------------------------------------------------------
  // compress_directory's walk over the entries the recursive iterator yields, in the
  // iterator's order, given here as `entries`.

  /** A file whose contents go into the archive: not a directory, and it opens. */
  predicate Archived(fs: Fs, p: Path) {
    !IsDirectory(fs, p) && p in fs.openable
  }

  /**
   * One pass of the loop as written, from the entry at `i`: a directory is skipped and
   * a file that opens is written out, both advancing the iterator; a file that does not
   * open is logged and the loop continues without advancing it.
   */
  function NextAsWritten(fs: Fs, entries: seq<Path>, i: nat): (r: nat)
    requires i < |entries|
    ensures r == i || r == i + 1
    ensures r == i <==> !IsDirectory(fs, entries[i]) && entries[i] !in fs.openable
  {
    var p := entries[i];
    if IsDirectory(fs, p) then i + 1
    else if p !in fs.openable then i
    else i + 1
  }

  /** Where the loop as written stands after `n` passes from `i`; it stops at the end. */
  function PassesAsWritten(fs: Fs, entries: seq<Path>, i: nat, n: nat): (r: nat)
    requires i <= |entries|
    ensures i <= r <= |entries|
    decreases n
  {
    if n == 0 || i == |entries| then i
    else PassesAsWritten(fs, entries, NextAsWritten(fs, entries, i), n - 1)
  }

  /**
   * As written, the loop never gets past a file that does not open: from any position
   * at or before it, no number of passes reaches the end, so compress_directory does
   * not return and the request that asked for the directory never gets its answer.
   */
  lemma {:induction false} StuckBeforeUnreadable(fs: Fs, entries: seq<Path>, i: nat, j: nat, n: nat)
    requires i <= j < |entries|
    requires !IsDirectory(fs, entries[j]) && entries[j] !in fs.openable
    ensures PassesAsWritten(fs, entries, i, n) <= j < |entries|
    decreases n
  {
    if n > 0 {
      StuckBeforeUnreadable(fs, entries, NextAsWritten(fs, entries, i), j, n - 1);
    }
  }

  /** The files whose contents the intended walk writes, in the iterator's order. */
  function ArchivedFiles(fs: Fs, entries: seq<Path>): (r: seq<Path>)
    ensures |r| <= |entries|
    ensures forall p :: p in r <==> p in entries && Archived(fs, p)
    decreases |entries|
  {
    if entries == [] then []
    else
      var last := entries[|entries| - 1];
      ArchivedFiles(fs, entries[..|entries| - 1]) + (if Archived(fs, last) then [last] else [])
  }

  /**
   * compress_directory's loop corrected to advance the iterator past a file that does
   * not open: it ends after one pass per entry, and the files written are exactly the
   * ones that are not directories and open, in the iterator's order.
   */
  method CompressEntries(fs: Fs, entries: seq<Path>) returns (written: seq<Path>)
    ensures written == ArchivedFiles(fs, entries)
  {
    written := [];
    var i := 0;
    while i < |entries|
      invariant i <= |entries|
      invariant written == ArchivedFiles(fs, entries[..i])
    {
      var p := entries[i];
      assert entries[..i + 1][..i] == entries[..i];
      if !IsDirectory(fs, p) && p in fs.openable {
        written := written + [p];
      }
      i := i + 1;
    }
    assert entries[..i] == entries;
  }

  /** The path a resource is served from: a directory is served as its archive. */
  function ServedPath(fs: Fs, p: Path, tempDir: Path): Path {
    if IsDirectory(fs, p) then PackagedPath(tempDir, p) else p
  }

  /** The filesystem after serving `p`: a directory has been packaged. */
  function ServedFs(fs: Fs, p: Path, tempDir: Path): Fs {
    if IsDirectory(fs, p) then Package(fs, p, PackagedPath(tempDir, p)) else fs
  }

  /**
   * Serving is done once: what is served afterwards is a regular file that passes the
   * path check, and serving it again packages nothing and serves the same path.
   */
  lemma ServeOnce(fs: Fs, p: Path, tempDir: Path)
    requires CheckPath(fs, p) == ""
    ensures var q := ServedPath(fs, p, tempDir);
            var after := ServedFs(fs, p, tempDir);
            && !IsDirectory(after, q)
            && CheckPath(after, q) == ""
            && ServedPath(after, q, tempDir) == q
            && ServedFs(after, q, tempDir) == after
  {
  }

  /**
   * The packaging step of a GET, as the handlers run it: a directory is compressed into
   * its archive and the path rebound to the archive; any other path is left alone.
   */
  method Prepare(p: Path, fs: Fs, tempDir: Path) returns (q: Path, fs': Fs)
    ensures q == ServedPath(fs, p, tempDir) && fs' == ServedFs(fs, p, tempDir)
  {
    q, fs' := p, fs;
    if IsDirectory(fs, p) {
      q := PackagedPath(tempDir, p);
      fs' := Package(fs, p, q);
    }
  }
}
