/**
 * Path arithmetic the server performs on filesystem paths: the last component, the
 * parent, the extension, joining, the temporary archive path a directory is packaged
 * into, and the name a packaged file is stored under inside the archive.
 *
 * The functions follow version 3 of boost::filesystem on POSIX paths ('/' is the only
 * separator), including its reading of a trailing separator as a final "." component.
 * Runs of repeated separators are not collapsed.
 */
module Paths {

  type Path = string

  const SEPARATOR: char := '/'

  /** The extension every packaged directory gets. */
  const ARCHIVE_EXTENSION: string := ".tgz"

  /** Position of the last `c` in `s`, or -1 when there is none (std::string::rfind). */
  function LastIndexOf(s: string, c: char): (r: int)
    ensures -1 <= r < |s|
    ensures r >= 0 ==> s[r] == c
    ensures forall i :: r < i < |s| ==> s[i] != c
  {
    if s == [] then -1
    else if s[|s| - 1] == c then |s| - 1
    else LastIndexOf(s[..|s| - 1], c)
  }

  /** The last `c` of `s` is at `k` when `s[k]` is one and none follows. */
  lemma LastIndexOfIs(s: string, c: char, k: nat)
    requires k < |s| && s[k] == c
    requires forall i :: k < i < |s| ==> s[i] != c
    ensures LastIndexOf(s, c) == k
  {
  }

  predicate NoSeparator(s: string) {
    forall i :: 0 <= i < |s| ==> s[i] != SEPARATOR
  }

  predicate EndsInSeparator(p: Path) {
    p != [] && p[|p| - 1] == SEPARATOR
  }

  /**
   * path::filename(): everything after the last separator. The root "/" is its own
   * file name, and any other path ending in a separator has the file name ".".
   */
  function Filename(p: Path): (r: string)
    ensures |r| <= |p|
  {
    if p == [SEPARATOR] then p
    else if EndsInSeparator(p) then "."
    else p[LastIndexOf(p, SEPARATOR) + 1..]
  }

  /**
   * path::extension(): from the last '.' of the file name to its end; nothing for a
   * name without a dot and for "." and "..". A name such as ".profile" is all extension.
   */
  function Extension(p: Path): (r: string)
    ensures |r| <= |Filename(p)|
  {
    var name := Filename(p);
    if name == "." || name == ".." then ""
    else
      var k := LastIndexOf(name, '.');
      if k < 0 then "" else name[k..]
  }

  /** path::replace_extension(e): drop the current extension, then append `e` (with a dot). */
  function ReplaceExtension(p: Path, e: string): Path
  {
    var base := p[..|p| - |Extension(p)|];
    if e == [] then base
    else if e[0] == '.' then base + e
    else base + "." + e
  }

  /** operator/: append `n` to `d`, inserting a separator unless one is already there. */
  function Join(d: Path, n: Path): Path
  {
    if n == [] then d
    else if d == [] || d[|d| - 1] == SEPARATOR || n[0] == SEPARATOR then d + n
    else d + [SEPARATOR] + n
  }

  /** path::parent_path(): everything before the last separator, the root "/" for a top-level entry. */
  function ParentPath(p: Path): Path
  {
    var k := LastIndexOf(p, SEPARATOR);
    if k < 0 then ""
    else if k == 0 then (if |p| > 1 then [SEPARATOR] else "")
    else p[..k]
  }

  /**
   * Where a directory is packaged: the directory's own name under the temporary
   * directory, its extension replaced by ".tgz".
   */
  function PackagedPath(tempDir: Path, dir: Path): Path
  {
    ReplaceExtension(Join(tempDir, Filename(dir)), ARCHIVE_EXTENSION)
  }

  /**
   * The name a file found under `dir` gets inside the archive, as compress_directory
   * computes it: the first |parent| + 1 characters are dropped. When the parent is
   * the root "/", which already ends in a separator, this also drops the first
   * character of the directory's own name.
   */
  function EntryNameAsWritten(dir: Path, p: Path): string
    requires |ParentPath(dir)| + 1 <= |p|
  {
    p[|ParentPath(dir)| + 1..]
  }

  /** The length of the prefix to drop so that names start at the directory's own name. */
  function EntryOffset(dir: Path): nat
  {
    var parent := ParentPath(dir);
    if parent == [] then 0
    else if parent[|parent| - 1] == SEPARATOR then |parent|
    else |parent| + 1
  }

  /** The entry-name rule corrected: drop the parent and exactly one separator. */
  function EntryName(dir: Path, p: Path): string
    requires EntryOffset(dir) <= |p|
  {
    p[EntryOffset(dir)..]
  }

  // ---------------------------------------------------------------------------
  // Lemmas

  /**
   * The file name is never empty for a non-empty path and holds no separator unless
   * the path is the root. For a path that does not end in a separator it is the tail
   * after the last separator (or the whole path); for one that does, it is ".", or "/"
   * for the root.
   */
  lemma FilenameFacts(p: Path)
    ensures p != [] ==> Filename(p) != []
    ensures p != [SEPARATOR] ==> NoSeparator(Filename(p))
    ensures !EndsInSeparator(p) ==>
              && Filename(p) == p[|p| - |Filename(p)|..]
              && (|Filename(p)| < |p| ==> p[|p| - |Filename(p)| - 1] == SEPARATOR)
    ensures EndsInSeparator(p) ==> Filename(p) == if p == [SEPARATOR] then p else "."
  {
    if !EndsInSeparator(p) && p != [] {
      assert p[|p| - 1] != SEPARATOR;
    }
  }

  /**
   * The extension is empty or one dot followed by no other dot, at the end of the file
   * name: it runs from the name's last dot. It is empty exactly for "." and "..", and
   * for a name without a dot.
   */
  lemma ExtensionFacts(p: Path)
    ensures var r := Extension(p);
            && (r == [] || r[0] == '.')
            && (forall i :: 0 < i < |r| ==> r[i] != '.')
            && r == Filename(p)[|Filename(p)| - |r|..]
    ensures var name := Filename(p);
            Extension(p) == [] <==>
              name == "." || name == ".." || forall i :: 0 <= i < |name| ==> name[i] != '.'
  {
    var name := Filename(p);
    if name != "." && name != ".." && exists i :: 0 <= i < |name| && name[i] == '.' {
      var k := LastIndexOf(name, '.');
      assert k >= 0;
    }
  }

  /**
   * A name with dots loses everything from its last dot: "my.photos" has the stem "my"
   * and the extension ".photos", so "a.x" and "a.y" share the stem "a".
   */
  lemma StemOfDottedName(p: Path, a: string, b: string)
    requires Filename(p) == a + "." + b && Filename(p) != "." && Filename(p) != ".."
    requires forall i :: 0 <= i < |b| ==> b[i] != '.'
    ensures Extension(p) == "." + b && Stem(p) == a
  {
    var name := Filename(p);
    assert name[|a|] == '.';
    assert forall i :: |a| < i < |name| ==> name[i] == b[i - |a| - 1];
    LastIndexOfIs(name, '.', |a|);
    assert name[|a|..] == "." + b;
    assert name[..|a|] == a;
  }

  /** After a separator, a plain name is the last component. */
  lemma FilenameAfterSeparator(a: Path, n: Path)
    requires a != [] && a[|a| - 1] == SEPARATOR && n != [] && NoSeparator(n)
    ensures Filename(a + n) == n
  {
    var s := a + n;
    assert s[|s| - 1] == n[|n| - 1];
    var r := LastIndexOf(s, SEPARATOR);
    assert s[|a| - 1] == SEPARATOR;
    assert r == |a| - 1;
    assert s[r + 1..] == n;
  }

  /** The last component of `d` joined with a plain name is that name. */
  lemma FilenameOfJoin(d: Path, n: Path)
    requires n != [] && NoSeparator(n)
    ensures Filename(Join(d, n)) == n
  {
    if d == [] {
      assert Join(d, n) == n;
      assert LastIndexOf(n, SEPARATOR) == -1;
    } else if d[|d| - 1] == SEPARATOR {
      FilenameAfterSeparator(d, n);
    } else {
      assert n[0] != SEPARATOR;
      assert Join(d, n) == (d + [SEPARATOR]) + n;
      FilenameAfterSeparator(d + [SEPARATOR], n);
    }
  }

  /** What operator/ puts in front of a name that does not start with a separator. */
  function JoinPrefix(d: Path): Path
  {
    if d == [] || d[|d| - 1] == SEPARATOR then d else d + [SEPARATOR]
  }

  lemma JoinSplit(d: Path, n: Path)
    requires n != [] && n[0] != SEPARATOR
    ensures Join(d, n) == JoinPrefix(d) + n
  {
  }

  lemma ExtensionByFilename(p: Path, q: Path)
    requires Filename(p) == Filename(q)
    ensures Extension(p) == Extension(q)
  {
  }

  /** Cutting a name without separators in two. */
  lemma SplitPlainName(s: string, k: nat)
    requires k <= |s|
    ensures (NoSeparator(s) ==> NoSeparator(s[..k])) && s == s[..k] + s[k..]
  {
  }

  /** path::stem(): the file name without its extension. */
  function Stem(p: Path): (r: string)
    ensures p != [SEPARATOR] ==> NoSeparator(r)
    ensures Filename(p) == r + Extension(p)
  {
    var leaf := Filename(p);
    var k := |leaf| - |Extension(p)|;
    FilenameFacts(p);
    ExtensionFacts(p);
    SplitPlainName(leaf, k);
    leaf[..k]
  }

  /**
   * Replacing the extension keeps the directory part and the stem. The root's file
   * name "/" is appended without a separator, and then has no extension to replace.
   */
  lemma PackagedPathJoin(tempDir: Path, dir: Path)
    requires dir != []
    ensures dir != [SEPARATOR] ==>
              PackagedPath(tempDir, dir) == JoinPrefix(tempDir) + Stem(dir) + ARCHIVE_EXTENSION
    ensures dir == [SEPARATOR] ==>
              PackagedPath(tempDir, dir) == tempDir + [SEPARATOR] + ARCHIVE_EXTENSION
  {
    if dir == [SEPARATOR] {
      RootArchive(tempDir);
    } else {
      NamedArchive(tempDir, dir);
    }
  }

  lemma RootArchive(tempDir: Path)
    ensures PackagedPath(tempDir, [SEPARATOR]) == tempDir + [SEPARATOR] + ARCHIVE_EXTENSION
  {
    var j := tempDir + [SEPARATOR];
    assert Filename([SEPARATOR]) == [SEPARATOR];
    assert Join(tempDir, [SEPARATOR]) == j;
    assert EndsInSeparator(j);
    assert Extension(j) == [] by {
      if j != [SEPARATOR] {
        assert Filename(j) == ".";
      } else {
        assert LastIndexOf(j, '.') == -1;
      }
    }
  }

  lemma NamedArchive(tempDir: Path, dir: Path)
    requires dir != [] && dir != [SEPARATOR]
    ensures PackagedPath(tempDir, dir) == JoinPrefix(tempDir) + Stem(dir) + ARCHIVE_EXTENSION
  {
    var leaf := Filename(dir);
    var ext := Extension(dir);
    var prefix := JoinPrefix(tempDir);
    FilenameFacts(dir);
    JoinSplit(tempDir, leaf);
    var j := Join(tempDir, leaf);
    ConcatAssociative(prefix, Stem(dir), ext);
    FilenameOfJoin(tempDir, leaf);
    ExtensionByFilename(j, dir);
    DropSuffix(prefix + Stem(dir), ext);
  }

  /** The last dot of `stem + ".tgz"` is the one before "tgz". */
  lemma ExtensionOfArchiveName(d: Path, stem: string)
    requires NoSeparator(stem)
    ensures Filename(JoinPrefix(d) + (stem + ARCHIVE_EXTENSION)) == stem + ARCHIVE_EXTENSION
    ensures Extension(JoinPrefix(d) + (stem + ARCHIVE_EXTENSION)) == ARCHIVE_EXTENSION
  {
    var name := stem + ARCHIVE_EXTENSION;
    assert name[0] != SEPARATOR by {
      if stem != [] {
        assert name[0] == stem[0];
      }
    }
    JoinSplit(d, name);
    FilenameOfJoin(d, name);
    FilenameOfJoin([], name);
    ExtensionByFilename(JoinPrefix(d) + name, name);
    ArchiveExtension(stem);
  }

  /** The extension of a plain name `stem + ".tgz"` is ".tgz". */
  lemma ArchiveExtension(stem: string)
    requires NoSeparator(stem)
    ensures Extension(stem + ARCHIVE_EXTENSION) == ARCHIVE_EXTENSION
  {
    var name := stem + ARCHIVE_EXTENSION;
    assert name[|name| - 1] == 'z';
    assert forall i :: |stem| <= i < |name| ==> name[i] == ARCHIVE_EXTENSION[i - |stem|];
    assert NoSeparator(name);
    assert LastIndexOf(name, SEPARATOR) == -1;
    assert Filename(name) == name;
    assert name != "." && name != "..";
    LastIndexOfIs(name, '.', |stem|);
    assert name[|stem|..] == ARCHIVE_EXTENSION;
  }

  lemma DropSuffix(a: string, b: string)
    ensures (a + b)[..|a|] == a
  {
  }

  lemma ConcatAssociative(a: string, b: string, c: string)
    ensures a + b + c == a + (b + c)
  {
  }

  /** Regrouping `prefix + stem + ".tgz"` around the archive name. */
  lemma ArchiveNameParts(d: Path, stem: string, q: Path)
    requires NoSeparator(stem) && q == JoinPrefix(d) + stem + ARCHIVE_EXTENSION
    ensures Filename(q) == stem + ARCHIVE_EXTENSION && Extension(q) == ARCHIVE_EXTENSION
  {
    ConcatAssociative(JoinPrefix(d), stem, ARCHIVE_EXTENSION);
    ExtensionOfArchiveName(d, stem);
  }

  /** The name an archive of `dir` is offered under: the stem, nothing for the root, then ".tgz". */
  function ArchiveName(dir: Path): string {
    (if dir == [SEPARATOR] then "" else Stem(dir)) + ARCHIVE_EXTENSION
  }

  /** The archive is named after the directory's stem and has the archive extension. */
  lemma PackagedPathName(tempDir: Path, dir: Path)
    requires dir != []
    ensures Filename(PackagedPath(tempDir, dir)) == ArchiveName(dir)
    ensures Extension(PackagedPath(tempDir, dir)) == ARCHIVE_EXTENSION
  {
    PackagedPathJoin(tempDir, dir);
    if dir == [SEPARATOR] {
      var d := tempDir + [SEPARATOR];
      assert JoinPrefix(d) == d;
      ArchiveNameParts(d, "", PackagedPath(tempDir, dir));
    } else {
      ArchiveNameParts(tempDir, Stem(dir), PackagedPath(tempDir, dir));
    }
  }

  /**
   * A directory written with a trailing separator, "photos/", has the file name "."
   * and so the stem "."; it is packaged into "<temp>/..tgz" and offered as "..tgz",
   * whatever the directory is called.
   */
  lemma TrailingSeparatorArchive(tempDir: Path, dir: Path)
    requires EndsInSeparator(dir) && dir != [SEPARATOR]
    ensures Stem(dir) == "."
    ensures PackagedPath(tempDir, dir) == JoinPrefix(tempDir) + "." + ARCHIVE_EXTENSION
    ensures Filename(PackagedPath(tempDir, dir)) == "." + ARCHIVE_EXTENSION
  {
    FilenameFacts(dir);
    PackagedPathName(tempDir, dir);
    PackagedPathJoin(tempDir, dir);
  }

  /**
   * Directories that share a stem share an archive: "/a/a.x" and "/b/a.y" are both
   * packaged into "<temp>/a.tgz".
   */
  lemma SameStemSameArchive(tempDir: Path, d1: Path, d2: Path)
    requires d1 != [] && d1 != [SEPARATOR] && d2 != [] && d2 != [SEPARATOR]
    requires Stem(d1) == Stem(d2)
    ensures PackagedPath(tempDir, d1) == PackagedPath(tempDir, d2)
  {
    PackagedPathJoin(tempDir, d1);
    PackagedPathJoin(tempDir, d2);
  }

  /** A hidden name: a leading dot, at least one more character, and no other dot. */
  predicate HiddenName(name: string) {
    |name| >= 2 && name[0] == '.' && forall i :: 0 < i < |name| ==> name[i] != '.'
  }

  /** A hidden name is all extension: its stem is empty. */
  lemma HiddenNameIsAllExtension(p: Path)
    requires HiddenName(Filename(p))
    ensures Extension(p) == Filename(p) && Stem(p) == ""
  {
    var leaf := Filename(p);
    LastIndexOfIs(leaf, '.', 0);
    assert leaf != "." && leaf != "..";
  }

  /**
   * A hidden directory is packaged into an archive named ".tgz" itself: "/home/.cache"
   * under "/tmp" becomes "/tmp/.tgz", and so does every other hidden directory.
   */
  lemma HiddenDirectoryArchive(tempDir: Path, dir: Path)
    requires HiddenName(Filename(dir))
    ensures PackagedPath(tempDir, dir) == JoinPrefix(tempDir) + ARCHIVE_EXTENSION
  {
    HiddenNameIsAllExtension(dir);
    PackagedPathJoin(tempDir, dir);
    assert JoinPrefix(tempDir) + Stem(dir) == JoinPrefix(tempDir);
  }

  /** The parent of `parent/leaf`, where the parent of a top-level entry is the root. */
  lemma ParentOfChild(parent: Path, leaf: string)
    requires leaf != [] && NoSeparator(leaf)
    requires parent == [] || parent[|parent| - 1] != SEPARATOR
    ensures ParentPath(parent + [SEPARATOR] + leaf) == if parent == [] then [SEPARATOR] else parent
  {
    var dir := parent + [SEPARATOR] + leaf;
    var k := LastIndexOf(dir, SEPARATOR);
    assert dir[|parent|] == SEPARATOR;
    assert forall i :: |parent| < i < |dir| ==> dir[i] == leaf[i - |parent| - 1];
    assert k == |parent|;
    assert dir[..k] == parent;
  }

  /**
   * As written, a file `dir/rel` is stored as `leaf/rel` only when the directory is
   * not directly under the root; for a top-level directory the first character of
   * its name is lost.
   */
  lemma EntryNameAsWrittenCharacterised(parent: Path, leaf: string, rel: string)
    requires leaf != [] && NoSeparator(leaf)
    requires parent == [] || parent[|parent| - 1] != SEPARATOR
    ensures var dir := parent + [SEPARATOR] + leaf;
            var p := dir + [SEPARATOR] + rel;
            && |ParentPath(dir)| + 1 <= |p|
            && EntryNameAsWritten(dir, p) == (if parent == [] then leaf[1..] else leaf) + [SEPARATOR] + rel
  {
    var dir := parent + [SEPARATOR] + leaf;
    ParentOfChild(parent, leaf);
    var p := dir + [SEPARATOR] + rel;
    if parent == [] {
      assert p == [SEPARATOR] + leaf + [SEPARATOR] + rel;
      assert p[2..] == leaf[1..] + [SEPARATOR] + rel;
    } else {
      assert p == parent + [SEPARATOR] + (leaf + [SEPARATOR] + rel);
    }
  }

  /** Sharing "/tmp" stores "/tmp/a.txt" as "mp/a.txt" rather than "tmp/a.txt". */
  lemma EntryNameAsWrittenTopLevel()
    ensures EntryNameAsWritten("/tmp", "/tmp/a.txt") == "mp/a.txt"
  {
    EntryNameAsWrittenCharacterised("", "tmp", "a.txt");
    assert "/tmp" == "" + [SEPARATOR] + "tmp";
    assert "/tmp/a.txt" == "/tmp" + [SEPARATOR] + "a.txt";
  }

  /** Corrected, every file under a directory is stored under that directory's own name. */
  lemma EntryNameKeepsLeaf(parent: Path, leaf: string, rel: string)
    requires leaf != [] && NoSeparator(leaf)
    requires parent == [] || parent[|parent| - 1] != SEPARATOR
    ensures var dir := parent + [SEPARATOR] + leaf;
            var p := dir + [SEPARATOR] + rel;
            && EntryOffset(dir) <= |p|
            && EntryName(dir, p) == leaf + [SEPARATOR] + rel
            && Filename(dir) == leaf
  {
    var dir := parent + [SEPARATOR] + leaf;
    ParentOfChild(parent, leaf);
    FilenameOfJoin(parent + [SEPARATOR], leaf);
    assert Join(parent + [SEPARATOR], leaf) == dir;
    var p := dir + [SEPARATOR] + rel;
    if parent == [] {
      assert p == [SEPARATOR] + (leaf + [SEPARATOR] + rel);
    } else {
      assert p == parent + [SEPARATOR] + (leaf + [SEPARATOR] + rel);
    }
  }
}
