/**
 * What the virtual file storage's drivers compute, on values: the file
 * system they look at, the archive listing and lookup of the zip driver,
 * the ancestor walk that finds a container file, and the answers of the
 * root driver for `EnumerateFiles` and `OpenRead`.
 *
 * The file system is a value handed to each operation: the set of existing
 * files, the listing (`Directory.EnumerateFiles(dir, "*", AllDirectories)`)
 * of each existing directory, and the entry names of each file that opens
 * as a zip archive. Paths are looked up exactly as spelt.
 */
module StoragePaths {
  import opened Common

  datatype FileSystem = FileSystem(
    files: set<string>,
    directories: map<string, seq<string>>,
    archives: map<string, seq<string>>)

  /** Which container kinds the storage opens transparently. */
  datatype Handlers = Handlers(zip: bool, nupkg: bool)

  /** What `OpenRead` opens: a physical file, or an entry of the archive mounted at `archiveRoot`. */
  datatype Stream = PhysicalFile(path: string) | ArchiveEntry(archiveRoot: string, entryName: string)

  // ---------------------------------------------------------------------
  // Containers.
  // ---------------------------------------------------------------------

  /** `CreateDriver`'s test: the path names a `.zip` or `.nupkg` file, with or without a trailing '\'. */
  predicate IsContainer(h: Handlers, path: string) {
    || (h.zip && (EndsWithIgnoreCase(path, ".zip") || EndsWithIgnoreCase(path, ".zip\\")))
    || (h.nupkg && (EndsWithIgnoreCase(path, ".nupkg") || EndsWithIgnoreCase(path, ".nupkg\\")))
  }

  /** The root path of the driver mounted on a container: the path with a trailing '\'. */
  function ContainerRoot(containerPath: string): (root: string)
    requires |containerPath| > 0
    ensures |root| > 0 && root[|root| - 1] == Sep
    ensures var last := containerPath[|containerPath| - 1];
            |root| == if last == Sep || last == AltSep then |containerPath| else |containerPath| + 1
    ensures forall i :: 0 <= i < |containerPath| ==> root[i] == (if containerPath[i] == AltSep then Sep else containerPath[i])
  {
    NormalizePathSeparator(containerPath, true)
  }

  lemma ContainerIsNotEmpty(h: Handlers, path: string)
    requires IsContainer(h, path)
    ensures |path| >= 4
  {
  }

  /**
   * The zip driver's constructor: the archive is the file at the root path
   * without its trailing '\'; a missing file or one that is not an archive
   * makes the constructor throw.
   */
  function OpenArchive(fs: FileSystem, rootPath: string): (r: Result<seq<string>>)
    requires |rootPath| > 0
    ensures r.Ok? <==> rootPath[..|rootPath| - 1] in fs.files && rootPath[..|rootPath| - 1] in fs.archives
    ensures r.Ok? ==> r.value == fs.archives[rootPath[..|rootPath| - 1]]
    ensures r.Err? ==> r.error in {FileNotFound(rootPath[..|rootPath| - 1]), InvalidArchive(rootPath[..|rootPath| - 1])}
  {
    var file := rootPath[..|rootPath| - 1];
    if file !in fs.files then Err(FileNotFound(file))
    else if file !in fs.archives then Err(InvalidArchive(file))
    else Ok(fs.archives[file])
  }

  // ---------------------------------------------------------------------
  // The zip driver.
  // ---------------------------------------------------------------------

  predicate IsEntrySeparator(c: char) {
    c == '/' || c == Sep || c == ':'
  }

  /** `ZipArchiveEntry.Name`: what follows the last separator of the entry's full name. */
  function EntryName(fullName: string): (n: string)
    ensures |n| <= |fullName| && n == fullName[|fullName| - |n|..]
    ensures forall i :: 0 <= i < |n| ==> !IsEntrySeparator(n[i])
    ensures |n| < |fullName| ==> IsEntrySeparator(fullName[|fullName| - |n| - 1])
    decreases |fullName|
  {
    if |fullName| == 0 || IsEntrySeparator(fullName[|fullName| - 1]) then []
    else EntryName(fullName[..|fullName| - 1]) + [fullName[|fullName| - 1]]
  }

  /** A directory entry (one whose name ends with a separator) has an empty `Name`. */
  lemma DirectoryEntryHasNoName(fullName: string)
    ensures EntryName(fullName) == [] <==> |fullName| == 0 || IsEntrySeparator(fullName[|fullName| - 1])
  {
  }

  /** The zip driver's filter: a file entry whose separator-normalised name starts with `relativePath`. */
  predicate Listed(fullName: string, relativePath: string) {
    EntryName(fullName) != [] && StartsWithIgnoreCase(NormalizePathSeparator(fullName, false), relativePath)
  }

  /** The zip driver's `EnumerateFiles` pipeline over the archive's entries, in entry order. */
  function ZipList(rootPath: string, entries: seq<string>, relativePath: string): (r: seq<string>)
    ensures |r| <= |entries|
    ensures forall x :: x in r ==> rootPath <= x
    decreases |entries|
  {
    if |entries| == 0 then []
    else EntryListing(rootPath, entries[0], relativePath) + ZipList(rootPath, entries[1..], relativePath)
  }

  /** What one entry contributes to the listing: its normalised full name under the root path, when listed. */
  function EntryListing(rootPath: string, e: string, relativePath: string): seq<string> {
    if Listed(e, relativePath) then [rootPath + NormalizePathSeparator(e, false)] else []
  }

  /** A path is listed exactly when it is the root path followed by the normalised name of a listed entry. */
  lemma {:induction false} ZipListMembership(rootPath: string, entries: seq<string>, relativePath: string, x: string)
    ensures x in ZipList(rootPath, entries, relativePath)
        <==> exists e :: e in entries && Listed(e, relativePath) && x == rootPath + NormalizePathSeparator(e, false)
    decreases |entries|
  {
    if |entries| > 0 {
      ZipListMembership(rootPath, entries[1..], relativePath, x);
      assert forall e :: e in entries <==> e == entries[0] || e in entries[1..];
    }
  }

  /** The listing follows the archive's entry order. */
  lemma {:induction false} ZipListAppend(rootPath: string, a: seq<string>, b: seq<string>, relativePath: string)
    ensures ZipList(rootPath, a + b, relativePath) == ZipList(rootPath, a, relativePath) + ZipList(rootPath, b, relativePath)
    decreases |a|
  {
    if |a| > 0 {
      assert (a + b)[0] == a[0] && (a + b)[1..] == a[1..] + b;
      ZipListAppend(rootPath, a[1..], b, relativePath);
    } else {
      assert a + b == b;
    }
  }

  /** With an empty relative path every file entry is listed and no directory entry is. */
  lemma EmptyPrefixListsEveryFile(fullName: string)
    ensures Listed(fullName, []) <==> |fullName| > 0 && !IsEntrySeparator(fullName[|fullName| - 1])
  {
  }

  /** `relativePath.Replace('\\', '/')`: the name the archive is searched with. */
  function ZipName(relativePath: string): (r: string)
    ensures |r| == |relativePath| && Sep !in r
    ensures forall i :: 0 <= i < |r| ==> r[i] == (if relativePath[i] == Sep then '/' else relativePath[i])
  {
    seq(|relativePath|, i requires 0 <= i < |relativePath| => if relativePath[i] == Sep then '/' else relativePath[i])
  }

  /** `ZipArchive.GetEntry`: the first entry with exactly that full name, or -1. */
  function FindEntry(entries: seq<string>, name: string): (i: int)
    ensures -1 <= i < |entries|
    ensures i >= 0 ==> entries[i] == name && name !in entries[..i]
    ensures i < 0 <==> name !in entries
    decreases |entries|
  {
    if |entries| == 0 then -1
    else if entries[0] == name then 0
    else
      var i := FindEntry(entries[1..], name);
      assert entries == [entries[0]] + entries[1..];
      if i < 0 then -1
      else
        assert entries[..i + 1] == [entries[0]] + entries[1..][..i];
        i + 1
  }

  /**
   * The zip driver's `OpenRead`: the entry named by the relative path with
   * '\' turned into '/', or `FileNotFoundException` naming the relative
   * path. A driver whose archive failed to open has no archive to search.
   */
  function ZipOpen(rootPath: string, archive: Result<seq<string>>, relativePath: string): (r: Result<Stream>)
    ensures archive.Err? ==> r == Err(NullReference)
    ensures archive.Ok? && ZipName(relativePath) in archive.value ==> r == Ok(ArchiveEntry(rootPath, ZipName(relativePath)))
    ensures archive.Ok? && ZipName(relativePath) !in archive.value ==> r == Err(FileNotFound(relativePath))
  {
    match archive
    case Err(_) => Err(NullReference)
    case Ok(entries) =>
      var i := FindEntry(entries, ZipName(relativePath));
      if i >= 0 then Ok(ArchiveEntry(rootPath, entries[i])) else Err(FileNotFound(relativePath))
  }

  /** The zip driver's `EnumerateFiles`; a driver whose archive failed to open has no entries to read. */
  function ZipEnumerate(rootPath: string, archive: Result<seq<string>>, relativePath: string): (r: Result<seq<string>>)
    ensures archive.Err? <==> r == Err(NullReference)
    ensures archive.Ok? ==> r == Ok(ZipList(rootPath, archive.value, relativePath))
  {
    match archive
    case Err(_) => Err(NullReference)
    case Ok(entries) => Ok(ZipList(rootPath, entries, relativePath))
  }

  /** Normalising a name without '\' and turning '\' back into '/' gives the name back. */
  lemma ZipNameUndoesNormalization(fullName: string)
    requires Sep !in fullName
    ensures ZipName(NormalizePathSeparator(fullName, false)) == fullName
  {
    var n := NormalizePathSeparator(fullName, false);
    forall i | 0 <= i < |fullName| ensures ZipName(n)[i] == fullName[i] {
      assert fullName[i] != Sep;
    }
  }

  /**
   * Every path the zip driver lists opens through the same driver, on the
   * entry it was listed for, when no entry name holds a '\'.
   */
  lemma ListedEntriesOpen(rootPath: string, entries: seq<string>, relativePath: string, x: string)
    requires forall e :: e in entries ==> Sep !in e
    requires x in ZipList(rootPath, entries, relativePath)
    ensures rootPath <= x
    ensures ZipName(x[|rootPath|..]) in entries
    ensures ZipOpen(rootPath, Ok(entries), x[|rootPath|..]) == Ok(ArchiveEntry(rootPath, ZipName(x[|rootPath|..])))
  {
    ZipListMembership(rootPath, entries, relativePath, x);
    var e :| e in entries && Listed(e, relativePath) && x == rootPath + NormalizePathSeparator(e, false);
    assert x[|rootPath|..] == NormalizePathSeparator(e, false);
    ZipNameUndoesNormalization(e);
  }

  // ---------------------------------------------------------------------
  // Ancestors.
  // ---------------------------------------------------------------------

  /** The index of the last '\', or -1. */
  function LastSep(p: string): (k: int)
    ensures -1 <= k < |p|
    ensures k >= 0 ==> p[k] == Sep
    ensures forall i :: k < i < |p| ==> p[i] != Sep
    decreases |p|
  {
    if |p| == 0 then -1
    else if p[|p| - 1] == Sep then |p| - 1
    else
      var k := LastSep(p[..|p| - 1]);
      assert forall i :: k < i < |p| - 1 ==> p[i] == p[..|p| - 1][i];
      k
  }

  /**
   * `Path.GetDirectoryName`: the path cut at its last '\'; nothing once no
   * '\' is left past the first character.
   */
  function DirectoryName(p: string): (r: Option<string>)
    ensures r.Some? ==> 0 < |r.value| < |p| && r.value == p[..|r.value|] && p[|r.value|] == Sep
    ensures r.Some? ==> forall i :: |r.value| < i < |p| ==> p[i] != Sep
    ensures r.None? <==> forall i :: 0 < i < |p| ==> p[i] != Sep
  {
    var k := LastSep(p);
    if k <= 0 then Option.None else Some(p[..k])
  }

  /** `a` is met while walking up from `p` with `DirectoryName`. */
  predicate Ancestor(a: string, p: string)
    decreases |p|
  {
    match DirectoryName(p)
    case None => false
    case Some(q) => a == q || Ancestor(a, q)
  }

  /** An ancestor is a prefix of the path that a '\' follows. */
  lemma {:induction false} AncestorIsPrefix(a: string, p: string)
    requires Ancestor(a, p)
    ensures 0 < |a| < |p| && a == p[..|a|] && p[|a|] == Sep
    decreases |p|
  {
    var q := DirectoryName(p).value;
    if a != q {
      AncestorIsPrefix(a, q);
    }
  }

  /** Conversely, every non-empty prefix that a '\' follows is an ancestor. */
  lemma {:induction false} PrefixBeforeSepIsAncestor(p: string, k: int)
    requires 0 < k < |p| && p[k] == Sep
    ensures Ancestor(p[..k], p)
    decreases |p|
  {
    var q := DirectoryName(p).value;
    if |q| != k {
      assert |q| > k;
      assert q[k] == Sep && q[..k] == p[..k];
      PrefixBeforeSepIsAncestor(q, k);
    }
  }

  /**
   * `FindDriverForPath`'s walk: the nearest ancestor that is an existing
   * file and a container.
   */
  function FindContainer(h: Handlers, fs: FileSystem, p: string): (c: Option<string>)
    ensures c.Some? ==> Ancestor(c.value, p) && c.value in fs.files && IsContainer(h, c.value)
    decreases |p|
  {
    match DirectoryName(p)
    case None => Option.None
    case Some(q) => if q in fs.files && IsContainer(h, q) then Some(q) else FindContainer(h, fs, q)
  }

  /** The walk finds the longest container ancestor, and finds none only when there is none. */
  lemma {:induction false} FindContainerNearest(h: Handlers, fs: FileSystem, p: string)
    ensures FindContainer(h, fs, p).Some? ==>
              forall a :: Ancestor(a, p) && |a| > |FindContainer(h, fs, p).value| ==> !(a in fs.files && IsContainer(h, a))
    ensures FindContainer(h, fs, p).None? ==> forall a :: Ancestor(a, p) ==> !(a in fs.files && IsContainer(h, a))
    decreases |p|
  {
    match DirectoryName(p)
    case None =>
    case Some(q) =>
      FindContainerNearest(h, fs, q);
      forall a | Ancestor(a, q) ensures |a| < |q| {
        AncestorIsPrefix(a, q);
      }
  }

  /** A container ancestor with no nearer container ancestor is the one the walk finds. */
  lemma NearestContainerFound(h: Handlers, fs: FileSystem, c: string, p: string)
    requires 0 < |c| < |p| && c == p[..|c|] && p[|c|] == Sep
    requires c in fs.files && IsContainer(h, c)
    requires forall a :: Ancestor(a, p) && |a| > |c| ==> !(a in fs.files && IsContainer(h, a))
    ensures FindContainer(h, fs, p) == Some(c)
  {
    PrefixBeforeSepIsAncestor(p, |c|);
    FindContainerNearest(h, fs, p);
    AncestorIsPrefix(FindContainer(h, fs, p).value, p);
  }

  /** A container path without '/' and without a trailing '\' is mounted at itself followed by '\'. */
  lemma ContainerRootAppendsSep(c: string)
    requires |c| > 0 && AltSep !in c && c[|c| - 1] != Sep
    ensures ContainerRoot(c) == c + [Sep]
  {
  }

  // ---------------------------------------------------------------------
  // The root driver.
  // ---------------------------------------------------------------------

  /** What a newly mounted container lists: its constructor's failure, or its entries under `relativePath`. */
  function ContainerListing(fs: FileSystem, rootPath: string, relativePath: string): (r: Result<seq<string>>)
    requires |rootPath| > 0
    ensures r.Err? <==> OpenArchive(fs, rootPath).Err?
    ensures r.Ok? ==> r.value == ZipList(rootPath, OpenArchive(fs, rootPath).value, relativePath)
  {
    match OpenArchive(fs, rootPath)
    case Err(e) => Err(e)
    case Ok(entries) => Ok(ZipList(rootPath, entries, relativePath))
  }

  /**
   * One step of `EnumerateFilesForExistingDirectory`: the file itself and,
   * when it is a container, the files of the driver mounted on it.
   */
  function FileListing(h: Handlers, fs: FileSystem, f: string): (r: Result<seq<string>>)
    ensures r.Ok? ==> |r.value| > 0 && r.value[0] == f
    ensures !IsContainer(h, f) ==> r == Ok([f])
    ensures r.Err? <==> IsContainer(h, f) && OpenArchive(fs, ContainerRoot(f)).Err?
    ensures r.Err? ==> r.error == OpenArchive(fs, ContainerRoot(f)).error
  {
    if !IsContainer(h, f) then Ok([f])
    else match ContainerListing(fs, ContainerRoot(f), [])
      case Err(e) => Err(e)
      case Ok(xs) => Ok([f] + xs)
  }

  /**
   * `EnumerateFilesForExistingDirectory`: each file of the listing, and
   * right after a container file every file entry of that container.
   */
  function DirectoryListing(h: Handlers, fs: FileSystem, files: seq<string>): Result<seq<string>>
    decreases |files|
  {
    if |files| == 0 then Ok([])
    else match FileListing(h, fs, files[0])
      case Err(e) => Err(e)
      case Ok(xs) => Then(xs, DirectoryListing(h, fs, files[1..]))
  }

  /** One step of `DirectoryListing` from index `i`. */
  lemma DirectoryListingStep(h: Handlers, fs: FileSystem, files: seq<string>, i: nat)
    requires i < |files|
    ensures DirectoryListing(h, fs, files[i..])
         == match FileListing(h, fs, files[i])
            case Err(e) => Err(e)
            case Ok(xs) => Then(xs, DirectoryListing(h, fs, files[i + 1..]))
  {
    assert files[i..][0] == files[i] && files[i..][1..] == files[i + 1..];
  }

  /** The listing of two runs of files is the first run's followed by the second's. */
  lemma {:induction false} DirectoryListingAppend(h: Handlers, fs: FileSystem, a: seq<string>, b: seq<string>)
    ensures DirectoryListing(h, fs, a + b)
         == match DirectoryListing(h, fs, a)
            case Err(e) => Err(e)
            case Ok(xs) => Then(xs, DirectoryListing(h, fs, b))
    decreases |a|
  {
    if |a| > 0 {
      assert (a + b)[0] == a[0] && (a + b)[1..] == a[1..] + b;
      DirectoryListingAppend(h, fs, a[1..], b);
      var one := FileListing(h, fs, a[0]);
      if one.Ok? && DirectoryListing(h, fs, a[1..]).Ok? {
        ThenThen(one.value, DirectoryListing(h, fs, a[1..]).value, DirectoryListing(h, fs, b));
      }
    } else {
      assert a + b == b;
    }
  }

  /** Without container files the listing is passed through unchanged. */
  lemma {:induction false} DirectoryListingPlainFiles(h: Handlers, fs: FileSystem, files: seq<string>)
    requires forall f :: f in files ==> !IsContainer(h, f)
    ensures DirectoryListing(h, fs, files) == Ok(files)
    decreases |files|
  {
    if |files| > 0 {
      assert !IsContainer(h, files[0]);
      DirectoryListingPlainFiles(h, fs, files[1..]);
      assert DirectoryListing(h, fs, files) == Then([files[0]], Ok(files[1..]));
      assert files == [files[0]] + files[1..];
    }
  }

  /** Every file of the directory is itself part of a successful listing. */
  lemma {:induction false} DirectoryListingKeepsFiles(h: Handlers, fs: FileSystem, files: seq<string>, f: string)
    requires f in files && DirectoryListing(h, fs, files).Ok?
    ensures f in DirectoryListing(h, fs, files).value
    decreases |files|
  {
    var g := files[0];
    var r := DirectoryListing(h, fs, files);
    var done := FileListing(h, fs, g).value;
    if f == g {
      assert r.value[..|done|] == done;
      assert r.value[0] == f;
    } else {
      DirectoryListingKeepsFiles(h, fs, files[1..], f);
      var rest := DirectoryListing(h, fs, files[1..]).value;
      assert r.value[|done|..] == rest;
      var k :| 0 <= k < |rest| && rest[k] == f;
      assert r.value[|done| + k] == f;
    }
  }

  /**
   * The root driver's `EnumerateFiles`, in its order: an existing directory;
   * the path itself as a container, listed whole; the nearest container
   * ancestor, asked for the rest of the path; otherwise
   * `DirectoryNotFoundException`.
   */
  function RootEnumerate(h: Handlers, fs: FileSystem, relativePath: string): (r: Result<seq<string>>)
    ensures r.Err? ==> r.error == DirectoryNotFound(relativePath) || r.error.FileNotFound? || r.error.InvalidArchive?
    ensures r.Ok? && relativePath in fs.directories ==> forall f :: f in fs.directories[relativePath] ==> f in r.value
  {
    if relativePath in fs.directories then
      var files := fs.directories[relativePath];
      DirectoryListingNeverNotFound(h, fs, files);
      assert DirectoryListing(h, fs, files).Ok? ==> forall f :: f in files ==> f in DirectoryListing(h, fs, files).value by {
        if DirectoryListing(h, fs, files).Ok? {
          forall f | f in files ensures f in DirectoryListing(h, fs, files).value {
            DirectoryListingKeepsFiles(h, fs, files, f);
          }
        }
      }
      DirectoryListing(h, fs, files)
    else if IsContainer(h, relativePath) then ContainerListing(fs, ContainerRoot(relativePath), [])
    else match FindContainer(h, fs, relativePath)
      case Some(c) =>
        AncestorIsPrefix(c, relativePath);
        var root := ContainerRoot(c);
        ContainerListing(fs, root, relativePath[|root|..])
      case None => Err(DirectoryNotFound(relativePath))
  }

  /** `DirectoryNotFoundException` exactly when none of the three ways applies. */
  lemma RootEnumerateNotFound(h: Handlers, fs: FileSystem, relativePath: string)
    ensures RootEnumerate(h, fs, relativePath) == Err(DirectoryNotFound(relativePath))
        <==> && relativePath !in fs.directories
             && !IsContainer(h, relativePath)
             && forall a :: Ancestor(a, relativePath) ==> !(a in fs.files && IsContainer(h, a))
  {
    FindContainerNearest(h, fs, relativePath);
    if relativePath in fs.directories {
      DirectoryListingNeverNotFound(h, fs, fs.directories[relativePath]);
    }
  }

  /** A directory listing fails only the way a container's archive does. */
  lemma {:induction false} DirectoryListingNeverNotFound(h: Handlers, fs: FileSystem, files: seq<string>)
    ensures DirectoryListing(h, fs, files).Err? ==> DirectoryListing(h, fs, files).error.FileNotFound? || DirectoryListing(h, fs, files).error.InvalidArchive?
    decreases |files|
  {
    if |files| > 0 {
      DirectoryListingNeverNotFound(h, fs, files[1..]);
    }
  }

  /**
   * The root driver's `OpenRead`: an existing file; otherwise the entry, in
   * the nearest container ancestor, named by the rest of the path; otherwise
   * `FileNotFoundException` naming the path.
   */
  function RootOpen(h: Handlers, fs: FileSystem, relativePath: string): (r: Result<Stream>)
    ensures r.Err? ==> r.error.FileNotFound? || r.error.InvalidArchive?
    ensures r.Ok? ==>
              || (relativePath in fs.files && r.value == PhysicalFile(relativePath))
              || (&& FindContainer(h, fs, relativePath).Some? && r.value.ArchiveEntry?
                  && r.value.archiveRoot == ContainerRoot(FindContainer(h, fs, relativePath).value))
  {
    if relativePath in fs.files then Ok(PhysicalFile(relativePath))
    else match FindContainer(h, fs, relativePath)
      case Some(c) =>
        AncestorIsPrefix(c, relativePath);
        var root := ContainerRoot(c);
        (match OpenArchive(fs, root)
         case Err(e) => Err(e)
         case Ok(entries) => ZipOpen(root, Ok(entries), relativePath[|root|..]))
      case None => Err(FileNotFound(relativePath))
  }

  /** `OpenRead` on the root never meets an unopened archive, and opens physical files as they are. */
  lemma RootOpenOutcomes(h: Handlers, fs: FileSystem, relativePath: string)
    ensures relativePath in fs.files ==> RootOpen(h, fs, relativePath) == Ok(PhysicalFile(relativePath))
    ensures RootOpen(h, fs, relativePath) != Err(NullReference)
    ensures RootOpen(h, fs, relativePath).Ok? && relativePath !in fs.files ==> RootOpen(h, fs, relativePath).value.ArchiveEntry?
  {
  }
}
