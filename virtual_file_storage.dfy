/**
 * The virtual file storage: a registry of drivers kept sorted by root path
 * (ignoring case), the root driver at index 0 for the physical file system,
 * and a driver per opened container (`.zip`, `.nupkg`) that the root driver
 * registers the first time a path runs through it.
 *
 * The source's driver hierarchy (an abstract driver, the root driver and the
 * zip driver) is one class with a kind flag; each abstract operation
 * dispatches on it.
 */
module VirtualFileStorages {
  import opened Common
  import opened KeyOrder
  import opened StoragePaths

  /** The root paths of a run of drivers: the registry's keys. */
  function Keys(ds: seq<Driver>): (ks: seq<string>)
    ensures |ks| == |ds| && forall i :: 0 <= i < |ds| ==> ks[i] == ds[i].rootPath
  {
    seq(|ds|, i requires 0 <= i < |ds| => ds[i].rootPath)
  }

  /** Every driver registered before is still registered. */
  predicate Extends(before: seq<Driver>, after: seq<Driver>) {
    forall x :: x in before ==> x in after
  }

  /**
   * The sorted list's `Add` on drivers: a driver whose root path is already
   * a key is refused, any other goes to the insertion point of its key.
   */
  function InsertDriver(ds: seq<Driver>, d: Driver): (r: seq<Driver>)
    requires |ds| > 0 && ds[0].rootPath == [] && Sorted(Keys(ds)) && |d.rootPath| > 0
    ensures Keys(r) == InsertKey(Keys(ds), d.rootPath)
    ensures FindKey(Keys(ds), d.rootPath) >= 0 ==> r == ds
    ensures FindKey(Keys(ds), d.rootPath) < 0 ==> multiset(r) == multiset(ds) + multiset{d}
    ensures |r| > 0 && r[0] == ds[0] && Extends(ds, r)
    ensures forall x :: x in r[1..] ==> x == d || x in ds[1..]
  {
    var ks := Keys(ds);
    EmptyKeyFirst(ks, d.rootPath);
    if FindKey(ks, d.rootPath) >= 0 then ds
    else
      var p := Position(ks, d.rootPath);
      InsertAt(ds, d, p);
      ds[..p] + [d] + ds[p..]
  }

  /** Putting a driver at index `p > 0` puts its key there and keeps the first driver first. */
  lemma InsertAt(ds: seq<Driver>, d: Driver, p: nat)
    requires 0 < p <= |ds|
    ensures Keys(ds[..p] + [d] + ds[p..]) == Keys(ds)[..p] + [d.rootPath] + Keys(ds)[p..]
    ensures multiset(ds[..p] + [d] + ds[p..]) == multiset(ds) + multiset{d}
    ensures (ds[..p] + [d] + ds[p..])[0] == ds[0]
    ensures Extends(ds, ds[..p] + [d] + ds[p..])
    ensures forall x :: x in (ds[..p] + [d] + ds[p..])[1..] ==> x == d || x in ds[1..]
  {
    var r := ds[..p] + [d] + ds[p..];
    assert ds == ds[..p] + ds[p..];
    assert r[1..] == ds[1..p] + [d] + ds[p..];
    assert forall x :: x in ds[1..p] ==> x in ds[1..];
    assert forall x :: x in ds[p..] ==> x in ds[1..];
  }

  /**
   * The storage's `EnumerateFiles` once the path is normalised: the closest
   * driver is asked for the path without its root path.
   */
  function StorageEnumerate(h: Handlers, ds: seq<Driver>, fs: FileSystem, path: string): (r: Result<seq<string>>)
    requires |ds| > 0 && ds[0].rootPath == [] && Sorted(Keys(ds)) && |path| > 0
    ensures var j := ClosestKey(Keys(ds), path);
            r == Err(NullReference) <==> j > 0 && ds[j].archive.Err?
    ensures var j := ClosestKey(Keys(ds), path);
            j > 0 && ds[j].archive.Ok? ==> r.Ok? && forall x :: x in r.value ==> ds[j].rootPath <= x
  {
    var j := ClosestKey(Keys(ds), path);
    if j == 0 then RootEnumerate(h, fs, path)
    else ZipEnumerate(ds[j].rootPath, ds[j].archive, path[|ds[j].rootPath|..])
  }

  /**
   * The storage's `OpenRead` once the path is normalised: an existing file
   * directly, otherwise the closest driver with the path without its root
   * path.
   */
  function StorageOpen(h: Handlers, ds: seq<Driver>, fs: FileSystem, path: string): (r: Result<Stream>)
    requires |ds| > 0 && ds[0].rootPath == [] && Sorted(Keys(ds)) && |path| > 0
    ensures var j := ClosestKey(Keys(ds), path);
            r == Err(NullReference) <==> path !in fs.files && j > 0 && ds[j].archive.Err?
    ensures r.Ok? && r.value.PhysicalFile? ==> r.value.path == path && path in fs.files
  {
    if path in fs.files then Ok(PhysicalFile(path))
    else
      var j := ClosestKey(Keys(ds), path);
      if j == 0 then RootOpen(h, fs, path)
      else ZipOpen(ds[j].rootPath, ds[j].archive, path[|ds[j].rootPath|..])
  }

  /**
   * The root driver would find and mount `c` for `path` at `c` followed by
   * '\', when `c` is a container file ancestor of `path` with no nearer one.
   */
  lemma RootWouldMount(h: Handlers, fs: FileSystem, path: string, c: string)
    requires AltSep !in path && c + [Sep] <= path && |c| > 0 && c[|c| - 1] != Sep
    requires c in fs.files && IsContainer(h, c)
    requires forall a :: Ancestor(a, path) && |a| > |c| ==> !(a in fs.files && IsContainer(h, a))
    ensures FindContainer(h, fs, path) == Some(c) && ContainerRoot(c) == c + [Sep]
  {
    assert path[..|c| + 1] == c + [Sep];
    assert path[..|c|] == c && path[|c|] == Sep;
    assert AltSep !in c by {
      assert forall i :: 0 <= i < |c| ==> c[i] == path[i];
    }
    ContainerRootAppendsSep(c);
    NearestContainerFound(h, fs, c, path);
  }

  /**
   * A registered container driver lists as the root driver would by
   * mounting the container afresh: when the registry sends a directory path
   * to the driver mounted on the container file `c`, whose archive still
   * reads as it did, and no container lies between `c` and the path,
   * `EnumerateFiles` gives what it would give with no driver registered.
   */
  lemma RegisteredContainerListsAsRoot(h: Handlers, ds: seq<Driver>, fs: FileSystem, path: string, c: string)
    requires |ds| > 0 && ds[0].rootPath == [] && Sorted(Keys(ds)) && |path| > 0 && AltSep !in path
    requires ClosestKey(Keys(ds), path) > 0
    requires ds[ClosestKey(Keys(ds), path)].rootPath == c + [Sep]
    requires ds[ClosestKey(Keys(ds), path)].archive == OpenArchive(fs, c + [Sep])
    requires OpenArchive(fs, c + [Sep]).Ok?
    requires c + [Sep] <= path && |c| > 0 && c[|c| - 1] != Sep
    requires c in fs.files && IsContainer(h, c)
    requires forall a :: Ancestor(a, path) && |a| > |c| ==> !(a in fs.files && IsContainer(h, a))
    requires path !in fs.directories && !IsContainer(h, path)
    ensures StorageEnumerate(h, ds, fs, path) == RootEnumerate(h, fs, path)
  {
    RootWouldMount(h, fs, path, c);
  }

  /** Likewise, a registered container driver opens what the root driver would open by mounting it afresh. */
  lemma RegisteredContainerOpensAsRoot(h: Handlers, ds: seq<Driver>, fs: FileSystem, path: string, c: string)
    requires |ds| > 0 && ds[0].rootPath == [] && Sorted(Keys(ds)) && |path| > 0 && AltSep !in path
    requires ClosestKey(Keys(ds), path) > 0
    requires ds[ClosestKey(Keys(ds), path)].rootPath == c + [Sep]
    requires ds[ClosestKey(Keys(ds), path)].archive == OpenArchive(fs, c + [Sep])
    requires OpenArchive(fs, c + [Sep]).Ok?
    requires c + [Sep] <= path && |c| > 0 && c[|c| - 1] != Sep
    requires c in fs.files && IsContainer(h, c)
    requires forall a :: Ancestor(a, path) && |a| > |c| ==> !(a in fs.files && IsContainer(h, a))
    ensures StorageOpen(h, ds, fs, path) == RootOpen(h, fs, path)
  {
    RootWouldMount(h, fs, path, c);
  }

  class Driver {
    const storage: VirtualFileStorage
    const parent: Driver?
    const rootPath: string
    /** The root driver rather than a container driver. */
    const isRoot: bool
    /** What the container driver's constructor opened (the root driver holds no archive). */
    const archive: Result<seq<string>>
    /** The archive has been closed. */
    var disposed: bool

    /** A container driver of `s`, child of `r`, whose root path ends with '\'. */
    predicate IsContainerOf(s: VirtualFileStorage, r: Driver) {
      && !isRoot && storage == s && parent == r
      && |rootPath| > 0 && rootPath[|rootPath| - 1] == Sep
    }

    /** The root driver: no parent, the empty root path; it does not register itself. */
    constructor Root(storage: VirtualFileStorage)
      ensures this.storage == storage && parent == null && rootPath == [] && isRoot
      ensures archive == Ok([]) && !disposed
    {
      this.storage := storage;
      parent := null;
      rootPath := [];
      isRoot := true;
      archive := Ok([]);
      disposed := false;
    }

    /**
     * A container driver on the archive at `rootPath` without its trailing
     * '\'. It registers itself in `storage` whether or not the archive
     * opens: the registration comes first in the source, and a failure to
     * open the archive leaves a registered driver without one.
     */
    constructor Container(storage: VirtualFileStorage, parent: Driver, rootPath: string, fs: FileSystem)
      requires storage.Valid() && parent == storage.root
      requires |rootPath| > 0 && rootPath[|rootPath| - 1] == Sep
      modifies storage
      ensures IsContainerOf(storage, parent) && this.rootPath == rootPath && !disposed
      ensures archive == OpenArchive(fs, rootPath)
      ensures storage.drivers == InsertDriver(old(storage.drivers), this)
      ensures storage.Valid() && storage.root == old(storage.root)
    {
      this.storage := storage;
      this.parent := parent;
      this.rootPath := rootPath;
      isRoot := false;
      archive := OpenArchive(fs, rootPath);
      disposed := false;
      new;
      storage.AddDriver(this);
    }

    // -------------------------------------------------------------------
    // The root driver.
    // -------------------------------------------------------------------

    /**
     * `CreateDriver`: a container path gets a new driver, mounted at the
     * path with a trailing '\' and registered; any other path gets none.
     */
    method CreateDriver(fs: FileSystem, containerPath: string) returns (d: Driver?)
      requires isRoot && storage.Valid() && storage.root == this
      modifies storage
      ensures storage.Valid() && storage.root == this
      ensures (d != null) == IsContainer(storage.handlers, containerPath)
      ensures d == null ==> storage.drivers == old(storage.drivers)
      ensures d != null ==> && fresh(d) && d.IsContainerOf(storage, this)
                            && |containerPath| > 0 && d.rootPath == ContainerRoot(containerPath)
                            && d.archive == OpenArchive(fs, d.rootPath)
                            && storage.drivers == InsertDriver(old(storage.drivers), d)
    {
      if IsContainer(storage.handlers, containerPath) {
        ContainerIsNotEmpty(storage.handlers, containerPath);
        d := new Driver.Container(storage, this, ContainerRoot(containerPath), fs);
      } else {
        d := null;
      }
    }

    /**
     * `FindDriverForPath`: walks up the ancestors of the path, nearest
     * first, and mounts the first one that is an existing container file.
     */
    method FindDriverForPath(fs: FileSystem, relativePath: string) returns (d: Driver?)
      requires isRoot && storage.Valid() && storage.root == this
      modifies storage
      ensures storage.Valid() && storage.root == this && Extends(old(storage.drivers), storage.drivers)
      ensures d == null ==> storage.drivers == old(storage.drivers)
      ensures d != null ==> fresh(d) && d.IsContainerOf(storage, this) && storage.drivers == InsertDriver(old(storage.drivers), d)
      ensures d == null <==> FindContainer(storage.handlers, fs, relativePath).None?
      ensures d != null ==> && d.IsContainerOf(storage, this)
                            && d.rootPath == ContainerRoot(FindContainer(storage.handlers, fs, relativePath).value)
                            && d.archive == OpenArchive(fs, d.rootPath)
    {
      d := null;
      var current := relativePath;
      var next := DirectoryName(current);
      while next.Some?
        invariant storage.Valid() && storage.root == this && storage.drivers == old(storage.drivers)
        invariant d == null && next == DirectoryName(current)
        invariant FindContainer(storage.handlers, fs, relativePath) == FindContainer(storage.handlers, fs, current)
        decreases |current|
      {
        var containerPath := next.value;
        if containerPath in fs.files {
          d := CreateDriver(fs, containerPath);
          if d != null {
            return;
          }
        }
        current := containerPath;
        next := DirectoryName(current);
      }
    }

    /**
     * `EnumerateFilesForExistingDirectory`: each file of the directory,
     * followed, when it is a container, by the container's files.
     */
    method EnumerateFilesForExistingDirectory(fs: FileSystem, relativePath: string) returns (r: Result<seq<string>>)
      requires isRoot && storage.Valid() && storage.root == this
      requires relativePath in fs.directories
      modifies storage
      ensures storage.Valid() && storage.root == this && Extends(old(storage.drivers), storage.drivers)
      ensures r == DirectoryListing(storage.handlers, fs, fs.directories[relativePath])
    {
      var files := fs.directories[relativePath];
      var done: seq<string> := [];
      var i := 0;
      while i < |files|
        invariant 0 <= i <= |files|
        invariant storage.Valid() && storage.root == this && Extends(old(storage.drivers), storage.drivers)
        invariant DirectoryListing(storage.handlers, fs, files) == Then(done, DirectoryListing(storage.handlers, fs, files[i..]))
      {
        DirectoryListingStep(storage.handlers, fs, files, i);
        var one, _ := ListFile(fs, files[i]);
        if one.Err? {
          return Err(one.error);
        }
        ThenThen(done, one.value, DirectoryListing(storage.handlers, fs, files[i + 1..]));
        done := done + one.value;
        i := i + 1;
      }
      assert files[i..] == [] && done + [] == done;
      r := Ok(done);
    }

    /** The loop body of `EnumerateFilesForExistingDirectory`: a file, then what its container holds. */
    method ListFile(fs: FileSystem, f: string) returns (r: Result<seq<string>>, d: Driver?)
      requires isRoot && storage.Valid() && storage.root == this
      modifies storage
      ensures storage.Valid() && storage.root == this && Extends(old(storage.drivers), storage.drivers)
      ensures r == FileListing(storage.handlers, fs, f)
      ensures (d != null) == IsContainer(storage.handlers, f)
      ensures d == null ==> storage.drivers == old(storage.drivers)
      ensures d != null ==> && fresh(d) && d.IsContainerOf(storage, this) && d.rootPath == ContainerRoot(f)
                            && storage.drivers == InsertDriver(old(storage.drivers), d)
    {
      d := CreateDriver(fs, f);
      if d == null {
        return Ok([f]), d;
      }
      if d.archive.Err? {
        return Err(d.archive.error), d;
      }
      var inside := d.ZipEnumerateFiles([]);
      r := Ok([f] + inside.value);
    }

    /**
     * The root driver's `EnumerateFiles`: an existing directory, the path
     * itself as a container, the nearest container ancestor, or
     * `DirectoryNotFoundException`.
     */
    method RootEnumerateFiles(fs: FileSystem, relativePath: string) returns (r: Result<seq<string>>)
      requires isRoot && storage.Valid() && storage.root == this
      modifies storage
      ensures storage.Valid() && storage.root == this && Extends(old(storage.drivers), storage.drivers)
      ensures r == RootEnumerate(storage.handlers, fs, relativePath)
    {
      if relativePath in fs.directories {
        r := EnumerateFilesForExistingDirectory(fs, relativePath);
        return;
      }
      var d := CreateDriver(fs, relativePath);
      if d != null {
        if d.archive.Err? {
          return Err(d.archive.error);
        }
        r := d.ZipEnumerateFiles([]);
        return;
      }
      d := FindDriverForPath(fs, relativePath);
      if d != null {
        AncestorIsPrefix(FindContainer(storage.handlers, fs, relativePath).value, relativePath);
        if d.archive.Err? {
          return Err(d.archive.error);
        }
        r := d.ZipEnumerateFiles(relativePath[|d.rootPath|..]);
        return;
      }
      r := Err(DirectoryNotFound(relativePath));
    }

    /**
     * The root driver's `OpenRead`: an existing file, the nearest container
     * ancestor, or `FileNotFoundException` naming the full path.
     */
    method RootOpenRead(fs: FileSystem, relativePath: string) returns (r: Result<Stream>)
      requires isRoot && storage.Valid() && storage.root == this
      modifies storage
      ensures storage.Valid() && storage.root == this && Extends(old(storage.drivers), storage.drivers)
      ensures r == RootOpen(storage.handlers, fs, relativePath)
    {
      if relativePath in fs.files {
        return Ok(PhysicalFile(relativePath));
      }
      var d := FindDriverForPath(fs, relativePath);
      if d != null {
        AncestorIsPrefix(FindContainer(storage.handlers, fs, relativePath).value, relativePath);
        if d.archive.Err? {
          return Err(d.archive.error);
        }
        r := d.ZipOpenRead(relativePath[|d.rootPath|..]);
        return;
      }
      assert rootPath + relativePath == relativePath;
      r := Err(FileNotFound(rootPath + relativePath));
    }

    // -------------------------------------------------------------------
    // The zip driver.
    // -------------------------------------------------------------------

    /** The zip driver's `EnumerateFiles`: the archive's file entries under `relativePath`, behind the root path. */
    method ZipEnumerateFiles(relativePath: string) returns (r: Result<seq<string>>)
      requires !isRoot
      ensures r == ZipEnumerate(rootPath, archive, relativePath)
    {
      match archive {
        case Err(_) => r := Err(NullReference);
        case Ok(entries) => r := Ok(ZipList(rootPath, entries, relativePath));
      }
    }

    /** The zip driver's `OpenRead`: the entry named by the relative path, with '/' separators. */
    method ZipOpenRead(relativePath: string) returns (r: Result<Stream>)
      requires !isRoot
      ensures r == ZipOpen(rootPath, archive, relativePath)
    {
      if archive.Err? {
        return Err(NullReference);
      }
      var i := FindEntry(archive.value, ZipName(relativePath));
      if i >= 0 {
        r := Ok(ArchiveEntry(rootPath, archive.value[i]));
      } else {
        r := Err(FileNotFound(relativePath));
      }
    }

    // -------------------------------------------------------------------
    // The abstract operations.
    // -------------------------------------------------------------------

    method EnumerateFiles(fs: FileSystem, relativePath: string) returns (r: Result<seq<string>>)
      requires storage.Valid() && (isRoot <==> storage.root == this)
      modifies storage
      ensures storage.Valid() && storage.root == old(storage.root) && Extends(old(storage.drivers), storage.drivers)
      ensures isRoot ==> r == RootEnumerate(storage.handlers, fs, relativePath)
      ensures !isRoot ==> r == ZipEnumerate(rootPath, archive, relativePath) && storage.drivers == old(storage.drivers)
    {
      if isRoot {
        r := RootEnumerateFiles(fs, relativePath);
      } else {
        r := ZipEnumerateFiles(relativePath);
      }
    }

    method OpenRead(fs: FileSystem, relativePath: string) returns (r: Result<Stream>)
      requires storage.Valid() && (isRoot <==> storage.root == this)
      modifies storage
      ensures storage.Valid() && storage.root == old(storage.root) && Extends(old(storage.drivers), storage.drivers)
      ensures isRoot ==> r == RootOpen(storage.handlers, fs, relativePath)
      ensures !isRoot ==> r == ZipOpen(rootPath, archive, relativePath) && storage.drivers == old(storage.drivers)
    {
      if isRoot {
        r := RootOpenRead(fs, relativePath);
      } else {
        r := ZipOpenRead(relativePath);
      }
    }

    /**
     * The zip driver closes its archive; one whose archive never opened
     * holds a null archive and throws. The root driver releases nothing.
     */
    method Dispose() returns (r: Result<()>)
      modifies this
      ensures r.Err? <==> !isRoot && archive.Err?
      ensures r.Err? ==> r.error == NullReference && disposed == old(disposed)
      ensures r.Ok? ==> disposed == (old(disposed) || !isRoot)
    {
      if !isRoot {
        if archive.Err? {
          return Err(NullReference);
        }
        disposed := true;
      }
      return Ok(());
    }
  }

  /** The highest index past the first whose driver's archive never opened, or 0 when there is none. */
  function LastUnopened(ds: seq<Driver>): (k: nat)
    requires |ds| > 0
    ensures k < |ds| && (k > 0 ==> ds[k].archive.Err?)
    ensures forall j :: k < j < |ds| ==> ds[j].archive.Ok?
    decreases |ds|
  {
    if |ds| == 1 then 0
    else if ds[|ds| - 1].archive.Err? then |ds| - 1
    else LastUnopened(ds[..|ds| - 1])
  }

  /** A registry sorted by key holds each driver once. */
  lemma DriversDistinct(ds: seq<Driver>)
    requires Sorted(Keys(ds))
    ensures forall k, j :: 0 <= k < j < |ds| ==> ds[k] != ds[j]
  {
    forall k, j | 0 <= k < j < |ds|
      ensures ds[k] != ds[j]
    {
      assert LessIgnoreCase(Keys(ds)[k], Keys(ds)[j]);
      LessIrreflexive(UpperString(ds[j].rootPath));
    }
  }

  /** Past the root, a registry of container drivers holds no root driver. */
  lemma ContainersAreNotRoot(ds: seq<Driver>, s: VirtualFileStorage, r: Driver)
    requires |ds| > 0 && forall d :: d in ds[1..] ==> d.IsContainerOf(s, r)
    ensures forall k :: 0 < k < |ds| ==> !ds[k].isRoot
  {
    forall k | 0 < k < |ds|
      ensures !ds[k].isRoot
    {
      assert ds[k] == ds[1..][k - 1];
      assert ds[k] in ds[1..];
    }
  }

  class VirtualFileStorage {
    const handlers: Handlers
    var root: Driver?
    /** The registry, sorted by root path ignoring case. */
    var drivers: seq<Driver>

    ghost predicate Valid()
      reads this
    {
      && root != null && |drivers| > 0 && drivers[0] == root
      && root.isRoot && root.storage == this && root.parent == null && root.rootPath == []
      && (forall d :: d in drivers[1..] ==> d.IsContainerOf(this, root))
      && Sorted(Keys(drivers))
    }

    /** A storage whose registry holds only the root driver. */
    constructor (handleZip: bool, handleNupkg: bool)
      ensures handlers == Handlers(handleZip, handleNupkg)
      ensures Valid() && drivers == [root] && fresh(root) && !root.disposed
    {
      handlers := Handlers(handleZip, handleNupkg);
      new;
      root := new Driver.Root(this);
      drivers := [root];
    }

    /** `AddDriver`: the sorted list's `Add`. */
    method AddDriver(d: Driver)
      requires Valid() && d.IsContainerOf(this, root)
      modifies this
      ensures drivers == InsertDriver(old(drivers), d)
      ensures Valid() && root == old(root)
    {
      InsertKeySorted(Keys(drivers), d.rootPath);
      drivers := InsertDriver(drivers, d);
    }

    /**
     * `FindClosestDriver`: a path that is a root path is handed to that
     * driver's parent; any other goes to the nearest driver below its
     * insertion point whose root path prefixes it, the root driver failing
     * any other.
     */
    method FindClosestDriver(path: string) returns (d: Driver)
      requires Valid() && |path| > 0
      ensures d == drivers[ClosestKey(Keys(drivers), path)]
      ensures FindKey(Keys(drivers), path) >= 0 ==> d == root
      ensures FindKey(Keys(drivers), path) < 0 ==> StartsWithIgnoreCase(path, d.rootPath)
      ensures d.storage == this && (d.isRoot <==> d == root)
    {
      var ks := Keys(drivers);
      var idx := IndexOf(ks, path);
      if idx > 0 {
        assert drivers[idx] in drivers[1..] by {
          assert drivers[idx] == drivers[1..][idx - 1];
        }
        d := drivers[idx].parent;
        assert d == root;
      } else {
        assert idx != 0 by {
          assert |UpperString(ks[0])| != |UpperString(path)|;
        }
        idx := -idx - 1;
        EmptyKeyFirst(ks, path);
        var j := idx - 1;
        while j > 0 && !StartsWithIgnoreCase(path, drivers[j].rootPath)
          invariant 0 <= j < idx
          invariant ClosestBelow(ks, path, j + 1) == ClosestBelow(ks, path, idx)
        {
          j := j - 1;
        }
        d := drivers[j];
        if j > 0 {
          assert d == drivers[1..][j - 1];
          assert d.IsContainerOf(this, root);
        }
      }
    }

    /**
     * `EnumerateFiles`: a null or blank path is refused; any other is
     * normalised with a trailing '\' and handed to the closest driver
     * without that driver's root path.
     */
    method EnumerateFiles(fs: FileSystem, fullDirectoryPath: Option<string>) returns (r: Result<seq<string>>)
      requires Valid()
      modifies this
      ensures Valid() && root == old(root) && Extends(old(drivers), drivers)
      ensures IsNullOrWhiteSpace(fullDirectoryPath) ==> r == Err(Argument) && drivers == old(drivers)
      ensures !IsNullOrWhiteSpace(fullDirectoryPath) ==>
                r == StorageEnumerate(handlers, old(drivers), fs, NormalizePathSeparator(fullDirectoryPath.value, true))
    {
      if IsNullOrWhiteSpace(fullDirectoryPath) {
        return Err(Argument);
      }
      var path := NormalizePathSeparator(fullDirectoryPath.value, true);
      var d := FindClosestDriver(path);
      r := d.EnumerateFiles(fs, path[|d.rootPath|..]);
    }

    /**
     * `OpenRead`: a null or blank path is refused; any other is normalised
     * without a trailing '\', opened directly when it is an existing file,
     * and otherwise handed to the closest driver without that driver's root
     * path.
     */
    method OpenRead(fs: FileSystem, fullPath: Option<string>) returns (r: Result<Stream>)
      requires Valid()
      modifies this
      ensures Valid() && root == old(root) && Extends(old(drivers), drivers)
      ensures IsNullOrWhiteSpace(fullPath) ==> r == Err(Argument) && drivers == old(drivers)
      ensures !IsNullOrWhiteSpace(fullPath) ==>
                r == StorageOpen(handlers, old(drivers), fs, NormalizePathSeparator(fullPath.value, false))
    {
      if IsNullOrWhiteSpace(fullPath) {
        return Err(Argument);
      }
      var path := NormalizePathSeparator(fullPath.value, false);
      if path in fs.files {
        return Ok(PhysicalFile(path));
      }
      var d := FindClosestDriver(path);
      r := d.OpenRead(fs, path[|d.rootPath|..]);
    }

    /**
     * `Dispose`: every driver but the root, from the last one down, closes
     * its archive; the registry is then emptied. A driver whose archive
     * never opened throws, which stops the loop: the drivers below it stay
     * open and the registry is kept.
     */
    method Dispose() returns (r: Result<()>)
      requires Valid()
      modifies this, drivers[1..]
      ensures var k := LastUnopened(old(drivers));
        && (r.Err? <==> k > 0)
        && (r.Err? ==> r.error == NullReference && drivers == old(drivers))
        && (r.Ok? ==> drivers == [])
        && (forall j :: k < j < |old(drivers)| ==> old(drivers)[j].disposed)
        && (forall j :: 0 <= j <= k ==> old(drivers)[j].disposed == old(drivers[j].disposed))
      ensures root == old(root)
    {
      ContainersAreNotRoot(drivers, this, root);
      DriversDistinct(drivers);
      r := CloseDrivers();
      if r.Ok? {
        drivers := [];
      }
    }

    /** The loop of `Dispose`: the drivers above the root, from the last one down, close their archives. */
    method CloseDrivers() returns (r: Result<()>)
      requires |drivers| > 0
      requires forall k :: 0 < k < |drivers| ==> !drivers[k].isRoot
      requires forall k, j :: 0 <= k < j < |drivers| ==> drivers[k] != drivers[j]
      modifies drivers[1..]
      ensures var k := LastUnopened(drivers);
        && (r.Err? <==> k > 0)
        && (r.Err? ==> r.error == NullReference)
        && (forall j :: k < j < |drivers| ==> drivers[j].disposed)
        && (forall j :: 0 <= j <= k ==> drivers[j].disposed == old(drivers[j].disposed))
    {
      var i := |drivers| - 1;
      while i > 0
        invariant 0 <= i < |drivers|
        invariant forall k :: i < k < |drivers| ==> drivers[k].disposed && drivers[k].archive.Ok?
        invariant forall k :: 0 <= k <= i ==> drivers[k].disposed == old(drivers[k].disposed)
      {
        var d := drivers[i];
        assert d in drivers[1..] by {
          assert d == drivers[1..][i - 1];
        }
        label before:
        var e := d.Dispose();
        if e.Err? {
          assert LastUnopened(drivers) == i;
          return e;
        }
        assert forall k :: 0 <= k < |drivers| ==> drivers[k] == d || unchanged@before(drivers[k]);
        i := i - 1;
      }
      assert LastUnopened(drivers) == 0;
      return Ok(());
    }
  }
}
