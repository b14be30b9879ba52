/**
 * CK.Globbing's FileNameList: a list of file names and an optional list of
 * directory names, both kept strictly sorted in ordinal order, combined with
 * other lists through the sorted-array union and difference.
 */
module FileNameLists {
  import opened Common
  import opened SortedStringArray

  // ---------------------------------------------------------------------
  // The ordinal sort of the constructor (`OrderBy` with the ordinal
  // comparer): a stable sort that keeps duplicates.
  // ---------------------------------------------------------------------

  /** No string comes after a later one: sorted, duplicates allowed. */
  predicate Ordered(s: seq<string>) {
    forall i, j :: 0 <= i < j < |s| ==> !Less(s[j], s[i])
  }

  /** No string occurs twice. */
  predicate NoDuplicates(s: seq<string>) {
    forall i, j :: 0 <= i < j < |s| ==> s[i] != s[j]
  }

  /** Inserts `x` before the first string of `t` that is not below it. */
  function Insert(x: string, t: seq<string>): (r: seq<string>)
    ensures |r| == |t| + 1
  {
    if |t| == 0 then [x]
    else if Less(t[0], x) then [t[0]] + Insert(x, t[1..])
    else [x] + t
  }

  /** The constructor's ordinal sort: the same names, each as often as given. */
  function SortOrdinal(s: seq<string>): (r: seq<string>)
    ensures |r| == |s|
    ensures multiset(r) == multiset(s)
  {
    if |s| == 0 then []
    else
      InsertPermutes(s[0], SortOrdinal(s[1..]));
      assert s == [s[0]] + s[1..];
      Insert(s[0], SortOrdinal(s[1..]))
  }

  lemma {:induction false} InsertPermutes(x: string, t: seq<string>)
    ensures multiset(Insert(x, t)) == multiset(t) + multiset{x}
  {
    if |t| > 0 && Less(t[0], x) {
      InsertPermutes(x, t[1..]);
      assert t == [t[0]] + t[1..];
    }
  }

  lemma {:induction false} InsertOrdered(x: string, t: seq<string>)
    requires Ordered(t)
    ensures Ordered(Insert(x, t))
  {
    if |t| > 0 && Less(t[0], x) {
      var rest := Insert(x, t[1..]);
      InsertOrdered(x, t[1..]);
      InsertPermutes(x, t[1..]);
      var r := [t[0]] + rest;
      forall i, j | 0 <= i < j < |r| ensures !Less(r[j], r[i]) {
        if i == 0 {
          var y := rest[j - 1];
          assert y in multiset(rest);
          if y == x {
            LessAsymmetric(t[0], x);
          } else {
            assert y in t[1..];
            var k :| 0 <= k < |t[1..]| && t[1..][k] == y;
            assert t[k + 1] == y;
          }
        }
      }
    } else if |t| > 0 {
      var r := [x] + t;
      forall i, j | 0 <= i < j < |r| ensures !Less(r[j], r[i]) {
        if i == 0 {
          if Less(r[j], x) {
            // r[j] == t[j - 1] is not below t[0], which is not below x
            LessTotal(t[0], x);
            if j - 1 > 0 {
              assert !Less(t[j - 1], t[0]);
              LessTotal(t[j - 1], t[0]);
              if Less(t[0], t[j - 1]) { LessTransitive(t[0], t[j - 1], x); }
            }
          }
        }
      }
    }
  }

  /** The sort yields an ordered permutation of its input. */
  lemma {:induction false} SortOrdinalIsSort(s: seq<string>)
    ensures Ordered(SortOrdinal(s))
    ensures multiset(SortOrdinal(s)) == multiset(s)
  {
    if |s| > 0 {
      SortOrdinalIsSort(s[1..]);
      InsertOrdered(s[0], SortOrdinal(s[1..]));
      InsertPermutes(s[0], SortOrdinal(s[1..]));
      assert s == [s[0]] + s[1..];
    }
  }

  /** Two equal strings at distinct indices occur at least twice. */
  lemma TwiceCounted(s: seq<string>, i: nat, j: nat)
    requires i < j < |s| && s[i] == s[j]
    ensures multiset(s)[s[i]] >= 2
  {
    assert s == s[..j] + s[j..];
    assert s[i] in s[..j] && s[j] in s[j..];
  }

  /** A string occurring twice sits at two distinct indices. */
  lemma CountedTwice(s: seq<string>, x: string)
    requires multiset(s)[x] >= 2
    ensures !NoDuplicates(s)
  {
    var i :| 0 <= i < |s| && s[i] == x;
    var rest := s[..i] + s[i + 1..];
    assert s == s[..i] + [s[i]] + s[i + 1..];
    assert x in multiset(rest);
    if x in s[..i] {
      var k :| 0 <= k < i && s[..i][k] == x;
      assert s[k] == s[i];
    } else {
      assert x in s[i + 1..];
      var k :| 0 <= k < |s[i + 1..]| && s[i + 1..][k] == x;
      assert s[i] == s[i + 1 + k];
    }
  }

  /** An ordered sequence is strictly sorted exactly when it has no duplicates. */
  lemma OrderedStrictIffNoDuplicates(s: seq<string>)
    requires Ordered(s)
    ensures StrictlySorted(s) <==> NoDuplicates(s)
  {
    if NoDuplicates(s) {
      forall i, j | 0 <= i < j < |s| ensures LessAt(s, i, j) {
        LessTotal(s[i], s[j]);
      }
    }
    if StrictlySorted(s) {
      forall i, j | 0 <= i < j < |s| ensures s[i] != s[j] {
        SortedAt(s, i, j);
        LessIrreflexive(s[i]);
      }
    }
  }

  /** Sorting removes no duplicate: the sorted names are strictly sorted iff the input has none. */
  lemma SortOrdinalStrict(s: seq<string>)
    ensures StrictlySorted(SortOrdinal(s)) <==> NoDuplicates(s)
  {
    var r := SortOrdinal(s);
    SortOrdinalIsSort(s);
    OrderedStrictIffNoDuplicates(r);
    if !NoDuplicates(s) {
      var i, j :| 0 <= i < j < |s| && s[i] == s[j];
      TwiceCounted(s, i, j);
      CountedTwice(r, s[i]);
    }
    if !NoDuplicates(r) {
      var i, j :| 0 <= i < j < |r| && r[i] == r[j];
      TwiceCounted(r, i, j);
      CountedTwice(s, r[i]);
    }
  }

  // ---------------------------------------------------------------------
  // The prefix of the constructor.
  // ---------------------------------------------------------------------

  /** Every name with `prefix` in front, when the prefix is neither null nor empty. */
  function Prefixed(prefix: Option<string>, s: seq<string>): (r: seq<string>)
    ensures |r| == |s|
    ensures forall i :: 0 <= i < |s| ==> r[i] == (if prefix.Some? then prefix.value else []) + s[i]
  {
    if prefix.Some? && |prefix.value| > 0 then seq(|s|, i requires 0 <= i < |s| => prefix.value + s[i]) else s
  }

  /** A common prefix does not change the ordinal order. */
  lemma {:induction false} LessUnderPrefix(p: string, a: string, b: string)
    ensures Less(p + a, p + b) <==> Less(a, b)
    decreases |p|
  {
    if |p| > 0 {
      assert (p + a)[0] == p[0] == (p + b)[0];
      assert (p + a)[1..] == p[1..] + a && (p + b)[1..] == p[1..] + b;
      LessUnderPrefix(p[1..], a, b);
    } else {
      assert p + a == a && p + b == b;
    }
  }

  lemma PrefixedKeepsOrder(prefix: Option<string>, s: seq<string>)
    ensures StrictlySorted(Prefixed(prefix, s)) <==> StrictlySorted(s)
    ensures Ordered(Prefixed(prefix, s)) <==> Ordered(s)
  {
    var r := Prefixed(prefix, s);
    if prefix.Some? && |prefix.value| > 0 {
      forall i, j | 0 <= i < |s| && 0 <= j < |s|
        ensures Less(r[i], r[j]) <==> Less(s[i], s[j])
      {
        LessUnderPrefix(prefix.value, s[i], s[j]);
      }
      assert forall i, j | 0 <= i < j < |s| :: LessAt(r, i, j) <==> LessAt(s, i, j);
    }
  }

  // ---------------------------------------------------------------------
  // The list itself.
  // ---------------------------------------------------------------------

  class FileNameList {
    /** The file names. */
    var files: array<string>
    /** The directory names; null when the list holds none. */
    var dirs: array?<string>

    /** Both lists are strictly sorted in ordinal order. */
    ghost predicate Valid()
      reads this, files, dirs
    {
      StrictlySorted(files[..]) && StrictlySorted(Elements(dirs))
    }

    /** An empty list, with an empty directory list when `withDirectories`, none otherwise. */
    constructor (withDirectories: bool)
      ensures files[..] == []
      ensures withDirectories <==> dirs != null
      ensures dirs != null ==> dirs[..] == []
      ensures Valid()
    {
      files := new string[0];
      if withDirectories {
        dirs := new string[0];
      } else {
        dirs := null;
      }
    }

    /**
     * A list of the given file names, sorted when `mustSort` (otherwise the
     * caller guarantees they are strictly sorted), each with `prefix` in
     * front when it is neither null nor empty. No directories.
     */
    constructor FromNames(names: seq<string>, prefix: Option<string>, mustSort: bool)
      requires mustSort || StrictlySorted(names)
      ensures files[..] == Prefixed(prefix, if mustSort then SortOrdinal(names) else names)
      ensures dirs == null
      ensures !mustSort ==> Valid()
      ensures mustSort ==> (Valid() <==> NoDuplicates(names))
    {
      var ordered := if mustSort then SortOrdinal(names) else names;
      var arr := new string[|ordered|](i requires 0 <= i < |ordered| => ordered[i]);
      if prefix.Some? && |prefix.value| > 0 {
        for i := 0 to arr.Length
          invariant forall k :: 0 <= k < i ==> arr[k] == prefix.value + ordered[k]
          invariant forall k :: i <= k < arr.Length ==> arr[k] == ordered[k]
        {
          arr[i] := prefix.value + arr[i];
        }
      }
      assert arr[..] == Prefixed(prefix, ordered);
      PrefixedKeepsOrder(prefix, ordered);
      if mustSort { SortOrdinalStrict(names); }
      files := arr;
      dirs := null;
    }

    /** The internal constructor: already strictly sorted files and optional directories. */
    constructor FromSorted(names: seq<string>, dirNames: Option<seq<string>>)
      requires StrictlySorted(names)
      requires dirNames.Some? ==> StrictlySorted(dirNames.value)
      ensures files[..] == names
      ensures dirNames.None? <==> dirs == null
      ensures dirs != null ==> dirs[..] == dirNames.value
      ensures Valid()
    {
      files := new string[|names|](i requires 0 <= i < |names| => names[i]);
      if dirNames.Some? {
        var d := dirNames.value;
        dirs := new string[|d|](i requires 0 <= i < |d| => d[i]);
      } else {
        dirs := null;
      }
    }

    /**
     * `Array.BinarySearch` over the files: the index of `fName` when present,
     * otherwise the bitwise complement of the index where it would be inserted.
     */
    method IndexOfFile(fName: string) returns (r: int)
      requires Valid()
      ensures 0 <= r ==> r < files.Length && files[r] == fName
      ensures r < 0 ==> fName !in files[..]
      ensures r < 0 ==> -r - 1 <= files.Length
      ensures r < 0 ==> forall k :: 0 <= k < -r - 1 ==> Less(files[k], fName)
      ensures r < 0 ==> forall k :: -r - 1 <= k < files.Length ==> Less(fName, files[k])
    {
      var lo, hi := 0, files.Length - 1;
      while lo <= hi
        invariant 0 <= lo <= hi + 1 <= files.Length
        invariant forall k :: 0 <= k < lo ==> Less(files[k], fName)
        invariant forall k :: hi < k < files.Length ==> Less(fName, files[k])
      {
        var mid := lo + (hi - lo) / 2;
        if files[mid] == fName {
          return mid;
        }
        LessTotal(files[mid], fName);
        if Less(files[mid], fName) {
          BelowAll(files[..], mid, fName);
          lo := mid + 1;
        } else {
          AboveAll(files[..], mid, fName);
          hi := mid - 1;
        }
      }
      forall k | 0 <= k < files.Length ensures files[k] != fName {
        if k < lo { LessImpliesDifferent(files[k], fName); }
        else { LessImpliesDifferent(fName, files[k]); }
      }
      r := -lo - 1;
    }

    /**
     * Combines `x` into this list: the files become the sorted union of both
     * file lists and, when this list has directories, so do the directories.
     * When `x` has none, the files are already combined when the directories
     * meet the null and throw.
     */
    method Add(x: FileNameList) returns (r: Result<()>)
      requires Valid() && x.Valid()
      modifies this
      ensures r.Err? <==> old(dirs) != null && old(x.dirs) == null
      ensures r.Err? ==> r.error == NullReference && dirs == old(dirs)
      ensures files[..] == Union(old(files[..]), old(x.files[..]))
      ensures (dirs == null) == (old(dirs) == null)
      ensures r.Ok? && dirs != null ==> dirs[..] == Union(old(dirs[..]), old(x.dirs[..]))
      ensures Valid()
    {
      var f := SortedArrayAdd(files, x.files);
      var d := dirs;
      if d != null && x.dirs == null {
        files := f;
        return Err(NullReference);
      }
      if d != null {
        d := SortedArrayAdd(d, x.dirs);
      }
      files, dirs := f, d;
      return Ok(());
    }

    /**
     * Subtracts `x` from this list: the files lose those listed in `x`, in
     * order, and so do the directories when this list has some. When `x`
     * has none, the files are already reduced when the directories meet the
     * null and throw.
     */
    method Remove(x: FileNameList) returns (r: Result<()>)
      requires Valid() && x.Valid()
      modifies this
      ensures r.Err? <==> old(dirs) != null && old(x.dirs) == null
      ensures r.Err? ==> r.error == NullReference && dirs == old(dirs)
      ensures files[..] == Difference(old(files[..]), old(x.files[..]))
      ensures (dirs == null) == (old(dirs) == null)
      ensures r.Ok? && dirs != null ==> dirs[..] == Difference(old(dirs[..]), old(x.dirs[..]))
      ensures Valid()
    {
      var f := SortedArrayRemove(files, x.files);
      var d := dirs;
      if d != null && x.dirs == null {
        files := f.value;
        return Err(NullReference);
      }
      if d != null {
        var rd := SortedArrayRemove(d, x.dirs);
        d := rd.value;
      }
      files, dirs := f.value, d;
      return Ok(());
    }
  }

  /** Every string up to a string below `x` is below `x`. */
  lemma BelowAll(s: seq<string>, mid: nat, x: string)
    requires StrictlySorted(s) && mid < |s| && Less(s[mid], x)
    ensures forall k :: 0 <= k <= mid ==> Less(s[k], x)
  {
    forall k | 0 <= k < mid ensures Less(s[k], x) {
      SortedAt(s, k, mid);
      LessTransitive(s[k], s[mid], x);
    }
  }

  /** Every string from a string above `x` on is above `x`. */
  lemma AboveAll(s: seq<string>, mid: nat, x: string)
    requires StrictlySorted(s) && mid < |s| && Less(x, s[mid])
    ensures forall k :: mid <= k < |s| ==> Less(x, s[k])
  {
    forall k | mid < k < |s| ensures Less(x, s[k]) {
      SortedAt(s, mid, k);
      LessTransitive(x, s[mid], s[k]);
    }
  }
}
