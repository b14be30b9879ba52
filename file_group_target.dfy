/**
 * CK's FileGroupTarget: a list of scoped filters run over the files a storage
 * enumerates. Each selected path is split into the root a filter removes and
 * the path that remains; files no filter decides on follow a policy.
 *
 * The decisions are specified on values (`Filter`, `IncludedFile`,
 * `IncludedFiles`) and the target object is proved to compute them.
 */
module FileGroupTargets {
  import opened Common
  import opened PathFilters
  import opened PathFilterLists
  import opened FileNameFilters

  /** What happens to a file that no filter decides on. */
  datatype FileFilterMatchBehavior = Default | NoneIsIncluded | NoneIsUnmatchedFileException

  /** `FileGroupTarget.Result`: a selected path and how it splits. */
  datatype FileResult = FileResult(filePath: string, removableRoot: string, finalFilePath: string)

  /** The invariant the `Result` constructor asserts. */
  predicate WellFormed(r: FileResult) {
    r.filePath == r.removableRoot + r.finalFilePath
  }

  /** What a `FileNameFilter` decides with: its root and its rules. */
  datatype Filter = Filter(root: Option<string>, rules: seq<Rule>)

  /** `filter.Root ?? String.Empty`. */
  function RootText(root: Option<string>): string {
    if root.Some? then root.value else []
  }

  function DecideWith(f: Filter, path: string): Result<FilterMatchResult> {
    Decide(f.root, f.rules, path)
  }

  // ---------------------------------------------------------------------
  // Splitting a path at a filter root.
  // ---------------------------------------------------------------------

  /** `new Result(filePath, filterRoot, filePath.Substring(filterRoot.Length))`, as written. */
  function SplitAsWritten(filePath: string, filterRoot: string): Result<FileResult> {
    if |filterRoot| > |filePath| then Err(ArgumentOutOfRange)
    else Ok(FileResult(filePath, filterRoot, filePath[|filterRoot|..]))
  }

  /**
   * The split the `Result` invariant calls for: the removable root is the
   * path's own spelling of the filter root when the path lies under it
   * (ignoring case), and empty otherwise.
   */
  function Split(filePath: string, filterRoot: string): (r: FileResult)
    ensures WellFormed(r) && r.filePath == filePath
    ensures StartsWithIgnoreCase(filePath, filterRoot)
            ==> EqualsIgnoreCase(r.removableRoot, filterRoot) && r.finalFilePath == filePath[|filterRoot|..]
    ensures !StartsWithIgnoreCase(filePath, filterRoot) ==> r.removableRoot == [] && r.finalFilePath == filePath
  {
    if StartsWithIgnoreCase(filePath, filterRoot) then
      assert filePath == filePath[..|filterRoot|] + filePath[|filterRoot|..];
      FileResult(filePath, filePath[..|filterRoot|], filePath[|filterRoot|..])
    else FileResult(filePath, [], filePath)
  }

  /** Where the root is spelt as in the path, both splits agree. */
  lemma SplitAgreesWhenSpeltAlike(filePath: string, filterRoot: string)
    requires filterRoot <= filePath
    ensures SplitAsWritten(filePath, filterRoot) == Ok(Split(filePath, filterRoot))
  {
    assert StartsWithIgnoreCase(filePath, filterRoot) by {
      forall i | 0 <= i < |filterRoot| ensures EqIgnoreCase(filePath[i], filterRoot[i]) {
      }
    }
    assert filePath[..|filterRoot|] == filterRoot;
  }

  // ---------------------------------------------------------------------
  // IncludedFile: the first filter that decides.
  // ---------------------------------------------------------------------

  /** The answer of the first filter that decides, with its root; `(None, None)` when none does. */
  function FirstDecision(filters: seq<Filter>, path: string): Result<(FilterMatchResult, Option<string>)>
    decreases |filters|
  {
    if |filters| == 0 then Ok((FilterMatchResult.None, Option.None))
    else match DecideWith(filters[0], path)
      case Err(e) => Err(e)
      case Ok(m) =>
        if m == FilterMatchResult.None then FirstDecision(filters[1..], path)
        else Ok((m, Some(RootText(filters[0].root))))
  }

  /** One step of `FirstDecision` from index `i`: the filter there fails, decides, or passes on. */
  lemma FirstDecisionStep(filters: seq<Filter>, i: nat, path: string)
    requires i < |filters|
    ensures DecideWith(filters[i], path).Err? ==>
      FirstDecision(filters[i..], path) == Err(DecideWith(filters[i], path).error)
    ensures DecideWith(filters[i], path) == Ok(FilterMatchResult.None) ==>
      FirstDecision(filters[i..], path) == FirstDecision(filters[i + 1..], path)
    ensures DecideWith(filters[i], path).Ok? && DecideWith(filters[i], path).value != FilterMatchResult.None ==>
      FirstDecision(filters[i..], path) == Ok((DecideWith(filters[i], path).value, Some(RootText(filters[i].root))))
  {
    assert filters[i..][0] == filters[i] && filters[i..][1..] == filters[i + 1..];
  }

  /** `IncludedFile`, as written: the decider's root is removed by length. */
  function ChallengeFileAsWritten(filters: seq<Filter>, path: string): (r: Result<(FilterMatchResult, FileResult)>)
    ensures ChallengeFile(filters, path).Err? ==> r == ChallengeFile(filters, path)
    ensures ChallengeFile(filters, path).Ok? ==>
              || r == Err(ArgumentOutOfRange)
              || (r.Ok? && r.value.0 == ChallengeFile(filters, path).value.0 && r.value.1.filePath == path)
  {
    match FirstDecision(filters, path)
    case Err(e) => Err(e)
    case Ok((m, fr)) =>
      if fr.None? then Ok((m, FileResult(path, [], path)))
      else match SplitAsWritten(path, fr.value)
        case Err(e) => Err(e)
        case Ok(r) => Ok((m, r))
  }

  /** `IncludedFile`, with the split that keeps the `Result` invariant. */
  function ChallengeFile(filters: seq<Filter>, path: string): Result<(FilterMatchResult, FileResult)> {
    match FirstDecision(filters, path)
    case Err(e) => Err(e)
    case Ok((m, fr)) =>
      if fr.None? then Ok((m, FileResult(path, [], path)))
      else Ok((m, Split(path, fr.value)))
  }

  /** No filter before index `i` decides on the path (and none fails). */
  predicate UndecidedBefore(filters: seq<Filter>, path: string, i: int)
    requires 0 <= i <= |filters|
  {
    forall j :: 0 <= j < i ==> DecideWith(filters[j], path) == Ok(FilterMatchResult.None)
  }

  lemma {:induction false} FirstDecisionSkips(filters: seq<Filter>, path: string, i: int)
    requires 0 <= i <= |filters| && UndecidedBefore(filters, path, i)
    ensures FirstDecision(filters, path) == FirstDecision(filters[i..], path)
    decreases i
  {
    if i > 0 {
      assert UndecidedBefore(filters[1..], path, i - 1) by {
        forall j | 0 <= j < i - 1 ensures DecideWith(filters[1..][j], path) == Ok(FilterMatchResult.None) {
          assert filters[1..][j] == filters[j + 1];
        }
      }
      FirstDecisionSkips(filters[1..], path, i - 1);
      assert filters[1..][i - 1..] == filters[i..];
    }
  }

  /** The number of leading filters that leave the path undecided. */
  function Undecided(filters: seq<Filter>, path: string): (i: int)
    ensures 0 <= i <= |filters| && UndecidedBefore(filters, path, i)
    ensures i < |filters| ==> DecideWith(filters[i], path) != Ok(FilterMatchResult.None)
    decreases |filters|
  {
    if |filters| == 0 || DecideWith(filters[0], path) != Ok(FilterMatchResult.None) then 0
    else
      var k := Undecided(filters[1..], path);
      assert forall j :: 1 <= j < k + 1 ==> filters[j] == filters[1..][j - 1];
      k + 1
  }

  /**
   * The first filter with a non-`None` answer decides: `IncludedFile`
   * returns its answer, and its removable root is that filter's root (or
   * "" without one), spelt as in the path; the path is split at it.
   */
  lemma IncludedFileDecider(filters: seq<Filter>, path: string)
    requires ChallengeFile(filters, path).Ok? && ChallengeFile(filters, path).value.0 != FilterMatchResult.None
    ensures var i := Undecided(filters, path);
            var (m, r) := ChallengeFile(filters, path).value;
            && i < |filters| && DecideWith(filters[i], path) == Ok(m)
            && EqualsIgnoreCase(r.removableRoot, RootText(filters[i].root))
            && r.finalFilePath == path[|RootText(filters[i].root)|..]
            && WellFormed(r) && r.filePath == path
  {
    var i := Undecided(filters, path);
    FirstDecisionSkips(filters, path, i);
    assert |filters[i..]| == |filters| - i;
    if i < |filters| {
      assert filters[i..][0] == filters[i];
      var f := filters[i];
      if f.root.Some? {
        assert StartsWithIgnoreCase(path, f.root.value);
      }
    }
  }

  /** When no filter decides, `IncludedFile` answers `None` with nothing to remove. */
  lemma IncludedFileUndecided(filters: seq<Filter>, path: string)
    ensures ChallengeFile(filters, path) == Ok((FilterMatchResult.None, FileResult(path, [], path)))
        <==> UndecidedBefore(filters, path, |filters|)
  {
    var i := Undecided(filters, path);
    FirstDecisionSkips(filters, path, i);
    if i == |filters| {
      assert filters[i..] == [];
    } else {
      assert filters[i..][0] == filters[i];
    }
  }

  /** Every `Result` of `IncludedFile` keeps the invariant. */
  lemma IncludedFileWellFormed(filters: seq<Filter>, path: string)
    requires ChallengeFile(filters, path).Ok?
    ensures WellFormed(ChallengeFile(filters, path).value.1)
    ensures ChallengeFile(filters, path).value.1.filePath == path
  {
  }

  // ---------------------------------------------------------------------
  // IncludedFiles: the policies.
  // ---------------------------------------------------------------------

  /**
   * The inner scan of `IncludedFiles`: like `FirstDecision`, but the root
   * is recorded for every filter that does not exclude, so that an
   * undecided path ends with the last filter's root.
   */
  function Scan(filters: seq<Filter>, path: string, filterRoot: Option<string>): Result<(FilterMatchResult, Option<string>)>
    decreases |filters|
  {
    if |filters| == 0 then Ok((FilterMatchResult.None, filterRoot))
    else match DecideWith(filters[0], path)
      case Err(e) => Err(e)
      case Ok(m) =>
        var fr := if m != Excluded then Some(RootText(filters[0].root)) else filterRoot;
        if m != FilterMatchResult.None then Ok((m, fr)) else Scan(filters[1..], path, fr)
  }

  /** The scan answers as `FirstDecision` does. */
  lemma {:induction false} ScanAnswers(filters: seq<Filter>, path: string, filterRoot: Option<string>)
    ensures Scan(filters, path, filterRoot).Err? <==> FirstDecision(filters, path).Err?
    ensures Scan(filters, path, filterRoot).Ok? ==> Scan(filters, path, filterRoot).value.0 == FirstDecision(filters, path).value.0
    decreases |filters|
  {
    if |filters| > 0 && DecideWith(filters[0], path) == Ok(FilterMatchResult.None) {
      ScanAnswers(filters[1..], path, Some(RootText(filters[0].root)));
    }
  }

  /**
   * An undecided or included path ends the scan with a root once some
   * filter was scanned; an included one with its decider's root, under
   * which it lies.
   */
  lemma {:induction false} ScanRecordsRoot(filters: seq<Filter>, path: string, filterRoot: Option<string>)
    requires |filters| > 0 || filterRoot.Some?
    requires Scan(filters, path, filterRoot).Ok?
    ensures var (m, fr) := Scan(filters, path, filterRoot).value;
            m != Excluded ==> fr.Some?
    ensures var (m, fr) := Scan(filters, path, filterRoot).value;
            m == Included ==> StartsWithIgnoreCase(path, fr.value)
    decreases |filters|
  {
    if |filters| > 0 {
      var f := filters[0];
      var m := DecideWith(f, path).value;
      if m == FilterMatchResult.None {
        ScanRecordsRoot(filters[1..], path, Some(RootText(f.root)));
      } else if m == Included && f.root.Some? {
        assert StartsWithIgnoreCase(path, f.root.value);
      }
    }
  }

  /** What `IncludedFiles` does with one enumerated file. */
  datatype Outcome = Skip | Yield(filePath: string, filterRoot: Option<string>)

  /**
   * One enumerated file: the storage root's length is cut off; an
   * undecided file throws under `NoneIsUnmatchedFileException` (carrying
   * the full name); an included file, or an undecided one under
   * `NoneIsIncluded`, is yielded; anything else is skipped.
   */
  function Classify(behavior: FileFilterMatchBehavior, filters: seq<Filter>, fullName: string, rootLength: nat): Result<Outcome> {
    if |fullName| < rootLength then Err(ArgumentOutOfRange)
    else
      var filePath := fullName[rootLength..];
      match Scan(filters, filePath, Option.None)
      case Err(e) => Err(e)
      case Ok((m, fr)) =>
        if m == FilterMatchResult.None && behavior == NoneIsUnmatchedFileException then Err(UnmatchedFile(fullName))
        else if m == Included || (m == FilterMatchResult.None && behavior == NoneIsIncluded) then Ok(Yield(filePath, fr))
        else Ok(Skip)
  }

  /** One enumerated file, as written: a missing root is dereferenced, the root is removed by length. */
  function SelectAsWritten(behavior: FileFilterMatchBehavior, filters: seq<Filter>, fullName: string, rootLength: nat): (r: Result<Option<FileResult>>)
    ensures Select(behavior, filters, fullName, rootLength).Err? ==> r == Select(behavior, filters, fullName, rootLength)
    ensures Select(behavior, filters, fullName, rootLength) == Ok(Option.None) ==> r == Ok(Option.None)
    ensures Select(behavior, filters, fullName, rootLength).Ok? && Select(behavior, filters, fullName, rootLength).value.Some? ==>
              || r == Err(ArgumentOutOfRange)
              || (r.Ok? && r.value.Some?
                  && r.value.value.filePath == Select(behavior, filters, fullName, rootLength).value.value.filePath)
  {
    match Classify(behavior, filters, fullName, rootLength)
    case Err(e) => Err(e)
    case Ok(Skip) => Ok(Option.None)
    case Ok(Yield(p, fr)) =>
      if fr.None? then Err(NullReference)
      else match SplitAsWritten(p, fr.value)
        case Err(e) => Err(e)
        case Ok(r) => Ok(Some(r))
  }

  /** One enumerated file, with the split that keeps the `Result` invariant. */
  function Select(behavior: FileFilterMatchBehavior, filters: seq<Filter>, fullName: string, rootLength: nat): Result<Option<FileResult>> {
    match Classify(behavior, filters, fullName, rootLength)
    case Err(e) => Err(e)
    case Ok(Skip) => Ok(Option.None)
    case Ok(Yield(p, fr)) =>
      if fr.None? then Err(NullReference)
      else Ok(Some(Split(p, fr.value)))
  }

  /** The policies, for a file whose stripped path the filters answer `m` on. */
  lemma SelectPolicy(behavior: FileFilterMatchBehavior, filters: seq<Filter>, fullName: string, rootLength: nat)
    requires rootLength <= |fullName|
    requires FirstDecision(filters, fullName[rootLength..]).Ok?
    ensures var m := FirstDecision(filters, fullName[rootLength..]).value.0;
            var s := Select(behavior, filters, fullName, rootLength);
            && (m == Excluded ==> s == Ok(Option.None))
            && (m == Included ==> s.Ok? && s.value.Some? && s.value.value.filePath == fullName[rootLength..])
            && (m == FilterMatchResult.None && behavior == Default ==> s == Ok(Option.None))
            && (m == FilterMatchResult.None && behavior == NoneIsUnmatchedFileException ==> s == Err(UnmatchedFile(fullName)))
            && (m == FilterMatchResult.None && behavior == NoneIsIncluded && |filters| > 0 ==>
                  s.Ok? && s.value.Some? && s.value.value.filePath == fullName[rootLength..])
            && (m == FilterMatchResult.None && behavior == NoneIsIncluded && |filters| == 0 ==> s == Err(NullReference))
  {
    var p := fullName[rootLength..];
    ScanAnswers(filters, p, Option.None);
    if |filters| > 0 {
      ScanRecordsRoot(filters, p, Option.None);
    }
  }

  /** Filters that leave the path undecided only record their roots: the scan goes on after them. */
  lemma {:induction false} ScanSkips(filters: seq<Filter>, path: string, filterRoot: Option<string>, i: int)
    requires 0 < i <= |filters| && UndecidedBefore(filters, path, i)
    ensures Scan(filters, path, filterRoot) == Scan(filters[i..], path, Some(RootText(filters[i - 1].root)))
    decreases i
  {
    if i > 1 {
      assert UndecidedBefore(filters[1..], path, i - 1) by {
        forall j | 0 <= j < i - 1 ensures DecideWith(filters[1..][j], path) == Ok(FilterMatchResult.None) {
          assert filters[1..][j] == filters[j + 1];
        }
      }
      ScanSkips(filters[1..], path, Some(RootText(filters[0].root)), i - 1);
      assert filters[1..][i - 1..] == filters[i..] && filters[1..][i - 2] == filters[i - 1];
    }
  }

  /**
   * A file whose first deciding filter includes it is yielded, split at
   * that filter's root (or "" without one), spelt as in the path.
   */
  lemma SelectIncluded(behavior: FileFilterMatchBehavior, filters: seq<Filter>, fullName: string, rootLength: nat, i: int)
    requires rootLength <= |fullName| && 0 <= i < |filters|
    requires UndecidedBefore(filters, fullName[rootLength..], i)
    requires DecideWith(filters[i], fullName[rootLength..]) == Ok(Included)
    ensures var s := Select(behavior, filters, fullName, rootLength);
            var root := RootText(filters[i].root);
            && |root| <= |fullName| - rootLength
            && s.Ok? && s.value.Some?
            && EqualsIgnoreCase(s.value.value.removableRoot, root)
            && s.value.value.finalFilePath == fullName[rootLength..][|root|..]
  {
    var p := fullName[rootLength..];
    var root := RootText(filters[i].root);
    if i > 0 {
      ScanSkips(filters, p, Option.None, i);
    }
    assert filters[i..][0] == filters[i];
    assert Scan(filters, p, Option.None) == Ok((Included, Some(root)));
    if filters[i].root.Some? {
      assert StartsWithIgnoreCase(p, root);
    }
  }

  /** The results of a list of enumerated names, in enumeration order; the first failure stops everything. */
  function Collect(behavior: FileFilterMatchBehavior, filters: seq<Filter>, names: seq<string>, rootLength: nat): Result<seq<FileResult>>
    decreases |names|
  {
    if |names| == 0 then Ok([])
    else match Select(behavior, filters, names[0], rootLength)
      case Err(e) => Err(e)
      case Ok(o) => Then(if o.Some? then [o.value] else [], Collect(behavior, filters, names[1..], rootLength))
  }

  /** One step of `Collect` from index `i`. */
  lemma CollectStep(behavior: FileFilterMatchBehavior, filters: seq<Filter>, names: seq<string>, i: nat, rootLength: nat)
    requires i < |names|
    ensures Collect(behavior, filters, names[i..], rootLength)
         == match Select(behavior, filters, names[i], rootLength)
            case Err(e) => Err(e)
            case Ok(o) => Then(if o.Some? then [o.value] else [], Collect(behavior, filters, names[i + 1..], rootLength))
  {
    assert names[i..][0] == names[i] && names[i..][1..] == names[i + 1..];
  }

  /** Order is kept: the results of a concatenation are the results of each part, in order. */
  lemma {:induction false} CollectAppend(behavior: FileFilterMatchBehavior, filters: seq<Filter>, a: seq<string>, b: seq<string>, rootLength: nat)
    ensures Collect(behavior, filters, a + b, rootLength)
         == (var ra := Collect(behavior, filters, a, rootLength);
             if ra.Err? then ra else Then(ra.value, Collect(behavior, filters, b, rootLength)))
    decreases |a|
  {
    if |a| > 0 {
      assert (a + b)[0] == a[0] && (a + b)[1..] == a[1..] + b;
      CollectAppend(behavior, filters, a[1..], b, rootLength);
      var o := Select(behavior, filters, a[0], rootLength);
      var ra := Collect(behavior, filters, a[1..], rootLength);
      if o.Ok? && ra.Ok? {
        ThenThen(if o.value.Some? then [o.value.value] else [], ra.value, Collect(behavior, filters, b, rootLength));
      }
    } else {
      assert a + b == b;
      var rb := Collect(behavior, filters, b, rootLength);
      if rb.Ok? {
        assert [] + rb.value == rb.value;
      }
    }
  }

  /** Every yielded `Result` keeps the invariant and is the stripped path of an enumerated name. */
  lemma {:induction false} CollectWellFormed(behavior: FileFilterMatchBehavior, filters: seq<Filter>, names: seq<string>, rootLength: nat)
    requires Collect(behavior, filters, names, rootLength).Ok?
    ensures forall r :: r in Collect(behavior, filters, names, rootLength).value
              ==> WellFormed(r) && exists n :: n in names && rootLength <= |n| && r.filePath == n[rootLength..]
    decreases |names|
  {
    if |names| > 0 {
      CollectWellFormed(behavior, filters, names[1..], rootLength);
      var rs := Collect(behavior, filters, names, rootLength).value;
      forall r | r in rs
        ensures WellFormed(r) && exists n :: n in names && rootLength <= |n| && r.filePath == n[rootLength..]
      {
        var rest := Collect(behavior, filters, names[1..], rootLength).value;
        if r in rest {
          var n :| n in names[1..] && rootLength <= |n| && r.filePath == n[rootLength..];
          assert n in names;
        } else {
          assert names[0] in names;
        }
      }
    }
  }

  /** Nothing is yielded that the filters exclude. */
  lemma {:induction false} CollectSkipsExcluded(behavior: FileFilterMatchBehavior, filters: seq<Filter>, names: seq<string>, rootLength: nat, name: string)
    requires Collect(behavior, filters, names, rootLength).Ok?
    requires name in names && rootLength <= |name|
    requires FirstDecision(filters, name[rootLength..]).Ok?
    requires FirstDecision(filters, name[rootLength..]).value.0 == Excluded
    requires forall n :: n in names && n != name && rootLength <= |n| ==> n[rootLength..] != name[rootLength..]
    ensures forall r :: r in Collect(behavior, filters, names, rootLength).value ==> r.filePath != name[rootLength..]
    decreases |names|
  {
    if |names| > 0 {
      var rs := Collect(behavior, filters, names, rootLength).value;
      var rest := Collect(behavior, filters, names[1..], rootLength).value;
      if name in names[1..] {
        CollectSkipsExcluded(behavior, filters, names[1..], rootLength, name);
      } else {
        CollectWellFormed(behavior, filters, names[1..], rootLength);
        forall r | r in rest ensures r.filePath != name[rootLength..] {
          var n :| n in names[1..] && rootLength <= |n| && r.filePath == n[rootLength..];
        }
      }
      if names[0] == name {
        SelectPolicy(behavior, filters, name, rootLength);
      } else if |names[0]| >= rootLength && Select(behavior, filters, names[0], rootLength).value.Some? {
        assert names[0] in names;
      }
    }
  }

  /**
   * `IncludedFiles`: a blank root is refused with `Argument`, a missing
   * storage with `ArgumentNull`; otherwise the storage's listing of the
   * root (or its failure) goes through `Collect`.
   */
  function SelectFiles(behavior: FileFilterMatchBehavior, filters: seq<Filter>, root: Option<string>, listing: Option<Result<seq<string>>>): (r: Result<seq<FileResult>>)
    ensures IsNullOrWhiteSpace(root) ==> r == Err(Argument)
    ensures !IsNullOrWhiteSpace(root) && listing.None? ==> r == Err(ArgumentNull)
    ensures !IsNullOrWhiteSpace(root) && listing == Some(Ok([])) ==> r == Ok([])
  {
    if IsNullOrWhiteSpace(root) then Err(Argument)
    else if listing.None? then Err(ArgumentNull)
    else match listing.value
      case Err(e) => Err(e)
      case Ok(names) => Collect(behavior, filters, names, |root.value|)
  }

  // ---------------------------------------------------------------------
  // Where the source breaks its own `Result` invariant.
  // ---------------------------------------------------------------------

  const SubRoot: string := "Sub\\"

  /** A file accepted under a root spelt in another case gets a removable root that is not its prefix. */
  lemma CaseMismatchBreaksInvariant()
    ensures var filters := [Filter(Some(SubRoot), [Rule(true, "a.txt")])];
            && ChallengeFileAsWritten(filters, "sub\\a.txt") == Ok((Included, FileResult("sub\\a.txt", SubRoot, "a.txt")))
            && !WellFormed(FileResult("sub\\a.txt", SubRoot, "a.txt"))
            && ChallengeFile(filters, "sub\\a.txt") == Ok((Included, FileResult("sub\\a.txt", "sub\\", "a.txt")))
  {
    var p := "sub\\a.txt";
    assert StartsWithIgnoreCase(p, SubRoot);
    assert p[|SubRoot|..] == "a.txt";
    PlainPatternMatch("a.txt", "a.txt");
    assert p[..|SubRoot|] == "sub\\";
    assert (SubRoot + "a.txt")[0] != p[0];
  }

  /** Under `NoneIsIncluded`, a file outside the last filter's root is cut by that root's length. */
  lemma OutsideRootBreaksInvariant()
    ensures var filters := [Filter(Some(SubRoot), [])];
            && SelectAsWritten(NoneIsIncluded, filters, "x.txt", 0) == Ok(Some(FileResult("x.txt", SubRoot, "t")))
            && !WellFormed(FileResult("x.txt", SubRoot, "t"))
            && SelectAsWritten(NoneIsIncluded, filters, "ab", 0) == Err(ArgumentOutOfRange)
            && Select(NoneIsIncluded, filters, "x.txt", 0) == Ok(Some(FileResult("x.txt", [], "x.txt")))
  {
    assert !StartsWithIgnoreCase("x.txt", SubRoot) by {
      assert !EqIgnoreCase("x.txt"[0], SubRoot[0]);
    }
    assert "x.txt"[0..] == "x.txt" && "ab"[0..] == "ab";
    var fs := [Filter(Some(SubRoot), [])];
    assert fs[1..] == [];
    assert DecideWith(fs[0], "x.txt") == Ok(FilterMatchResult.None);
    assert Scan(fs, "x.txt", Option.None) == Ok((FilterMatchResult.None, Some(SubRoot)));
    assert Classify(NoneIsIncluded, fs, "x.txt", 0) == Ok(Yield("x.txt", Some(SubRoot)));
    assert DecideWith(fs[0], "ab") == Ok(FilterMatchResult.None);
    assert Scan(fs, "ab", Option.None) == Ok((FilterMatchResult.None, Some(SubRoot)));
    assert Classify(NoneIsIncluded, fs, "ab", 0) == Ok(Yield("ab", Some(SubRoot)));
    assert "x.txt"[4..] == "t";
    assert (SubRoot + "t")[0] != "x.txt"[0];
  }

  // ---------------------------------------------------------------------
  // The target object.
  // ---------------------------------------------------------------------

  class FileGroupTarget {
    /** `Target`: never blank, "/" by default. */
    var target: string
    var matchBehavior: FileFilterMatchBehavior
    /** `Filters`, in order; the target holds the filters themselves, so later changes to them count. */
    var filters: seq<FileNameFilter>

    /** The rule lists of the filters. */
    ghost function Lists(): set<PathFilterList>
      reads this
    {
      set g | g in filters :: g.filters
    }

    /** The path filters of all the filters: what matching may update. */
    ghost function Items(): set<PathFilter>
      reads this, Lists()
    {
      set g, f | g in filters && f in g.filters.items :: f
    }

    /** What each filter decides with now: its current root and rules. */
    ghost function Snapshot(): (s: seq<Filter>)
      reads this, filters, Lists(), Items()
      ensures |s| == |filters|
      ensures forall i :: 0 <= i < |filters| ==> s[i] == Filter(filters[i].root, filters[i].filters.Rules())
    {
      seq(|filters|, i reads this, filters, Lists(), Items() requires 0 <= i < |filters| =>
        (assert forall f :: f in filters[i].filters.items ==> f in Items();
         Filter(filters[i].root, filters[i].filters.Rules())))
    }

    ghost predicate Valid()
      reads this, filters, Lists(), Items()
    {
      && !IsNullOrWhiteSpace(Some(target))
      && forall i :: 0 <= i < |filters| ==>
           (assert forall f :: f in filters[i].filters.items ==> f in Items();
            filters[i].Valid())
    }

    /** A target of "/" with no filter and the default policy. */
    constructor ()
      ensures target == "/" && matchBehavior == Default && filters == []
      ensures Valid()
    {
      assert !IsWhiteSpace("/"[0]);
      target := "/";
      matchBehavior := Default;
      filters := [];
    }

    /** The `Target` setter: a blank value stands for "/". */
    method SetTarget(value: Option<string>)
      requires Valid()
      modifies this
      ensures target == if IsNullOrWhiteSpace(value) then "/" else value.value
      ensures matchBehavior == old(matchBehavior) && filters == old(filters)
      ensures Valid()
    {
      assert !IsWhiteSpace("/"[0]);
      target := if IsNullOrWhiteSpace(value) then "/" else value.value;
    }

    /** The `MatchBehavior` setter. */
    method SetMatchBehavior(value: FileFilterMatchBehavior)
      requires Valid()
      modifies this
      ensures matchBehavior == value
      ensures target == old(target) && filters == old(filters)
      ensures Valid()
    {
      matchBehavior := value;
    }

    /** Adding to `Filters`: the filter goes at the end. */
    method AddFilter(g: FileNameFilter)
      requires Valid() && g.Valid()
      modifies this
      ensures filters == old(filters) + [g]
      ensures Snapshot() == old(Snapshot()) + [Filter(g.root, g.filters.Rules())]
      ensures target == old(target) && matchBehavior == old(matchBehavior)
      ensures Valid()
    {
      filters := filters + [g];
    }

    /** Runs the filter at index `i`; only matcher caches change. */
    method DecideAt(i: int, path: string) returns (m: Result<FilterMatchResult>)
      requires Valid() && 0 <= i < |filters|
      modifies filters[i].filters.items
      ensures m == DecideWith(old(Snapshot())[i], path)
      ensures Snapshot() == old(Snapshot())
      ensures Items() == old(Items())
      ensures Valid()
    {
      var g := filters[i];
      label before:
      m := g.FilePathMatch(path);
      forall j | 0 <= j < |filters|
        ensures filters[j].Valid()
        ensures filters[j].filters.Rules() == old(filters[j].filters.Rules())
      {
        var h := filters[j];
        forall k | 0 <= k < |h.filters.items|
          ensures h.filters.items[k].Valid()
          ensures h.filters.items[k].isInclude == old(h.filters.items[k].isInclude)
          ensures h.filters.items[k].path == old(h.filters.items[k].path)
        {
          var f := h.filters.items[k];
          if f !in g.filters.items {
            assert unchanged@before(f);
          }
        }
      }
    }

    /** `IncludedFile`: the first filter that decides gives the answer and the root to remove. */
    method IncludedFile(path: string) returns (res: Result<(FilterMatchResult, FileResult)>)
      requires Valid()
      modifies Items()
      ensures res == ChallengeFile(old(Snapshot()), path)
      ensures Snapshot() == old(Snapshot())
      ensures Valid()
    {
      ghost var snapshot := Snapshot();
      var i := 0;
      while i < |filters|
        invariant 0 <= i <= |filters|
        invariant Valid() && Snapshot() == snapshot
        invariant FirstDecision(snapshot, path) == FirstDecision(snapshot[i..], path)
        invariant Items() == old(Items())
      {
        assert forall f :: f in filters[i].filters.items ==> f in Items();
        var m := DecideAt(i, path);
        FirstDecisionStep(snapshot, i, path);
        if m.Err? {
          return Err(m.error);
        }
        if m.value != FilterMatchResult.None {
          var filterRoot := RootText(filters[i].root);
          return Ok((m.value, Split(path, filterRoot)));
        }
        i := i + 1;
      }
      assert snapshot[i..] == [];
      return Ok((FilterMatchResult.None, FileResult(path, [], path)));
    }

    /** The inner loop of `IncludedFiles`: the answer, and the root last recorded. */
    method ScanFilters(path: string) returns (res: Result<(FilterMatchResult, Option<string>)>)
      requires Valid()
      modifies Items()
      ensures res == Scan(old(Snapshot()), path, Option.None)
      ensures Snapshot() == old(Snapshot())
      ensures Items() == old(Items())
      ensures Valid()
    {
      ghost var snapshot := Snapshot();
      var m := FilterMatchResult.None;
      var filterRoot: Option<string> := Option.None;
      var i := 0;
      while i < |filters|
        invariant 0 <= i <= |filters|
        invariant Valid() && Snapshot() == snapshot
        invariant Scan(snapshot, path, Option.None) == Scan(snapshot[i..], path, filterRoot)
        invariant Items() == old(Items())
      {
        assert forall f :: f in filters[i].filters.items ==> f in Items();
        var d := DecideAt(i, path);
        assert snapshot[i..][0] == snapshot[i] && snapshot[i..][1..] == snapshot[i + 1..];
        if d.Err? {
          return Err(d.error);
        }
        m := d.value;
        if m != Excluded {
          filterRoot := Some(RootText(filters[i].root));
        }
        if m != FilterMatchResult.None {
          return Ok((m, filterRoot));
        }
        i := i + 1;
      }
      assert snapshot[i..] == [];
      return Ok((FilterMatchResult.None, filterRoot));
    }

    /** The body of the `IncludedFiles` loop: what becomes of one enumerated file. */
    method SelectFile(fullName: string, rootLength: nat) returns (o: Result<Option<FileResult>>)
      requires Valid()
      modifies Items()
      ensures o == Select(matchBehavior, old(Snapshot()), fullName, rootLength)
      ensures Snapshot() == old(Snapshot())
      ensures Items() == old(Items())
      ensures Valid()
    {
      if |fullName| < rootLength {
        return Err(ArgumentOutOfRange);
      }
      var filePath := fullName[rootLength..];
      var s := ScanFilters(filePath);
      if s.Err? {
        return Err(s.error);
      }
      var (m, filterRoot) := s.value;
      if m == FilterMatchResult.None && matchBehavior == NoneIsUnmatchedFileException {
        return Err(UnmatchedFile(fullName));
      }
      if m == Included || (m == FilterMatchResult.None && matchBehavior == NoneIsIncluded) {
        if filterRoot.None? {
          return Err(NullReference);
        }
        return Ok(Some(Split(filePath, filterRoot.value)));
      }
      return Ok(Option.None);
    }

    /**
     * `IncludedFiles` over the names the storage lists under `root`
     * (`listing`; `None` for a missing storage): the results in
     * enumeration order.
     */
    method IncludedFiles(root: Option<string>, listing: Option<Result<seq<string>>>) returns (res: Result<seq<FileResult>>)
      requires Valid()
      modifies Items()
      ensures res == SelectFiles(matchBehavior, old(Snapshot()), root, listing)
      ensures Snapshot() == old(Snapshot())
      ensures Valid()
    {
      if IsNullOrWhiteSpace(root) {
        return Err(Argument);
      }
      if listing.None? {
        return Err(ArgumentNull);
      }
      if listing.value.Err? {
        return Err(listing.value.error);
      }
      res := CollectFiles(listing.value.value, |root.value|);
    }

    /** The `foreach` of `IncludedFiles` over the enumerated names, stopping at the first failure. */
    method CollectFiles(names: seq<string>, rootLength: nat) returns (res: Result<seq<FileResult>>)
      requires Valid()
      modifies Items()
      ensures res == Collect(matchBehavior, old(Snapshot()), names, rootLength)
      ensures Snapshot() == old(Snapshot()) && Items() == old(Items())
      ensures Valid()
    {
      ghost var snapshot := Snapshot();
      var done: seq<FileResult> := [];
      assert names[0..] == names;
      ghost var all := Collect(matchBehavior, snapshot, names, rootLength);
      if all.Ok? {
        assert [] + all.value == all.value;
      }
      var i := 0;
      while i < |names|
        invariant 0 <= i <= |names|
        invariant Valid() && Snapshot() == snapshot
        invariant Items() == old(Items())
        invariant all == Then(done, Collect(matchBehavior, snapshot, names[i..], rootLength))
      {
        CollectStep(matchBehavior, snapshot, names, i, rootLength);
        var o := SelectFile(names[i], rootLength);
        if o.Err? {
          assert Collect(matchBehavior, snapshot, names[i..], rootLength) == Err(o.error);
          return Err(o.error);
        }
        var head := if o.value.Some? then [o.value.value] else [];
        ThenThen(done, head, Collect(matchBehavior, snapshot, names[i + 1..], rootLength));
        done := done + head;
        i := i + 1;
      }
      assert names[i..] == [] && done + [] == done;
      return Ok(done);
    }
  }

  // ---------------------------------------------------------------------
  // A filter changed while the target holds it.
  // ---------------------------------------------------------------------

  /**
   * Editing, through its `Path` and `Include` setters, a path filter held by
   * one of the target's filters: every place the target holds that filter
   * now has the new pattern and flag, nothing else changes, and the target
   * stays usable.
   */
  method EditHeldPathFilter(t: FileGroupTarget, j: int, i: int, isInclude: bool, pattern: Option<string>)
    requires t.Valid() && 0 <= j < |t.filters| && 0 <= i < |t.filters[j].filters.items|
    modifies t.Items()
    ensures t.filters == old(t.filters)
    ensures forall jj :: 0 <= jj < |t.filters| ==>
              && t.Snapshot()[jj].root == old(t.Snapshot()[jj].root)
              && |t.Snapshot()[jj].rules| == |old(t.Snapshot()[jj].rules)|
    ensures forall jj, k :: 0 <= jj < |t.filters| && 0 <= k < |t.filters[jj].filters.items| ==>
              t.Snapshot()[jj].rules[k]
              == if t.filters[jj].filters.items[k] == old(t.filters[j].filters.items[i])
                 then Rule(isInclude, NormalizePathSeparator(if pattern.Some? then pattern.value else [], false))
                 else old(t.Snapshot()[jj].rules[k])
    ensures t.Valid()
  {
    var f := t.filters[j].filters.items[i];
    assert t.filters[j] in t.filters && f in t.filters[j].filters.items;
    assert f in t.Items();
    f.SetPathAndInclude(pattern, isInclude);
    forall jj, k | 0 <= jj < |t.filters| && 0 <= k < |t.filters[jj].filters.items| && t.filters[jj].filters.items[k] != f
      ensures unchanged(t.filters[jj].filters.items[k])
    {
    }
  }

  /** An edit of a held path filter, then a challenge: the target decides with the edited rules. */
  method EditThenChallenge(t: FileGroupTarget, j: int, i: int, isInclude: bool, pattern: Option<string>, path: string)
      returns (res: Result<(FilterMatchResult, FileResult)>)
    requires t.Valid() && 0 <= j < |t.filters| && 0 <= i < |t.filters[j].filters.items|
    modifies t.Items()
    ensures t.filters == old(t.filters)
    ensures t.Snapshot()[j].rules[i] == Rule(isInclude, NormalizePathSeparator(if pattern.Some? then pattern.value else [], false))
    ensures forall jj :: 0 <= jj < |t.filters| ==>
              && t.Snapshot()[jj].root == old(t.Snapshot()[jj].root)
              && |t.Snapshot()[jj].rules| == |old(t.Snapshot()[jj].rules)|
    ensures forall jj, k :: 0 <= jj < |t.filters| && 0 <= k < |t.filters[jj].filters.items| ==>
              t.Snapshot()[jj].rules[k]
              == if t.filters[jj].filters.items[k] == old(t.filters[j].filters.items[i])
                 then Rule(isInclude, NormalizePathSeparator(if pattern.Some? then pattern.value else [], false))
                 else old(t.Snapshot()[jj].rules[k])
    ensures res == ChallengeFile(t.Snapshot(), path)
    ensures t.Valid()
  {
    EditHeldPathFilter(t, j, i, isInclude, pattern);
    res := t.IncludedFile(path);
  }

  /**
   * What a rule written by a caller becomes in a filter's list: the
   * `PathFilter` constructor normalises its separators, then the filter
   * validates it; a refused rule is not added.
   */
  function Added(r: Rule): seq<Rule> {
    match NormalizePattern(Some(Rule(r.isInclude, NormalizePathSeparator(r.pattern, false))))
    case Ok(n) => [n]
    case Err(_) => []
  }

  /** The test's `/.git/`, as the filter stores it. */
  lemma GitPatternNormalizes()
    ensures Added(Rule(false, "/.git/")) == [Rule(false, ".git\\")]
  {
    var n := "\\.git\\";
    assert NormalizePathSeparator("/.git/", false) == n;
    assert ValidPattern(n) by { assert !IsWhiteSpace(n[1]); }
    assert Relative(n) == NormalizePathSeparator(n[1..], false) == ".git\\";
  }

  /** The test's `/**/ob?/`, as the filter stores it. */
  lemma ObjPatternNormalizes()
    ensures Added(Rule(false, "/**/ob?/")) == [Rule(false, "**\\ob?\\")]
  {
    var n := "\\**\\ob?\\";
    assert NormalizePathSeparator("/**/ob?/", false) == n;
    assert ValidPattern(n) by { assert !IsWhiteSpace(n[1]); }
    assert Relative(n) == NormalizePathSeparator(n[1..], false) == "**\\ob?\\";
  }

  /** Appends a rule spelt as a caller writes it, through `PathFilter`'s constructor and the filter's validation. */
  method AddRule(g: FileNameFilter, r: Rule)
    requires g.Valid()
    modifies g.filters
    ensures g.filters.Rules() == old(g.filters.Rules()) + Added(r)
    ensures forall f :: f in g.filters.items ==> f in old(g.filters.items) || fresh(f)
    ensures g.root == old(g.root)
    ensures g.Valid()
  {
    var f := new PathFilter.WithPattern(r.isInclude, Some(r.pattern));
    var _ := g.AddFilter(Some(f));
  }

  const SolutionRoot: string := "E:\\Dev\\CK-FileFilter\\"

  /** Sets the policy of a target holding the one filter `g`, then selects under the solution root. */
  method SelectWith(t: FileGroupTarget, g: FileNameFilter, behavior: FileFilterMatchBehavior, listing: Option<Result<seq<string>>>)
    returns (res: Result<seq<FileResult>>)
    requires t.filters == [g] && g.Valid() && !IsNullOrWhiteSpace(Some(t.target))
    modifies t, set f | f in g.filters.items
    ensures res == SelectFiles(behavior, [Filter(g.root, g.filters.Rules())], Some(SolutionRoot), listing)
    ensures t.filters == [g] && g.Valid() && !IsNullOrWhiteSpace(Some(t.target))
    ensures g.root == old(g.root) && g.filters.Rules() == old(g.filters.Rules()) && g.filters.items == old(g.filters.items)
  {
    assert t.Valid();
    t.SetMatchBehavior(behavior);
    assert t.Items() <= set f | f in g.filters.items;
    assert t.Snapshot() == [Filter(g.root, g.filters.Rules())];
    res := t.IncludedFiles(Some(SolutionRoot), listing);
  }

  /** A new target holding one new filter that holds the rule `r`. */
  method TargetWithRule(r: Rule) returns (t: FileGroupTarget, g: FileNameFilter)
    ensures fresh(t) && fresh(g) && fresh(g.filters) && forall f :: f in g.filters.items ==> fresh(f)
    ensures t.filters == [g] && g.Valid() && !IsNullOrWhiteSpace(Some(t.target))
    ensures g.root == Option.None && g.filters.Rules() == Added(r)
  {
    t := new FileGroupTarget();
    g := new FileNameFilter();
    AddRule(g, r);
    t.AddFilter(g);
    assert [] + Added(r) == Added(r);
  }

  /** `filter.Clear()` followed by adding `r`: the filter now holds `r` alone. */
  method RefillWith(g: FileNameFilter, r: Rule)
    requires g.Valid()
    modifies g.filters
    ensures g.Valid() && g.root == old(g.root) && g.filters.Rules() == Added(r)
    ensures forall f :: f in g.filters.items ==> fresh(f)
  {
    g.Clear();
    AddRule(g, r);
    assert [] + Added(r) == Added(r);
  }

  /**
   * The solution-selection test: a filter with a rule selects under
   * `NoneIsIncluded`; then the same filter object, already held by the
   * target, is cleared and given another rule, and the next selection uses
   * the new rule under `Default`.
   */
  method ReuseChangedFilter(before: Rule, after: Rule, listing: Option<Result<seq<string>>>)
    returns (first: Result<seq<FileResult>>, second: Result<seq<FileResult>>)
    ensures first == SelectFiles(NoneIsIncluded, [Filter(Option.None, Added(before))], Some(SolutionRoot), listing)
    ensures second == SelectFiles(Default, [Filter(Option.None, Added(after))], Some(SolutionRoot), listing)
  {
    var t, g := TargetWithRule(before);
    first := SelectWith(t, g, NoneIsIncluded, listing);
    RefillWith(g, after);
    second := SelectWith(t, g, Default, listing);
  }
}
