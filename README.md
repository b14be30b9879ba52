# CK-FileFilter, modelled in Dafny

This project models the file-selection core of CK-FileFilter (CK.Globbing), and
proves properties of that model. The core has these parts:

- **Sorted string arrays.** `SortedArrayAdd` merges two strictly sorted arrays
  from the back. `SortedArrayRemove` marks the common elements and compacts
  the rest. `SortedArrayEquals` compares two arrays. `FileNameList` keeps its
  files and directories in such arrays.
- **Path filters.** A `PathFilter` is an include or exclude flag and a
  wildcard pattern (`*`, `?`, `**`, `**\`). The pattern is compiled lazily
  into an anchored, case-insensitive matcher. The compilation follows the
  source's chain of four `Replace` calls, one pass each.
  - A `PathFilterList` answers with the first filter that matches:
    `Included`, `Excluded` or `None`.
  - A `FileNameFilter` validates each pattern as a relative path when it is
    inserted. It confines the list to an optional `Root` directory.
  - A `FileGroupTarget` chains several `FileNameFilter`s. It selects the
    files a storage enumerates, under one of three policies for files that no
    filter decides.
- **The virtual file storage.** A registry of drivers is kept sorted by root
  path, ignoring case. The root driver reads the physical file system. Zip
  and nupkg archives are mounted transparently as container drivers, which
  list and open their entries. `FindClosestDriver` walks down from a path's
  insertion point to the longest registered root that prefixes the path.

The form follows the source:

- **Objects updated in place** are classes with `modifies` clauses:
  `PathFilter`, `PathFilterList`, `FileNameFilter`, `FileGroupTarget`,
  `FileNameList`, `VirtualFileStorage` and the drivers.
- **Array algorithms** work in place on `array<string>`, with loop
  invariants. They are proved against the functions `Union` and `Difference`
  on sequences.
- **Computations without state** are functions. The main ones:
  - the wildcard compiler and matcher;
  - the rule evaluation;
  - pattern validation;
  - the drivers' answers on a file-system value.

Each method's `ensures` ties its result or new state to one of those
functions. Lemmas then prove what the source promises about them.

The file system, the zip archives and the storage passed to
`IncludedFiles` are values given as parameters. A `FileSystem` holds:

- the set of existing files;
- the recursive listing of each existing directory;
- the entry names of each file that opens as an archive.

Exceptions are `Err` values of a `Result`, named after the .NET exception
(`ArgumentNull`, `Argument`, `IndexOutOfRange`, `UnmatchedFile`,
`FileNotFound`, `DirectoryNotFound`, `InvalidArchive`, `NullReference`).

Where the code and its documentation disagree, the model follows the code.

- A pattern ending with a separator is treated as `**`, so `a\` matches
  `a\x\y` (`PathFilter.cs:87-88`).
- The `*` token matches a separator-free run followed by at most one
  separator, as the regex `[^\\]*(\\)?` does.

## Model

| member | source | states |
|---|---|---|
| `Common.NormalizePathSeparator` | CK.FileFilter/FileFilter/PathFilter.cs:36 | `/` becomes `\` and nothing else changes; when asked, a non-empty result ends with a `\` |
| `Common.NormalizePathSeparatorIdempotent` | CK.FileFilter/FileFilter/PathFilter.cs:65-67 | normalising twice gives what normalising once gives, so re-setting a filter's own path leaves it unchanged |
| `Common.StartsWithIgnoreCaseIsPrefixOfUpper` | CK.Globbing/FileFilter/FileNameFilter.cs:80 | `StartsWith(…, OrdinalIgnoreCase)` holds exactly when the upper-cased prefix is a prefix of the upper-cased string |
| `Common.EqualsIgnoreCaseIsUpperEquality` | CK.FileFilter/FileFilter/PathFilter.cs:95 | case-insensitive equality, character by character, is equality of the upper-cased strings |
| `SortedStringArray.DifferenceMembers` | CK.FileFilter/FileFilter/SortedStringArray.cs:64-118 | the result of removal holds exactly the elements of the first array that are not in the second |
| `SortedStringArray.DifferenceSorted` | CK.FileFilter/FileFilter/SortedStringArray.cs:64-118 | removing from a strictly sorted array leaves it strictly sorted |
| `SortedStringArray.DifferenceWithNothing` | CK.FileFilter/FileFilter/SortedStringArray.cs:102 | when the arrays share nothing, removal leaves the first array as it is |
| `SortedStringArray.UnionMembers` | CK.FileFilter/FileFilter/SortedStringArray.cs:18-62 | the merge holds exactly the elements of either array |
| `SortedStringArray.UnionSorted` | CK.FileFilter/FileFilter/SortedStringArray.cs:18-62 | merging two strictly sorted arrays gives a strictly sorted array, each common element kept once |
| `SortedStringArray.UnionIsDifferencePlusOther` | CK.FileFilter/FileFilter/SortedStringArray.cs:26-61 | the merge is, as a multiset, the first array minus the second plus the second, so its length is what the trim at the end leaves |
| `SortedStringArray.UnmarkedIsDifference` | CK.FileFilter/FileFilter/SortedStringArray.cs:94-117 | keeping the unmarked elements, when exactly the common ones are marked, gives the difference |
| `SortedStringArray.MergeFromBack` | CK.FileFilter/FileFilter/SortedStringArray.cs:26-55 | the backward merge loop fills the end of the buffer so that the union is the union of what remains, followed by what was written, with one side exhausted |
| `SortedStringArray.PrependRemaining` | CK.FileFilter/FileFilter/SortedStringArray.cs:56-57 | the leftover head of one array is copied just before what was written |
| `SortedStringArray.Suffix` | CK.FileFilter/FileFilter/SortedStringArray.cs:58-61 | the trimmed array is a fresh copy of the written part |
| `SortedStringArray.MergeSorted` | CK.FileFilter/FileFilter/SortedStringArray.cs:26-61 | the merged array is exactly `Union` of the two inputs |
| `SortedStringArray.SortedArrayAdd` | CK.FileFilter/FileFilter/SortedStringArray.cs:18-62 | a null or empty first array returns the second itself, and a null or empty second array returns the first itself; otherwise the result is the sorted union, without duplicates, whose length is the size of the first minus the second plus the size of the second |
| `SortedStringArray.MarkCommon` | CK.FileFilter/FileFilter/SortedStringArray.cs:71-101 | the marking loop marks exactly the elements found in the second array, counts them, and records the first marked position |
| `SortedStringArray.CopyRest` | CK.FileFilter/FileFilter/SortedStringArray.cs:116 | the tail copy appends the rest of the source |
| `SortedStringArray.CompactMarked` | CK.FileFilter/FileFilter/SortedStringArray.cs:108-115 | the compaction loop copies the unmarked elements in order until every mark is passed |
| `SortedStringArray.Compact` | CK.FileFilter/FileFilter/SortedStringArray.cs:103-117 | the compacted array is exactly the unmarked elements |
| `SortedStringArray.RemoveCommon` | CK.FileFilter/FileFilter/SortedStringArray.cs:71-117 | the result is the difference, and it is the first array itself when nothing is common |
| `SortedStringArray.SortedArrayRemove` | CK.FileFilter/FileFilter/SortedStringArray.cs:64-118 | a null first array throws `ArgumentNull`; an empty input or no common element returns the first array itself; otherwise the result is the sorted difference, holding exactly the elements of the first array not in the second |
| `SortedStringArray.SortedArrayEquals` | CK.FileFilter/FileFilter/SortedStringArray.cs:120-130 | equal exactly when the two are the same reference, or both are non-null with the same elements |
| `FileNameLists.InsertPermutes` | CK.Globbing/FileFilter/FileNameList.cs:41 | one insertion step of the sort adds exactly the inserted name |
| `FileNameLists.SortOrdinal` | CK.Globbing/FileFilter/FileNameList.cs:41 | the constructor's ordinal sort keeps every name, each as often as it was given, and no more |
| `FileNameLists.InsertOrdered` | CK.Globbing/FileFilter/FileNameList.cs:41 | inserting into an ordinally ordered list keeps it ordered |
| `FileNameLists.SortOrdinalIsSort` | CK.Globbing/FileFilter/FileNameList.cs:41 | `OrderBy(…, Ordinal)` gives an ordered permutation of the names |
| `FileNameLists.OrderedStrictIffNoDuplicates` | CK.Globbing/FileFilter/FileNameList.cs:42 | an ordered list is strictly sorted exactly when it has no duplicates |
| `FileNameLists.SortOrdinalStrict` | CK.Globbing/FileFilter/FileNameList.cs:41-42 | the sorted names meet the class's strictly-sorted invariant exactly when the names have no duplicates |
| `FileNameLists.LessUnderPrefix` | CK.Globbing/FileFilter/FileNameList.cs:44-45 | a common prefix does not change the ordinal order of two names |
| `FileNameLists.PrefixedKeepsOrder` | CK.Globbing/FileFilter/FileNameList.cs:44-45 | prefixing every name keeps the list strictly sorted, and ordered, exactly when it was before |
| `FileNameLists.Prefixed` | CK.Globbing/FileFilter/FileNameList.cs:44-45 | each name, at its own place, has the prefix put in front of it, and a missing prefix adds nothing |
| `FileNameLists.FileNameList.constructor` | CK.Globbing/FileFilter/FileNameList.cs:25-29 | empty files, and empty directories exactly when asked for, with the list invariant |
| `FileNameLists.FileNameList.FromNames` | CK.Globbing/FileFilter/FileNameList.cs:39-46 | the files are the names, sorted when asked, each prefixed by a non-empty prefix; no directories; the invariant holds, or with sorting holds exactly when the names have no duplicates |
| `FileNameLists.FileNameList.FromSorted` | CK.Globbing/FileFilter/FileNameList.cs:96-102 | the given sorted files and optional directories are kept as they are |
| `FileNameLists.FileNameList.IndexOfFile` | CK.Globbing/FileFilter/FileNameList.cs:70-73 | the binary search returns the index of the name, or the complement of its insertion point, with everything before it smaller and everything from it on larger |
| `FileNameLists.FileNameList.Add` | CK.Globbing/FileFilter/FileNameList.cs:79-83 | files, and directories when held, become the sorted union with the other list's; when this list holds directories and the other none, the files are combined and then `NullReference` is raised with the directories untouched |
| `FileNameLists.FileNameList.Remove` | CK.Globbing/FileFilter/FileNameList.cs:90-94 | files, and directories when held, become the sorted difference with the other list's; when this list holds directories and the other none, the files are reduced and then `NullReference` is raised with the directories untouched |
| `PathFilters.Compile` | CK.FileFilter/FileFilter/PathFilter.cs:85-96 | compiling fails exactly on the empty pattern, with `IndexOutOfRange` from reading its last character |
| `PathFilters.Accepts` | CK.FileFilter/FileFilter/PathFilter.cs:80-95 | matching fails exactly when the pattern is empty; otherwise the compiled tokens must match the whole path, or the path less one final `\n` as the regex `$` allows |
| `PathFilters.AcceptsWithoutFinalNewline` | CK.FileFilter/FileFilter/PathFilter.cs:89-95 | for a path that does not end with `\n`, acceptance is exactly the token match of the whole path |
| `PathFilters.FinalNewlineAccepted` | CK.FileFilter/FileFilter/PathFilter.cs:89-95 | `a` accepts `a` followed by one `\n` though the tokens do not match it, and refuses `a` followed by two |
| `PathFilters.MatchAnyRun` | CK.FileFilter/FileFilter/PathFilter.cs:91-92 | `.*` consumes exactly a newline-free prefix of the path, of any length, before the rest matches |
| `PathFilters.MatchSegment` | CK.FileFilter/FileFilter/PathFilter.cs:93 | `[^\\]*(\\)?` consumes exactly a separator-free prefix, then at most one separator, before the rest matches |
| `PathFilters.MatchIgnoresCase` | CK.FileFilter/FileFilter/PathFilter.cs:95 | two paths equal up to case are accepted alike |
| `PathFilters.CompiledHasNoWildcardLiteral` | CK.FileFilter/FileFilter/PathFilter.cs:91-94 | after the four passes no `*` or `?` is left to be matched literally |
| `PathFilters.CompileRecursiveDir` | CK.FileFilter/FileFilter/PathFilter.cs:91 | `a**\b` compiles to `a`, a recursive run, then `b` |
| `PathFilters.CompileRecursive` | CK.FileFilter/FileFilter/PathFilter.cs:92 | `a**b` compiles to `a`, a recursive run, then `b` |
| `PathFilters.CompileStar` | CK.FileFilter/FileFilter/PathFilter.cs:93 | `a*b` compiles to `a`, one segment, then `b` |
| `PathFilters.CompileQuestion` | CK.FileFilter/FileFilter/PathFilter.cs:94 | `a?b` compiles to `a`, one arbitrary character, then `b` |
| `PathFilters.CompilePlain` | CK.FileFilter/FileFilter/PathFilter.cs:89-95 | a pattern without wildcards compiles to its own characters |
| `PathFilters.MatchLiterals` | CK.FileFilter/FileFilter/PathFilter.cs:95 | the token match of literal tokens holds exactly for the paths equal to them, ignoring case |
| `PathFilters.PlainPatternMatch` | CK.FileFilter/FileFilter/PathFilter.cs:85-96 | a pattern without wildcards accepts exactly the paths equal to it ignoring case, and those paths followed by one `\n` |
| `PathFilters.AnyRunThenLiterals` | CK.FileFilter/FileFilter/PathFilter.cs:91-92 | the token match of `.*b` holds exactly for the paths ending with `b` (ignoring case) whose rest has no newline |
| `PathFilters.MatchAroundAnyRun` | CK.FileFilter/FileFilter/PathFilter.cs:91-92 | the token match of `a.*b` holds exactly for the paths that start with `a`, end with `b` and have no newline between |
| `PathFilters.MatchAroundAnyRunConcat` | CK.FileFilter/FileFilter/PathFilter.cs:91-92 | `a**b` accepts `a`, any newline-free run, then `b` |
| `PathFilters.SegmentThenLiterals` | CK.FileFilter/FileFilter/PathFilter.cs:93 | the token match of `*b` holds exactly for the paths ending with `b` whose rest is a separator-free run, possibly followed by one separator |
| `PathFilters.MatchAroundSegment` | CK.FileFilter/FileFilter/PathFilter.cs:93 | the token match of `a*b` holds exactly for the paths made of `a`, a segment, then `b` |
| `PathFilters.AnyCharThenLiterals` | CK.FileFilter/FileFilter/PathFilter.cs:94 | the token match of `.b` holds exactly for one non-newline character followed by `b` |
| `PathFilters.MatchAroundAnyChar` | CK.FileFilter/FileFilter/PathFilter.cs:94 | the token match of `a.b` holds exactly for the paths made of `a`, one non-newline character, then `b` |
| `PathFilters.MatchAroundAnyCharConcat` | CK.FileFilter/FileFilter/PathFilter.cs:94 | `a?b` accepts `a`, any one non-newline character, then `b` |
| `PathFilters.TripleStarSeparator` | CK.FileFilter/FileFilter/PathFilter.cs:91-93 | the `Replace` order makes `***\a` compile to a segment then a recursive run, so it accepts `a` |
| `PathFilters.TrailingSeparatorIsRecursive` | CK.FileFilter/FileFilter/PathFilter.cs:87-88 | a pattern ending with a separator compiles as if `**` followed it |
| `PathFilters.PathFilter.constructor` | CK.FileFilter/FileFilter/PathFilter.cs:23-26 | an exclude filter with the empty pattern and nothing compiled |
| `PathFilters.PathFilter.WithPattern` | CK.FileFilter/FileFilter/PathFilter.cs:33-37 | keeps the flag and stores the normalised pattern, a null one becoming empty |
| `PathFilters.PathFilter.SetPath` | CK.FileFilter/FileFilter/PathFilter.cs:60-75 | stores the normalised pattern; the compiled matcher is dropped exactly when the pattern changes |
| `PathFilters.PathFilter.SetPathAndInclude` | CK.FileFilter/FileFilter/PathFilter.cs:55-75 | the `Path` setter then the `Include` setter: the pattern is the normalised new one, the flag the new one, and the matcher cache agrees with the new pattern |
| `PathFilters.PathFilter.GetRegex` | CK.FileFilter/FileFilter/PathFilter.cs:80-83 | returns the compilation of the current pattern, reusing a cached one and caching a new one |
| `PathFilters.PathFilter.IsMatch` | CK.FileFilter/FileFilter/PathFilter.cs:80-96 | whether the current pattern accepts the path, one final `\n` allowed as by `$`, or the compilation's failure |
| `PathFilterLists.Verdict` | CK.Globbing/FileFilter/PathFilterList.cs:46 | a matching filter answers `Included` exactly when it includes, and never `None` |
| `PathFilterLists.Evaluate` | CK.Globbing/FileFilter/PathFilterList.cs:41-49 | an `Included` or `Excluded` answer comes from some rule carrying that flag; the deciding rule is stated by `PathFilterLists.EvaluateFirstMatch` |
| `PathFilterLists.EvaluateSkipsRejecting` | CK.Globbing/FileFilter/PathFilterList.cs:43-47 | filters that do not match are passed over |
| `PathFilterLists.EvaluateFirstMatch` | CK.Globbing/FileFilter/PathFilterList.cs:43-47 | the first matching filter decides, whatever follows |
| `PathFilterLists.FirstDecider` | CK.Globbing/FileFilter/PathFilterList.cs:43-47 | the index of the first filter that matches or fails, every earlier one rejecting |
| `PathFilterLists.EvaluateNone` | CK.Globbing/FileFilter/PathFilterList.cs:48 | the answer is `None` exactly when no filter matches |
| `PathFilterLists.EvaluateError` | CK.Globbing/FileFilter/PathFilterList.cs:43-47 | an empty pattern reached before any match makes the evaluation fail |
| `PathFilterLists.OrderDecides` | CK.Globbing/FileFilter/PathFilterList.cs:23 | when two filters both match, whichever comes first decides |
| `PathFilterLists.EvaluateAppend` | CK.Globbing/FileFilter/PathFilterList.cs:43-48 | a filter added at the end is consulted only when no earlier one decides |
| `PathFilterLists.StarPatternAcceptsEssai` | Tests/CK.Globbing.Tests/FilterTest.cs:32 | `c:\essai1\*.txt` accepts `c:\essai1\essai1.txt` |
| `PathFilterLists.PlainPatternAcceptsEssai` | Tests/CK.Globbing.Tests/FilterTest.cs:33 | `c:\essai1\essai1.txt` accepts itself |
| `PathFilterLists.OrderFlipsEssai` | Tests/CK.Globbing.Tests/FilterTest.cs:32-46 | include `*.txt` before exclude `essai1.txt` includes the file, and the other order excludes it |
| `PathFilterLists.RecursiveDirPatternOnEssai` | Tests/CK.Globbing.Tests/FilterTest.cs:51-57 | `c:\essai1\**\essai1.txt` accepts `c:\essai1\essai1.txt`, an empty run, and rejects `c:\essai1\essai2\essai3.txt` |
| `PathFilterLists.RecursivePatternOnEssai` | Tests/CK.Globbing.Tests/FilterTest.cs:52-55 | `c:\essai1\**.txt` accepts a file two directories down |
| `PathFilterLists.RecursiveOrderOnEssai` | Tests/CK.Globbing.Tests/FilterTest.cs:51-57 | exclude `**\essai1.txt` before include `**.txt` excludes `essai1.txt` and includes `essai2\essai3.txt` |
| `PathFilterLists.QuestionPatternOnEssai` | CK.FileFilter/FileFilter/PathFilter.cs:94 | `c:\essai?\essai1.txt` accepts `c:\essai1\essai1.txt` but not `c:\essai12\essai1.txt` |
| `PathFilterLists.PathFilterList.constructor` | CK.Globbing/FileFilter/PathFilterList.cs:31-34 | an empty list |
| `PathFilterLists.PathFilterList.Add` | CK.FileFilter/FileFilter/FilteredObservableCollection.cs:55-59 | the filter object itself is appended, so its current flag and pattern become the last rule |
| `PathFilterLists.PathFilterList.Clear` | CK.Globbing/FileFilter/FileNameFilter.cs:121 | the list becomes empty |
| `PathFilterLists.PathFilterList.MatchAt` | CK.Globbing/FileFilter/PathFilterList.cs:45-46 | whether the filter at that index accepts the path by its pattern as it is now; no flag or pattern changes |
| `PathFilterLists.PathFilterList.FilePathMatch` | CK.Globbing/FileFilter/PathFilterList.cs:41-49 | the answer is the first-match evaluation of the filters' current flags and patterns in order; no flag or pattern changes |
| `FileNameFilters.IndexOfInvalid` | CK.Globbing/FileFilter/FileNameFilter.cs:52 | the index of the first invalid path character, or -1 when there is none |
| `FileNameFilters.NormalizePattern` | CK.Globbing/FileFilter/FileNameFilter.cs:48-65 | a missing filter gives `ArgumentNull`; a pattern is accepted exactly when it is not blank, holds no invalid character and is not rooted, otherwise `Argument` (from the test at line 52 for an invalid character after the first, from `GetPathRoot` for one in first place); an accepted filter keeps its flag and loses one leading separator |
| `FileNameFilters.LeadingInvalidCharRefusedByPathRoot` | CK.Globbing/FileFilter/FileNameFilter.cs:52-56 | `<a` passes the `> 0` test, yet is refused with `Argument` because `GetPathRoot` rejects its invalid character |
| `FileNameFilters.NormalizedIsRelative` | CK.Globbing/FileFilter/FileNameFilter.cs:60-64 | an accepted pattern does not start with a separator and holds no `/` |
| `FileNameFilters.RootedPatternsRefused` | CK.FileFilter.Tests/FileNameFilterTests.cs:23-26 | `d:`, `C:\Pouf`, `\\server\share` and `\\?\C:\Pouf` are refused |
| `FileNameFilters.LoneSeparatorLeavesEmptyPattern` | CK.Globbing/FileFilter/FileNameFilter.cs:60-62 | a lone separator is accepted as the empty pattern, which then fails on every match |
| `FileNameFilters.NormalizeRoot` | CK.Globbing/FileFilter/FileNameFilter.cs:93-105 | a blank root, or one that is only a separator, becomes null; any other ends with a `\` and holds no `/` |
| `FileNameFilters.NormalizeRootDropsOneSeparator` | CK.Globbing/FileFilter/FileNameFilter.cs:99-104 | a normalised root starting with a separator loses exactly that one |
| `FileNameFilters.Decide` | CK.Globbing/FileFilter/FileNameFilter.cs:77-82 | a file decided at all lies under the root, ignoring case, or there is no root; a filter without rules decides nothing |
| `FileNameFilters.DecideUnderRoot` | CK.Globbing/FileFilter/FileNameFilter.cs:80-81 | a path under the root, whatever the case of its spelling, is decided on what follows the root |
| `FileNameFilters.DecideOutsideRoot` | CK.Globbing/FileFilter/FileNameFilter.cs:80 | a path outside the root is `None`, whatever the rules |
| `FileNameFilters.ShorterThanRootIsOutside` | CK.Globbing/FileFilter/FileNameFilter.cs:80 | a path shorter than the root is `None` |
| `FileNameFilters.FileNameFilter.constructor` | CK.Globbing/FileFilter/FileNameFilter.cs:22-25 | no root and an empty, fresh rule list |
| `FileNameFilters.FileNameFilter.AddFilter` | CK.FileFilter/FileFilter/FilteredObservableCollection.cs:55-59 | a refused filter leaves the list as it was and reports the validation's error; an accepted one is appended as its normalised copy |
| `FileNameFilters.FileNameFilter.SetRoot` | CK.Globbing/FileFilter/FileNameFilter.cs:88-113 | the root becomes the normalised value |
| `FileNameFilters.FileNameFilter.FilePathMatch` | CK.Globbing/FileFilter/FileNameFilter.cs:77-82 | the answer is the decision of the held filters' current flags and patterns under the root |
| `FileNameFilters.FileNameFilter.Clear` | CK.Globbing/FileFilter/FileNameFilter.cs:119-122 | the rules are removed and the root is kept |
| `FileNameFilters.EditHeldFilter` | CK.FileFilter/FileFilter/PathFilter.cs:55-75 | setting `Path` and `Include` on a filter the list holds keeps the list valid; every place holding that filter now carries the new normalised pattern and flag and the next `FilePathMatch` decides with them |
| `FileNameFilters.NormalizedKeepsSeparators` | CK.Globbing/FileFilter/FileNameFilter.cs:62-64 | the new filter's constructor does not change an accepted pattern any further |
| `FileGroupTargets.Split` | CK.Globbing/FileFilter/FileGroupTarget.cs:142-148 | the result always keeps the invariant that the path is the removable root followed by the final path; under a root the removable root is the path's own spelling of it, otherwise empty |
| `FileGroupTargets.SplitAgreesWhenSpeltAlike` | CK.Globbing/FileFilter/FileGroupTarget.cs:196 | when the path spells the root exactly, cutting by length gives the same split |
| `FileGroupTargets.FirstDecisionSkips` | CK.Globbing/FileFilter/FileGroupTarget.cs:182-190 | filters that leave the path undecided are passed over |
| `FileGroupTargets.Undecided` | CK.Globbing/FileFilter/FileGroupTarget.cs:182-190 | the index of the first filter that decides or fails, every earlier one answering `None` |
| `FileGroupTargets.IncludedFileDecider` | CK.Globbing/FileFilter/FileGroupTarget.cs:178-198 | the first deciding filter gives the answer, and the path is split at that filter's root |
| `FileGroupTargets.IncludedFileUndecided` | CK.Globbing/FileFilter/FileGroupTarget.cs:191-194 | with no decision the answer is `None`, with an empty removable root |
| `FileGroupTargets.IncludedFileWellFormed` | CK.Globbing/FileFilter/FileGroupTarget.cs:144 | every `Result` of `IncludedFile` keeps the invariant and carries the challenged path |
| `FileGroupTargets.ChallengeFileAsWritten` | CK.Globbing/FileFilter/FileGroupTarget.cs:178-198 | the loop as written: the same errors as the corrected split, and where that decides, the same answer with the full path kept, unless cutting by the root's length throws `ArgumentOutOfRange` |
| `FileGroupTargets.ScanAnswers` | CK.Globbing/FileFilter/FileGroupTarget.cs:215-223 | the inner loop of `IncludedFiles` decides as `IncludedFile` does |
| `FileGroupTargets.ScanRecordsRoot` | CK.Globbing/FileFilter/FileGroupTarget.cs:218-221 | after some filter, an undecided or included path has a root, and an included path lies under it |
| `FileGroupTargets.SelectPolicy` | CK.Globbing/FileFilter/FileGroupTarget.cs:224-231 | excluded files are skipped and included ones yielded; an undecided file is skipped by `Default`, throws `UnmatchedFile` under `NoneIsUnmatchedFileException`, and is yielded by `NoneIsIncluded`, or meets a null root when there are no filters |
| `FileGroupTargets.ScanSkips` | CK.Globbing/FileFilter/FileGroupTarget.cs:215-223 | filters that leave the path undecided only record their roots |
| `FileGroupTargets.SelectIncluded` | CK.Globbing/FileFilter/FileGroupTarget.cs:228-230 | an included file is yielded, split at its deciding filter's root |
| `FileGroupTargets.SelectAsWritten` | CK.Globbing/FileFilter/FileGroupTarget.cs:212-231 | one enumerated file as written: the same errors and the same skipped files as the corrected split, and where that yields a result, a result for the same path, unless cutting by the recorded root's length throws `ArgumentOutOfRange` |
| `FileGroupTargets.CollectAppend` | CK.Globbing/FileFilter/FileGroupTarget.cs:210-232 | results follow the enumeration order, and the first failure stops everything |
| `FileGroupTargets.CollectWellFormed` | CK.Globbing/FileFilter/FileGroupTarget.cs:213-230 | every yielded result keeps the invariant and is the stripped path of an enumerated name |
| `FileGroupTargets.CollectSkipsExcluded` | CK.Globbing/FileFilter/FileGroupTarget.cs:228 | nothing the filters exclude is yielded |
| `FileGroupTargets.SelectFiles` | CK.Globbing/FileFilter/FileGroupTarget.cs:206-210 | a blank root gives `Argument`, a missing storage `ArgumentNull`, and an empty listing no results |
| `FileGroupTargets.CaseMismatchBreaksInvariant` | CK.Globbing/FileFilter/FileGroupTarget.cs:196 | `sub\a.txt` under the root `Sub\` gets a removable root that is not its prefix, and the corrected split gives `sub\` |
| `FileGroupTargets.OutsideRootBreaksInvariant` | CK.Globbing/FileFilter/FileGroupTarget.cs:218-230 | under `NoneIsIncluded` an undecided `x.txt` is cut by the root `Sub\`'s length and `ab` throws, while the corrected split keeps it whole |
| `FileGroupTargets.FileGroupTarget.constructor` | CK.Globbing/FileFilter/FileGroupTarget.cs:44-48 | target `/`, the `Default` behaviour, no filters |
| `FileGroupTargets.FileGroupTarget.SetTarget` | CK.Globbing/FileFilter/FileGroupTarget.cs:71-83 | a blank target becomes `/`, and anything else is kept |
| `FileGroupTargets.FileGroupTarget.SetMatchBehavior` | CK.Globbing/FileFilter/FileGroupTarget.cs:88-99 | the behaviour changes and nothing else does |
| `FileGroupTargets.FileGroupTarget.AddFilter` | CK.Globbing/FileFilter/FileGroupTarget.cs:104 | the filter object itself is appended, so the target's view of its filters gains that filter's root and rules |
| `FileGroupTargets.FileGroupTarget.DecideAt` | CK.Globbing/FileFilter/FileGroupTarget.cs:184 | the answer of the filter at that index, by its root and rules as they are now |
| `FileGroupTargets.FileGroupTarget.IncludedFile` | CK.Globbing/FileFilter/FileGroupTarget.cs:178-198 | the loop's answer and `Result` are those of the first deciding filter, read from the filters as they are at the call, with the corrected split |
| `FileGroupTargets.FileGroupTarget.ScanFilters` | CK.Globbing/FileFilter/FileGroupTarget.cs:212-223 | the inner loop of `IncludedFiles`, recording the root of every filter that does not exclude |
| `FileGroupTargets.FileGroupTarget.SelectFile` | CK.Globbing/FileFilter/FileGroupTarget.cs:212-231 | what `IncludedFiles` does with one enumerated file, with the corrected split: the filters are scanned and the behaviour chooses the result, with nothing changed |
| `FileGroupTargets.FileGroupTarget.CollectFiles` | CK.Globbing/FileFilter/FileGroupTarget.cs:212-231 | the `foreach` over the listing: the results are those of every name in order, or the first failure, and neither the filters nor what they decide change |
| `FileGroupTargets.FileGroupTarget.IncludedFiles` | CK.Globbing/FileFilter/FileGroupTarget.cs:206-233 | the results are those of the storage's listing, in order, under the current behaviour and the filters as they are when the listing is consumed; the model consumes it at the call |
| `FileGroupTargets.EditThenChallenge` | CK.FileFilter/FileFilter/PathFilter.cs:55-75 | after a path filter held by one of the target's filters is edited in place, every place the target holds that object carries the new pattern and flag, every other rule and every root is unchanged, the target stays valid, and `IncludedFile` decides with the rules so edited |
| `FileGroupTargets.EditHeldPathFilter` | CK.FileFilter/FileFilter/PathFilter.cs:55-75 | editing a path filter held by one of the target's filters: every place any of the target's filters holds that object carries the new rule, every other rule and every root is unchanged, and the target stays valid |
| `FileGroupTargets.GitPatternNormalizes` | CK.FileFilter.Tests/FileNameFilterTests.cs:254 | the rule exclude `/.git/` is stored as exclude `.git\` |
| `FileGroupTargets.ObjPatternNormalizes` | CK.FileFilter.Tests/FileNameFilterTests.cs:258 | the rule exclude `/**/ob?/` is stored as exclude `**\ob?\` |
| `FileGroupTargets.AddRule` | CK.FileFilter.Tests/FileNameFilterTests.cs:254-258 | a `PathFilter` built from a rule and added to a `FileNameFilter` appends the rule as the filter normalises it, or nothing when it is refused |
| `FileGroupTargets.TargetWithRule` | CK.FileFilter.Tests/FileNameFilterTests.cs:249-259 | a fresh target holding one fresh filter without root, whose rules are that one added rule |
| `FileGroupTargets.SelectWith` | CK.FileFilter.Tests/FileNameFilterTests.cs:251-261 | setting the behaviour then calling `IncludedFiles` on the solution root selects by the filter's current rules |
| `FileGroupTargets.RefillWith` | CK.FileFilter.Tests/FileNameFilterTests.cs:274-276 | clearing the filter and adding a rule leaves exactly that rule, under the same root |
| `FileGroupTargets.ReuseChangedFilter` | CK.FileFilter.Tests/FileNameFilterTests.cs:249-281 | after the filter already held by the target is cleared and refilled, the second selection follows the new rules under `Default`, the first having followed the old ones under `NoneIsIncluded` |
| `KeyOrder.Position` | CK.Globbing/VirtualFileStorage/VirtualFileStorage.cs:60-71 | the insertion point: every key before it is smaller ignoring case, and the key at it is not |
| `KeyOrder.InsertKey` | CK.Globbing/VirtualFileStorage/VirtualFileStorage.cs:86-89 | a key already present, ignoring case, leaves the keys as they are; any other adds one; either way the key is then present and no key is lost |
| `KeyOrder.FindKey` | CK.Globbing/VirtualFileStorage/VirtualFileStorage.cs:60 | the index of a key equal ignoring case, or -1 when there is none |
| `KeyOrder.IndexOf` | CK.Globbing/VirtualFileStorage/VirtualFileStorage.cs:60 | the key's index, or the complement of its insertion point when it is absent |
| `KeyOrder.AfterPosition` | CK.Globbing/VirtualFileStorage/VirtualFileStorage.cs:71-81 | in a sorted list, every key from an absent key's insertion point on is larger |
| `KeyOrder.InsertKeySorted` | CK.Globbing/VirtualFileStorage/VirtualFileStorage.cs:86-89 | adding keeps the keys sorted; a present key changes nothing, and an absent one is added exactly once |
| `KeyOrder.ClosestBelow` | CK.Globbing/VirtualFileStorage/VirtualFileStorage.cs:73-81 | the downward walk stops at the first key that prefixes the path, or at index 0 |
| `KeyOrder.ClosestIsLongestPrefix` | CK.Globbing/VirtualFileStorage/VirtualFileStorage.cs:70-81 | the walk finds the longest key that prefixes the path, ignoring case |
| `KeyOrder.EmptyKeyFirst` | CK.Globbing/VirtualFileStorage/VirtualFileStorage.cs:61-72 | the root's empty key stays first, so a non-empty absent path has a positive insertion point |
| `KeyOrder.ClosestKey` | CK.Globbing/VirtualFileStorage/VirtualFileStorage.cs:57-84 | a path that is itself a key goes to the root; any other goes to the longest key that prefixes it |
| `StoragePaths.ContainerRoot` | CK.FileFilter/VirtualFileStorage/VirtualFileStorageDriverRoot.cs:60 | a container driver's root path is the container path with every `/` turned into `\`, followed by one `\` exactly when it lacks a trailing separator |
| `StoragePaths.ContainerIsNotEmpty` | CK.FileFilter/VirtualFileStorage/VirtualFileStorageDriverRoot.cs:56-58 | a container path is at least as long as `.zip` |
| `StoragePaths.OpenArchive` | CK.Globbing/VirtualFileStorage/VirtualFileStorageDriverRootZip.cs:19-24 | the archive is the file named by the root path without its `\`; a missing file or one that is not an archive fails |
| `StoragePaths.EntryName` | CK.Globbing/VirtualFileStorage/VirtualFileStorageDriverRootZip.cs:44 | an entry's name is the part of its full name after the last separator |
| `StoragePaths.DirectoryEntryHasNoName` | CK.Globbing/VirtualFileStorage/VirtualFileStorageDriverRootZip.cs:44 | an entry has an empty name exactly when its full name is empty or ends with a separator |
| `StoragePaths.ZipListMembership` | CK.Globbing/VirtualFileStorage/VirtualFileStorageDriverRootZip.cs:41-48 | a path is listed exactly when it is the root path followed by the normalised full name of a named entry that starts with the asked path, ignoring case |
| `StoragePaths.ZipListAppend` | CK.Globbing/VirtualFileStorage/VirtualFileStorageDriverRootZip.cs:43-47 | the listing follows the entry order |
| `StoragePaths.ZipList` | CK.Globbing/VirtualFileStorage/VirtualFileStorageDriverRootZip.cs:41-48 | at most one listed name per entry, each under the driver's root path |
| `StoragePaths.EmptyPrefixListsEveryFile` | CK.FileFilter/VirtualFileStorage/VirtualFileStorageDriverRoot.cs:69 | asked for the empty path, a zip lists every entry that has a name |
| `StoragePaths.ZipName` | CK.Globbing/VirtualFileStorage/VirtualFileStorageDriverRootZip.cs:28 | every `\` becomes `/` and nothing else changes |
| `StoragePaths.FindEntry` | CK.Globbing/VirtualFileStorage/VirtualFileStorageDriverRootZip.cs:28 | the first entry with that exact name, or -1 when there is none |
| `StoragePaths.ZipOpen` | CK.Globbing/VirtualFileStorage/VirtualFileStorageDriverRootZip.cs:26-39 | an entry that exists is opened; a missing one gives `FileNotFound`; an archive that failed to open gives `NullReference` |
| `StoragePaths.ZipEnumerate` | CK.Globbing/VirtualFileStorage/VirtualFileStorageDriverRootZip.cs:41-48 | the listing of the archive, or `NullReference` when it failed to open |
| `StoragePaths.ZipNameUndoesNormalization` | CK.Globbing/VirtualFileStorage/VirtualFileStorageDriverRootZip.cs:28-45 | a `/`-separated entry name comes back from its normalised form |
| `StoragePaths.ListedEntriesOpen` | CK.Globbing/VirtualFileStorage/VirtualFileStorageDriverRootZip.cs:26-48 | every path the zip driver lists opens through the same driver |
| `StoragePaths.LastSep` | CK.FileFilter/VirtualFileStorage/VirtualFileStorageDriverRoot.cs:43 | the index of the last separator, or -1 |
| `StoragePaths.DirectoryName` | CK.FileFilter/VirtualFileStorage/VirtualFileStorageDriverRoot.cs:43 | the parent is the non-empty part before the last separator, or null when there is none |
| `StoragePaths.AncestorIsPrefix` | CK.FileFilter/VirtualFileStorage/VirtualFileStorageDriverRoot.cs:43 | every ancestor the walk visits is a proper prefix followed by a separator |
| `StoragePaths.PrefixBeforeSepIsAncestor` | CK.FileFilter/VirtualFileStorage/VirtualFileStorageDriverRoot.cs:43 | every non-empty prefix before a separator is visited by the walk |
| `StoragePaths.FindContainer` | CK.FileFilter/VirtualFileStorage/VirtualFileStorageDriverRoot.cs:39-52 | what the walk finds is an existing container file among the path's ancestors |
| `StoragePaths.FindContainerNearest` | CK.FileFilter/VirtualFileStorage/VirtualFileStorageDriverRoot.cs:39-52 | the walk finds the nearest container ancestor, or reports none when no ancestor is one |
| `StoragePaths.NearestContainerFound` | CK.FileFilter/VirtualFileStorage/VirtualFileStorageDriverRoot.cs:39-52 | a container ancestor with no nearer one is what the walk finds |
| `StoragePaths.ContainerRootAppendsSep` | CK.FileFilter/VirtualFileStorage/VirtualFileStorageDriverRoot.cs:60 | a container path without a trailing separator is mounted at itself followed by `\` |
| `StoragePaths.ContainerListing` | CK.FileFilter/VirtualFileStorage/VirtualFileStorageDriverRoot.cs:68-71 | a mounted container lists its archive, or fails as the archive's opening does |
| `StoragePaths.FileListing` | CK.FileFilter/VirtualFileStorage/VirtualFileStorageDriverRoot.cs:79-84 | a listed file comes first, followed by its archive's entries when it is a container |
| `StoragePaths.DirectoryListingAppend` | CK.FileFilter/VirtualFileStorage/VirtualFileStorageDriverRoot.cs:77-85 | a directory listing follows the file order |
| `StoragePaths.DirectoryListingPlainFiles` | CK.FileFilter/VirtualFileStorage/VirtualFileStorageDriverRoot.cs:77-85 | with no containers, the listing is the directory's files |
| `StoragePaths.DirectoryListingKeepsFiles` | CK.FileFilter/VirtualFileStorage/VirtualFileStorageDriverRoot.cs:79 | every file of the directory is listed |
| `StoragePaths.RootEnumerateNotFound` | CK.FileFilter/VirtualFileStorage/VirtualFileStorageDriverRoot.cs:65-73 | `DirectoryNotFound` exactly when the path is not a directory, not a container, and has no container ancestor |
| `StoragePaths.RootEnumerate` | CK.FileFilter/VirtualFileStorage/VirtualFileStorageDriverRoot.cs:65-73 | a failure is a missing directory for that very path, a missing file or a bad archive; an existing directory lists at least every file it holds |
| `StoragePaths.DirectoryListingNeverNotFound` | CK.FileFilter/VirtualFileStorage/VirtualFileStorageDriverRoot.cs:75-86 | a directory listing fails only the way an archive does |
| `StoragePaths.RootOpenOutcomes` | CK.FileFilter/VirtualFileStorage/VirtualFileStorageDriverRoot.cs:27-37 | an existing file opens as itself; anything else opens as an archive entry or fails, and never on an unopened archive |
| `StoragePaths.RootOpen` | CK.FileFilter/VirtualFileStorage/VirtualFileStorageDriverRoot.cs:27-37 | a failure is a missing file or a bad archive; a success opens the physical file itself, or an entry of the nearest container holding the path |
| `VirtualFileStorages.Keys` | CK.Globbing/VirtualFileStorage/VirtualFileStorage.cs:31 | the registry's keys are the drivers' root paths, in order |
| `VirtualFileStorages.InsertDriver` | CK.Globbing/VirtualFileStorage/VirtualFileStorage.cs:86-89 | the keys are inserted as the sorted list inserts them; a duplicate root is refused; the root driver stays first |
| `VirtualFileStorages.StorageEnumerate` | CK.Globbing/VirtualFileStorage/VirtualFileStorage.cs:36-43 | the listing fails with `NullReference` exactly when the closest driver is a container whose archive never opened; a container that opened lists only names under its root |
| `VirtualFileStorages.StorageOpen` | CK.Globbing/VirtualFileStorage/VirtualFileStorage.cs:45-55 | opening fails with `NullReference` exactly when the path is no file and the closest driver is a container whose archive never opened; a physical file opened is the path itself, which exists |
| `VirtualFileStorages.RootWouldMount` | CK.FileFilter/VirtualFileStorage/VirtualFileStorageDriverRoot.cs:39-63 | the root driver would find a container ancestor with no nearer one and mount it at itself followed by `\` |
| `VirtualFileStorages.RegisteredContainerListsAsRoot` | CK.Globbing/VirtualFileStorage/VirtualFileStorage.cs:41-42 | a registered container driver lists what the root driver would list by mounting the container afresh |
| `VirtualFileStorages.RegisteredContainerOpensAsRoot` | CK.Globbing/VirtualFileStorage/VirtualFileStorage.cs:53-54 | a registered container driver opens what the root driver would open by mounting it afresh |
| `VirtualFileStorages.Driver.Root` | CK.FileFilter/VirtualFileStorage/VirtualFileStorageDriver.cs:15-20 | the root driver has no parent and the empty root path |
| `VirtualFileStorages.Driver.Container` | CK.FileFilter/VirtualFileStorage/VirtualFileStorageDriver.cs:22-28 | a container driver opens its archive and registers itself in its storage |
| `VirtualFileStorages.Driver.CreateDriver` | CK.FileFilter/VirtualFileStorage/VirtualFileStorageDriverRoot.cs:54-63 | a driver is created and registered exactly for a zip or nupkg path the storage handles |
| `VirtualFileStorages.Driver.FindDriverForPath` | CK.FileFilter/VirtualFileStorage/VirtualFileStorageDriverRoot.cs:39-52 | a driver is returned exactly when the path has a container ancestor, mounted on the nearest one; the registry gains exactly that fresh driver at its sorted place, and is unchanged otherwise |
| `VirtualFileStorages.Driver.EnumerateFilesForExistingDirectory` | CK.FileFilter/VirtualFileStorage/VirtualFileStorageDriverRoot.cs:75-86 | each file of the directory followed by its archive's entries when it is a container |
| `VirtualFileStorages.Driver.ListFile` | CK.FileFilter/VirtualFileStorage/VirtualFileStorageDriverRoot.cs:79-84 | one file of a directory listing and its entries; a container gets exactly one fresh driver rooted at it, inserted at its sorted place, and any other file leaves the registry unchanged |
| `VirtualFileStorages.Driver.RootEnumerateFiles` | CK.FileFilter/VirtualFileStorage/VirtualFileStorageDriverRoot.cs:65-73 | the root driver lists a directory, a container, or the nearest container ancestor's entries, or fails with `DirectoryNotFound` |
| `VirtualFileStorages.Driver.RootOpenRead` | CK.FileFilter/VirtualFileStorage/VirtualFileStorageDriverRoot.cs:27-37 | the root driver opens an existing file, or the entry of the nearest container ancestor, or fails with `FileNotFound` |
| `VirtualFileStorages.Driver.ZipEnumerateFiles` | CK.Globbing/VirtualFileStorage/VirtualFileStorageDriverRootZip.cs:41-48 | the zip driver's listing |
| `VirtualFileStorages.Driver.ZipOpenRead` | CK.Globbing/VirtualFileStorage/VirtualFileStorageDriverRootZip.cs:26-39 | the zip driver's opening of an entry |
| `VirtualFileStorages.Driver.EnumerateFiles` | CK.FileFilter/VirtualFileStorage/VirtualFileStorageDriver.cs:32 | dispatches to the root driver's or the zip driver's listing |
| `VirtualFileStorages.Driver.OpenRead` | CK.FileFilter/VirtualFileStorage/VirtualFileStorageDriver.cs:30 | dispatches to the root driver's or the zip driver's opening |
| `VirtualFileStorages.Driver.Dispose` | CK.Globbing/VirtualFileStorage/VirtualFileStorageDriverRootZip.cs:50-53 | a zip driver closes its archive, or raises `NullReference` without closing anything when its archive never opened; the root driver does nothing |
| `VirtualFileStorages.VirtualFileStorage.constructor` | CK.Globbing/VirtualFileStorage/VirtualFileStorage.cs:27-34 | the registry holds only the fresh root driver, with the given container handlers |
| `VirtualFileStorages.VirtualFileStorage.AddDriver` | CK.Globbing/VirtualFileStorage/VirtualFileStorage.cs:86-89 | the driver is inserted at its sorted place |
| `VirtualFileStorages.VirtualFileStorage.FindClosestDriver` | CK.Globbing/VirtualFileStorage/VirtualFileStorage.cs:57-84 | a path that is itself a registered root goes to the root driver, the parent of every container; any other goes to the driver with the longest root that prefixes it |
| `VirtualFileStorages.VirtualFileStorage.EnumerateFiles` | CK.Globbing/VirtualFileStorage/VirtualFileStorage.cs:36-43 | a blank path gives `Argument`; any other is normalised with a trailing `\` and listed by the closest driver, relative to its root |
| `VirtualFileStorages.VirtualFileStorage.OpenRead` | CK.Globbing/VirtualFileStorage/VirtualFileStorage.cs:45-55 | a blank path gives `Argument`; an existing file opens directly; any other goes to the closest driver, relative to its root |
| `VirtualFileStorages.VirtualFileStorage.Dispose` | CK.Globbing/VirtualFileStorage/VirtualFileStorage.cs:91-99 | from the last driver down every container is disposed and the registry emptied; a container whose archive never opened raises `NullReference`, after the drivers above it are disposed and with those below it and the registry untouched |
| `VirtualFileStorages.VirtualFileStorage.CloseDrivers` | CK.Globbing/VirtualFileStorage/VirtualFileStorage.cs:93-95 | the loop of `Dispose`: it fails exactly when some container's archive never opened; every container above the last such one is disposed and the others keep their flag |
| `VirtualFileStorages.LastUnopened` | CK.Globbing/VirtualFileStorage/VirtualFileStorage.cs:93-94 | the highest container index whose archive never opened, every container above it having opened, or 0 when all opened |

## Left out

- XML reading and writing (`ToXml`, `FromXml`, the `XElement` constructors) is not modelled. It is serialisation around the filters, not their behaviour.
- Property-change and collection-change notifications (`NotifierBase`, `RaisePropertyChanged`) are left out. They are observer plumbing with no effect on the results.
- Stream contents are not modelled. `DoOpen`, `TrackedStream` and `ZipArchiveEntry.Open` become a `Stream` value naming what is opened.
- Reading after a stream is opened is not modelled either, nor is the debug count of open streams.
- The parameterless `VirtualFileStorage()`, which only forwards `(true, true)`, is not modelled separately.
- `FileNameFilter(Action<FileNameFilter>)`, which only runs caller code, is not modelled.
- `IVirtualFileStorage` is an interface. `IncludedFiles` receives its listing of the root as a parameter, and a missing storage is `None`.
- Use of a storage or driver after `Dispose` is not modelled. A closed archive is a `disposed` flag on its driver.
- `SortedStringArray.SortedArrayRemove`: when every element is removed, the source returns the shared `Util.EmptyStringArray`. The model returns a fresh empty array; only the reference differs.
- `SortedStringArray.SortedArrayAdd` and `SortedStringArray.SortedArrayRemove` take no comparer: the order is fixed to `StringComparer.Ordinal`, the only comparer `FileNameList` passes. The source's sentinel mark string is a parallel `bool` array.
- `FileNameLists.FileNameList.IndexOfFile`: the result is stated as found, or as a complement whose insertion point lies between smaller and larger names. The exact index `Array.BinarySearch` reports among equal elements is left open; strictly sorted lists have none.
- Case-insensitive comparison folds ASCII letters only. Culture rules and Unicode case folding are not modelled.
- The regex `.` is modelled as "any character but `\n`", which is the .NET default. The closing `$` is modelled as the .NET default too: the end of the path, or just before one final `\n`.
- `Common.IsWhiteSpace` knows only the ASCII blanks (space, tab, line feed, vertical tab, form feed, carriage return). Other Unicode blanks such as U+00A0, which `String.IsNullOrWhiteSpace` also treats as blank, count as ordinary characters.
- `Common.Less` orders strings by Unicode scalar value. `StringComparer.Ordinal` orders by UTF-16 code unit, so the two differ only between a character above U+FFFF and one in U+E000 to U+FFFF.
- `FileGroupTargets.FileGroupTarget.AddFilter` takes a non-null `FileNameFilter`. The source's `Filters` list accepts `null`, and `IncludedFile` then throws `NullReferenceException` at `FileGroupTarget.cs:184`; that case is not modelled.
- `FileUtil.NormalizePathSeparator` is not part of this model. Its behaviour is assumed: `/` becomes `\`, and when asked, a `\` is appended to a non-empty path that lacks one.
- `Path.GetDirectoryName` is simplified to the part before the last `\`. Drive roots and UNC prefixes get no special handling, and paths are expected to be normalised.
- `Path.GetPathRoot` is simplified to two behaviours: it refuses a path holding an invalid character, as the .NET Framework does, and otherwise reports a root for a path starting with two separators or with a volume letter and `:`. So the `> 0` at `FileNameFilter.cs:52`, which misses an invalid first character, only changes which check raises the `ArgumentException`.
- `Path.GetInvalidPathChars()` is the .NET Framework set: `"`, `<`, `>`, `|` and the control characters.
- The file system compares paths exactly as spelt. Case-insensitive file systems are not modelled.
- `CKSortedArrayKeyList` is not part of this model. Its `Add` is assumed to refuse a duplicate key, ignoring case, and to insert any other at its sorted place.
- `ZipArchive.GetEntry` is taken to return the first entry with that exact name.
- Zip entry names: an entry's `Name` is taken as the part of its full name after the last `/`, `\` or `:`.
- `EnumerateFiles` yields lazily in the source. The model computes the whole listing, so a failure part-way is reported instead of the files before it.
- `FileGroupTargets.FileGroupTarget.IncludedFiles` is an iterator in the source, and the model computes its results eagerly. Three things follow. The checks of a blank root and a missing storage (`FileGroupTarget.cs:208-209`) run at the first `MoveNext` in the source, not at the call. A caller enumerating with `foreach` has already received the results yielded before an `UnmatchedFileException` (`FileGroupTarget.cs:224-226`), while the model reports only the error. And the filters are read as the results are enumerated, so an edit made during the enumeration is seen by the later files in the source; the model reads them all at the call.
- When a container's archive fails to open, the source's driver constructor throws after the driver has registered itself. Later zip calls on that driver then meet a null archive. The model keeps the driver registered with the failed archive, and those calls give `NullReference`, `Dispose` included.
- `VirtualFileStorages.VirtualFileStorage.EnumerateFiles` and `VirtualFileStorages.VirtualFileStorage.OpenRead` state the registry's growth only as an extension that keeps the registry valid. The drivers they mount along the way are not listed one by one.
- `VirtualFileStorages.Driver.RootEnumerateFiles`, `VirtualFileStorages.Driver.RootOpenRead` and `VirtualFileStorages.Driver.EnumerateFilesForExistingDirectory` state the registry's growth the same way.
- `VirtualFileStorages.Driver.EnumerateFiles` and `VirtualFileStorages.Driver.OpenRead` state the registry's growth the same way, as they dispatch to the root driver's methods. The exact drivers mounted are stated one level down, by `VirtualFileStorages.Driver.FindDriverForPath` and `VirtualFileStorages.Driver.ListFile`.
- `FileGroupTargets.FileGroupTarget.IncludedFiles` and `FileGroupTargets.FileGroupTarget.IncludedFile` use the corrected split (see Findings). The as-written behaviour is `FileGroupTargets.SelectAsWritten` and `FileGroupTargets.ChallengeFileAsWritten`.
- `FileGroupTargets.FileGroupTarget.SelectFile` uses the corrected split `FileGroupTargets.Select` (see Findings), so a file under `NoneIsIncluded` that lies outside the recorded root yields a result where the source cuts it by that root's length. The as-written behaviour is `FileGroupTargets.SelectAsWritten`.

## Findings

| source | as written | input that shows it | evidently intended | confidence | as-written member | corrected member |
|---|---|---|---|---|---|---|
| CK.Globbing/FileFilter/FileGroupTarget.cs:196 | the removable root is the filter's `Root` and the final path is cut by its length, though `FilePathMatch` tests the root ignoring case | root `Sub\`, rule include `a.txt`, path `sub\a.txt`: `Result("sub\a.txt", "Sub\", "a.txt")` breaks the assertion at line 144 | the removable root spelt as in the path, so that the path is the removable root followed by the final path | not executed | `FileGroupTargets.CaseMismatchBreaksInvariant` | `FileGroupTargets.Split` |
| CK.Globbing/FileFilter/FileGroupTarget.cs:218-230 | under `NoneIsIncluded` an undecided file keeps the root of the last filter that did not exclude it, and is cut by that root's length though it does not lie under it | one filter with root `Sub\` and no rules: `x.txt` yields `Result("x.txt", "Sub\", "t")`, and `ab` throws `ArgumentOutOfRange` | an undecided file outside that root yields an empty removable root and its whole path | not executed | `FileGroupTargets.OutsideRootBreaksInvariant` | `FileGroupTargets.Select` |
