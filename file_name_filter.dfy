/**
 * CK's FileNameFilter: a rule list whose patterns are validated as relative
 * paths on insertion, confined to an optional `Root` directory.
 */
module FileNameFilters {
  import opened Common
  import opened PathFilters
  import opened PathFilterLists

  // ---------------------------------------------------------------------
  // The path vocabulary of the .NET Framework that pattern validation uses.
  // ---------------------------------------------------------------------

  /** `Path.GetInvalidPathChars()`: '"', '<', '>', '|' and the control characters below 32. */
  predicate IsInvalidPathChar(c: char) {
    c == '"' || c == '<' || c == '>' || c == '|' || c < ' '
  }

  predicate IsDirSep(c: char) {
    c == Sep || c == AltSep
  }

  /** `s.IndexOfAny(Path.GetInvalidPathChars())`: the first invalid character's index, or -1. */
  function IndexOfInvalid(s: string): (i: int)
    ensures -1 <= i < |s|
    ensures i >= 0 ==> IsInvalidPathChar(s[i])
    ensures forall j :: 0 <= j < (if i < 0 then |s| else i) ==> !IsInvalidPathChar(s[j])
    decreases |s|
  {
    if |s| == 0 then -1
    else if IsInvalidPathChar(s[0]) then 0
    else
      var k := IndexOfInvalid(s[1..]);
      assert forall j :: 1 <= j < |s| ==> s[j] == s[1..][j - 1];
      if k < 0 then -1 else k + 1
  }

  /**
   * `Path.GetPathRoot(p).Length >= 2`, for a path without invalid characters:
   * the path starts with two separators (a UNC share, or a `\\?\` device
   * path), or with a volume such as `d:`.
   */
  predicate HasLongRoot(p: string) {
    |p| >= 2 && ((IsDirSep(p[0]) && IsDirSep(p[1])) || (!IsDirSep(p[0]) && p[1] == ':'))
  }

  // ---------------------------------------------------------------------
  // Pattern validation.
  // ---------------------------------------------------------------------

  /** The pattern a validated rule gets: one leading separator removed, separators normalised by the `PathFilter` constructor. */
  function Relative(pattern: string): string {
    if |pattern| > 0 && IsDirSep(pattern[0]) then NormalizePathSeparator(pattern[1..], false)
    else NormalizePathSeparator(pattern, false)
  }

  /**
   * `NormalizePattern`: a missing filter is refused with `ArgumentNull`; a
   * blank pattern, one holding an invalid path character, or a rooted one
   * with `Argument`; otherwise the filter keeps its flag and its pattern
   * loses one leading separator.
   *
   * The invalid-character test reads `IndexOfAny(...) > 0`, so it misses a
   * character at index 0; `Path.GetPathRoot` then refuses any invalid
   * character with the same exception before measuring the root.
   */
  function NormalizePattern(filter: Option<Rule>): (r: Result<Rule>)
    ensures filter.None? <==> r == Err(ArgumentNull)
    ensures r.Err? ==> r.error == ArgumentNull || r.error == Argument
    ensures r.Ok? <==> filter.Some? && ValidPattern(filter.value.pattern)
    ensures r.Ok? ==> r.value == Rule(filter.value.isInclude, Relative(filter.value.pattern))
  {
    if filter.None? then Err(ArgumentNull)
    else
      var pattern := filter.value.pattern;
      if IsNullOrWhiteSpace(Some(pattern)) || IndexOfInvalid(pattern) > 0 then Err(Argument)
      else if IndexOfInvalid(pattern) >= 0 || HasLongRoot(pattern) then Err(Argument)
      else Ok(Rule(filter.value.isInclude, Relative(pattern)))
  }

  /** What a pattern must be to pass validation, stated character by character. */
  predicate ValidPattern(pattern: string) {
    && (exists i :: 0 <= i < |pattern| && !IsWhiteSpace(pattern[i]))
    && (forall i :: 0 <= i < |pattern| ==> !IsInvalidPathChar(pattern[i]))
    && !HasLongRoot(pattern)
  }

  /** An invalid first character passes the test at index > 0 but is refused by `Path.GetPathRoot`. */
  lemma LeadingInvalidCharRefusedByPathRoot(isInclude: bool)
    ensures IndexOfInvalid("<a") == 0
    ensures NormalizePattern(Some(Rule(isInclude, "<a"))) == Err(Argument)
  {
    assert IsInvalidPathChar("<a"[0]);
  }

  /** A validated pattern is relative: it never starts with a separator. */
  lemma NormalizedIsRelative(filter: Option<Rule>)
    requires NormalizePattern(filter).Ok?
    ensures var p := NormalizePattern(filter).value.pattern; |p| == 0 || p[0] != Sep
    ensures AltSep !in NormalizePattern(filter).value.pattern
  {
    var pattern := filter.value.pattern;
    var p := NormalizePattern(filter).value.pattern;
    if |pattern| > 0 && IsDirSep(pattern[0]) && |p| > 0 {
      assert |pattern| >= 2 && p[0] == (if pattern[1] == AltSep then Sep else pattern[1]);
    }
  }

  /** The tests' rooted patterns are refused: `d:`, `C:\Pouf`, a UNC share and a device path. */
  lemma RootedPatternsRefused(isInclude: bool)
    ensures NormalizePattern(Some(Rule(isInclude, "d:"))) == Err(Argument)
    ensures NormalizePattern(Some(Rule(isInclude, "C:\\Pouf"))) == Err(Argument)
    ensures NormalizePattern(Some(Rule(isInclude, "\\\\server\\share"))) == Err(Argument)
    ensures NormalizePattern(Some(Rule(isInclude, "\\\\?\\C:\\Pouf"))) == Err(Argument)
  {
    assert HasLongRoot("d:") && HasLongRoot("C:\\Pouf");
    assert HasLongRoot("\\\\server\\share") && HasLongRoot("\\\\?\\C:\\Pouf");
  }

  /** A lone separator passes validation and leaves an empty pattern, whose matcher cannot be built. */
  lemma LoneSeparatorLeavesEmptyPattern(isInclude: bool, fileName: string)
    ensures NormalizePattern(Some(Rule(isInclude, [Sep]))) == Ok(Rule(isInclude, []))
    ensures Accepts(NormalizePattern(Some(Rule(isInclude, [Sep]))).value.pattern, fileName) == Err(IndexOutOfRange)
  {
    assert !IsWhiteSpace([Sep][0]);
    assert IndexOfInvalid([Sep]) == -1 by {
      assert !IsInvalidPathChar([Sep][0]);
    }
  }

  // ---------------------------------------------------------------------
  // The root directory.
  // ---------------------------------------------------------------------

  /**
   * The `Root` setter's normalisation: blank means no root; otherwise '/'
   * becomes '\', a trailing '\' is ensured and one leading '\' removed, a
   * lone '\' meaning no root.
   */
  function NormalizeRoot(value: Option<string>): (r: Option<string>)
    ensures r.None? <==> IsNullOrWhiteSpace(value) || NormalizePathSeparator(value.value, true) == [Sep]
    ensures r.Some? ==> |r.value| > 0 && r.value[|r.value| - 1] == Sep && AltSep !in r.value
  {
    if IsNullOrWhiteSpace(value) then Option.None
    else
      var n := NormalizePathSeparator(value.value, true);
      if n[0] == Sep then (if |n| == 1 then Option.None else Some(n[1..]))
      else Some(n)
  }

  /** The root drops exactly the one leading separator of the normalised value. */
  lemma NormalizeRootDropsOneSeparator(value: Option<string>)
    requires NormalizeRoot(value).Some?
    ensures var n := NormalizePathSeparator(value.value, true);
            NormalizeRoot(value).value == if n[0] == Sep then n[1..] else n
  {
  }

  /** A valid root: a non-empty directory path ending with a separator, without '/'. */
  predicate ValidRoot(root: Option<string>) {
    root.Some? ==> |root.value| > 0 && root.value[|root.value| - 1] == Sep && AltSep !in root.value
  }

  // ---------------------------------------------------------------------
  // The decision.
  // ---------------------------------------------------------------------

  /**
   * `FilePathMatch` on values: without root the rules see the path as it is;
   * with a root, paths outside it are `None` and the others are seen
   * relative to it.
   */
  function Decide(root: Option<string>, rules: seq<Rule>, fileName: string): (r: Result<FilterMatchResult>)
    ensures r != Ok(FilterMatchResult.None) ==> root.None? || StartsWithIgnoreCase(fileName, root.value)
    ensures rules == [] ==> r == Ok(FilterMatchResult.None)
  {
    if root.None? then Evaluate(rules, fileName)
    else if !StartsWithIgnoreCase(fileName, root.value) then Ok(FilterMatchResult.None)
    else Evaluate(rules, fileName[|root.value|..])
  }

  /** Inside the root (spelt in any case), the rules decide on the rest of the path. */
  lemma DecideUnderRoot(root: string, spelt: string, rules: seq<Rule>, rest: string)
    requires EqualsIgnoreCase(spelt, root)
    ensures Decide(Some(root), rules, spelt + rest) == Evaluate(rules, rest)
  {
    var p := spelt + rest;
    assert StartsWithIgnoreCase(p, root) by {
      forall i | 0 <= i < |root| ensures EqIgnoreCase(p[i], root[i]) {
        assert p[i] == spelt[i];
      }
    }
    assert p[|root|..] == rest;
  }

  /** Outside the root the rules are not consulted: every rule list gives `None`. */
  lemma DecideOutsideRoot(root: string, rules: seq<Rule>, fileName: string)
    requires !StartsWithIgnoreCase(fileName, root)
    ensures Decide(Some(root), rules, fileName) == Ok(FilterMatchResult.None)
    ensures Decide(Some(root), rules, fileName) == Decide(Some(root), [], fileName)
  {
  }

  /** A path shorter than the root is outside it. */
  lemma ShorterThanRootIsOutside(root: string, rules: seq<Rule>, fileName: string)
    requires |fileName| < |root|
    ensures Decide(Some(root), rules, fileName) == Ok(FilterMatchResult.None)
  {
  }

  // ---------------------------------------------------------------------
  // The filter object.
  // ---------------------------------------------------------------------

  class FileNameFilter {
    /** `Root`: `None`, or a directory path ending with '\'. */
    var root: Option<string>
    /** `Filters`: the rule list, whose insertions go through `NormalizePattern`. */
    const filters: PathFilterList

    ghost predicate Valid()
      reads this, filters, filters.items
    {
      filters.Valid() && ValidRoot(root)
    }

    /** An empty filter without root. */
    constructor ()
      ensures root.None? && fresh(filters) && filters.items == []
      ensures Valid()
    {
      root := Option.None;
      filters := new PathFilterList();
    }

    /**
     * Adding to `Filters`: the filter goes through `NormalizePattern`; on
     * success a new filter with the normalised pattern is appended, on
     * failure the list is left as it was.
     */
    method AddFilter(filter: Option<PathFilter>) returns (r: Result<PathFilter>)
      requires Valid()
      requires filter.Some? ==> filter.value.Valid()
      modifies filters
      ensures r.Err? ==> filters.items == old(filters.items) && filters.Rules() == old(filters.Rules())
      ensures r.Err? ==> NormalizePattern(old(RuleOf(filter))) == Err(r.error)
      ensures r.Ok? ==> fresh(r.value) && filters.items == old(filters.items) + [r.value]
      ensures r.Ok? ==> NormalizePattern(old(RuleOf(filter))) == Ok(Rule(r.value.isInclude, r.value.path))
      ensures r.Ok? ==> filters.Rules() == old(filters.Rules()) + [NormalizePattern(old(RuleOf(filter))).value]
      ensures root == old(root)
      ensures Valid()
    {
      var n := NormalizePattern(RuleOf(filter));
      if n.Err? {
        return Err(n.error);
      }
      var pattern := n.value.pattern;
      NormalizedKeepsSeparators(filter);
      var f := new PathFilter.WithPattern(n.value.isInclude, Some(pattern));
      filters.Add(f);
      return Ok(f);
    }

    /** `Root` assignment. */
    method SetRoot(value: Option<string>)
      requires Valid()
      modifies this
      ensures root == NormalizeRoot(value)
      ensures Valid()
    {
      root := NormalizeRoot(value);
    }

    /** `FilePathMatch`: the decision of the rules, confined to the root. */
    method FilePathMatch(fileName: string) returns (r: Result<FilterMatchResult>)
      requires Valid()
      modifies filters.items
      ensures r == Decide(root, old(filters.Rules()), fileName)
      ensures filters.items == old(filters.items) && filters.Rules() == old(filters.Rules())
      ensures forall f :: f in filters.items ==> f.isInclude == old(f.isInclude) && f.path == old(f.path)
      ensures Valid()
    {
      if root.None? {
        r := filters.FilePathMatch(fileName);
        return;
      }
      if !StartsWithIgnoreCase(fileName, root.value) {
        return Ok(FilterMatchResult.None);
      }
      r := filters.FilePathMatch(fileName[|root.value|..]);
    }

    /** `Clear`: removes every filter and keeps the root. */
    method Clear()
      requires Valid()
      modifies filters
      ensures filters.items == [] && filters.Rules() == []
      ensures root == old(root)
      ensures Valid()
    {
      filters.Clear();
    }
  }

  /**
   * Editing a filter the list holds, through its `Path` and `Include`
   * setters: every place the list holds that filter now decides with the
   * new pattern and flag, and the next match sees them.
   */
  method EditHeldFilter(g: FileNameFilter, i: int, isInclude: bool, pattern: Option<string>, fileName: string)
      returns (r: Result<FilterMatchResult>)
    requires g.Valid() && 0 <= i < |g.filters.items|
    modifies g.filters.items
    ensures g.filters.items == old(g.filters.items) && g.root == old(g.root)
    ensures forall k :: 0 <= k < |g.filters.items| ==>
      g.filters.Rules()[k] == if g.filters.items[k] == old(g.filters.items[i])
                              then Rule(isInclude, NormalizePathSeparator(if pattern.Some? then pattern.value else [], false))
                              else old(g.filters.Rules()[k])
    ensures r == Decide(g.root, g.filters.Rules(), fileName)
    ensures g.Valid()
  {
    var f := g.filters.items[i];
    f.SetPathAndInclude(pattern, isInclude);
    assert forall k :: 0 <= k < |g.filters.items| ==> g.filters.items[k] == f || unchanged(g.filters.items[k]);
    r := g.FilePathMatch(fileName);
  }

  /** The rule a filter object stands for; a missing filter stays missing. */
  function RuleOf(filter: Option<PathFilter>): Option<Rule>
    reads if filter.Some? then {filter.value} else {}
  {
    if filter.None? then Option.None else Some(Rule(filter.value.isInclude, filter.value.path))
  }

  /** A validated pattern is already separator-normalised, so the `PathFilter` constructor keeps it. */
  lemma NormalizedKeepsSeparators(filter: Option<PathFilter>)
    requires NormalizePattern(RuleOf(filter)).Ok?
    ensures var p := NormalizePattern(RuleOf(filter)).value.pattern; NormalizePathSeparator(p, false) == p
  {
    var pattern := RuleOf(filter).value.pattern;
    if |pattern| > 0 && IsDirSep(pattern[0]) {
      NormalizePathSeparatorIdempotent(pattern[1..], false);
    } else {
      NormalizePathSeparatorIdempotent(pattern, false);
    }
  }
}
