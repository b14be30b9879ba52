/**
 * CK's PathFilterList: an ordered list of include/exclude patterns where the
 * first pattern that accepts a path decides.
 *
 * The decision is specified on values first (`Rule`, `Evaluate`) and the
 * list object, whose filters compile their matcher on first use, is proved
 * to compute it.
 */
module PathFilterLists {
  import opened Common
  import opened PathFilters

  /** Tri-state answer of a rule list. */
  datatype FilterMatchResult = None | Included | Excluded

  /** What a `PathFilter` contributes to a decision: its flag and its pattern. */
  datatype Rule = Rule(isInclude: bool, pattern: string)

  /** The answer of a rule that accepts the path. */
  function Verdict(isInclude: bool): (v: FilterMatchResult)
    ensures v != FilterMatchResult.None
    ensures v == Included <==> isInclude
  {
    if isInclude then Included else Excluded
  }

  /**
   * First match wins: the rules are tried in order; the first one whose
   * pattern accepts the path decides; a pattern that cannot be compiled
   * stops the scan with its error; no accepting rule gives `None`.
   */
  function Evaluate(rules: seq<Rule>, fileName: string): (r: Result<FilterMatchResult>)
    ensures r.Ok? && r.value != FilterMatchResult.None ==> exists k :: 0 <= k < |rules| && Verdict(rules[k].isInclude) == r.value
    decreases |rules|
  {
    if |rules| == 0 then Ok(FilterMatchResult.None)
    else match Accepts(rules[0].pattern, fileName)
      case Err(e) => Err(e)
      case Ok(true) => Ok(Verdict(rules[0].isInclude))
      case Ok(false) => Evaluate(rules[1..], fileName)
  }

  /** No rule before index `i` accepts the path (and none fails). */
  predicate RejectedBefore(rules: seq<Rule>, fileName: string, i: int)
    requires 0 <= i <= |rules|
  {
    forall j :: 0 <= j < i ==> Accepts(rules[j].pattern, fileName) == Ok(false)
  }

  /** Rules that all reject the path can be skipped. */
  lemma {:induction false} EvaluateSkipsRejecting(rules: seq<Rule>, fileName: string, i: int)
    requires 0 <= i <= |rules| && RejectedBefore(rules, fileName, i)
    ensures Evaluate(rules, fileName) == Evaluate(rules[i..], fileName)
    decreases i
  {
    if i > 0 {
      assert RejectedBefore(rules[1..], fileName, i - 1) by {
        forall j | 0 <= j < i - 1 ensures Accepts(rules[1..][j].pattern, fileName) == Ok(false) {
          assert rules[1..][j] == rules[j + 1];
        }
      }
      EvaluateSkipsRejecting(rules[1..], fileName, i - 1);
      assert rules[1..][i - 1..] == rules[i..];
    }
  }

  /** The list decides `v` exactly when some rule accepts, every earlier rule rejects, and that rule's flag gives `v`. */
  lemma EvaluateFirstMatch(rules: seq<Rule>, fileName: string, v: FilterMatchResult)
    requires v != FilterMatchResult.None
    ensures Evaluate(rules, fileName) == Ok(v)
        <==> exists i :: 0 <= i < |rules| && RejectedBefore(rules, fileName, i)
                         && Accepts(rules[i].pattern, fileName) == Ok(true) && Verdict(rules[i].isInclude) == v
  {
    if Evaluate(rules, fileName) == Ok(v) {
      var i := FirstDecider(rules, fileName);
      EvaluateSkipsRejecting(rules, fileName, i);
      assert rules[i..][0] == rules[i];
    }
    if exists i :: 0 <= i < |rules| && RejectedBefore(rules, fileName, i)
                   && Accepts(rules[i].pattern, fileName) == Ok(true) && Verdict(rules[i].isInclude) == v {
      var i :| 0 <= i < |rules| && RejectedBefore(rules, fileName, i)
               && Accepts(rules[i].pattern, fileName) == Ok(true) && Verdict(rules[i].isInclude) == v;
      EvaluateSkipsRejecting(rules, fileName, i);
      assert rules[i..][0] == rules[i];
    }
  }

  /** The length of the longest prefix of rules that all reject the path. */
  function FirstDecider(rules: seq<Rule>, fileName: string): (i: int)
    ensures 0 <= i <= |rules| && RejectedBefore(rules, fileName, i)
    ensures i < |rules| ==> Accepts(rules[i].pattern, fileName) != Ok(false)
    decreases |rules|
  {
    if |rules| == 0 || Accepts(rules[0].pattern, fileName) != Ok(false) then 0
    else
      var k := FirstDecider(rules[1..], fileName);
      assert forall j :: 1 <= j < k + 1 ==> rules[j] == rules[1..][j - 1];
      k + 1
  }

  /** `None` exactly when every rule rejects the path; in particular the empty list gives `None`. */
  lemma EvaluateNone(rules: seq<Rule>, fileName: string)
    ensures Evaluate(rules, fileName) == Ok(FilterMatchResult.None) <==> RejectedBefore(rules, fileName, |rules|)
  {
    var i := FirstDecider(rules, fileName);
    EvaluateSkipsRejecting(rules, fileName, i);
    if i < |rules| {
      assert rules[i..][0] == rules[i];
    } else {
      assert rules[i..] == [];
    }
  }

  /** A failure is the error of the first rule that does not reject the path. */
  lemma EvaluateError(rules: seq<Rule>, fileName: string)
    ensures Evaluate(rules, fileName).Err?
        <==> exists i :: 0 <= i < |rules| && RejectedBefore(rules, fileName, i) && Accepts(rules[i].pattern, fileName).Err?
  {
    var i := FirstDecider(rules, fileName);
    EvaluateSkipsRejecting(rules, fileName, i);
    if i < |rules| {
      assert rules[i..][0] == rules[i];
    } else {
      assert rules[i..] == [];
    }
    if exists j :: 0 <= j < |rules| && RejectedBefore(rules, fileName, j) && Accepts(rules[j].pattern, fileName).Err? {
      var j :| 0 <= j < |rules| && RejectedBefore(rules, fileName, j) && Accepts(rules[j].pattern, fileName).Err?;
      assert !(j < i) && !(i < j);
    }
  }

  /** Order matters: with two rules that both accept the path, the first one's flag decides. */
  lemma OrderDecides(first: Rule, second: Rule, fileName: string)
    requires Accepts(first.pattern, fileName) == Ok(true)
    requires Accepts(second.pattern, fileName) == Ok(true)
    ensures Evaluate([first, second], fileName) == Ok(Verdict(first.isInclude))
    ensures Evaluate([second, first], fileName) == Ok(Verdict(second.isInclude))
  {
  }

  /** A later rule only matters for paths every earlier rule rejects. */
  lemma EvaluateAppend(rules: seq<Rule>, rule: Rule, fileName: string)
    ensures Evaluate(rules + [rule], fileName)
         == if RejectedBefore(rules, fileName, |rules|) then Evaluate([rule], fileName) else Evaluate(rules, fileName)
  {
    var all := rules + [rule];
    var i := FirstDecider(rules, fileName);
    assert RejectedBefore(all, fileName, i) by {
      assert forall j :: 0 <= j < i ==> all[j] == rules[j];
    }
    EvaluateSkipsRejecting(all, fileName, i);
    EvaluateSkipsRejecting(rules, fileName, i);
    if i < |rules| {
      assert all[i..][0] == rules[i..][0];
    } else {
      assert all[i..] == [rule] && rules[i..] == [];
    }
  }

  // ---------------------------------------------------------------------
  // The test scenario: `c:\essai1\*.txt` against `c:\essai1\essai1.txt`.
  // ---------------------------------------------------------------------

  const EssaiDir: string := "c:\\essai1\\"
  const EssaiFile: string := "c:\\essai1\\essai1.txt"

  /** `c:\essai1\*.txt` accepts `c:\essai1\essai1.txt`. */
  lemma StarPatternAcceptsEssai()
    ensures Accepts(EssaiDir + Star + ".txt", EssaiFile) == Ok(true)
  {
    CompileStar(EssaiDir, ".txt");
    EssaiMatchesStar();
  }

  lemma EssaiMatchesStar()
    ensures Match(Literals(EssaiDir) + [Segment] + Literals(".txt"), EssaiFile)
  {
    MatchAroundSegment(EssaiDir, ".txt", EssaiFile);
    var p := EssaiFile;
    assert p[..|EssaiDir|] == EssaiDir;
    assert p[|EssaiDir|..|p| - 4] == "essai1";
    assert p[|p| - 4..] == ".txt";
  }

  /** `c:\essai1\essai1.txt` accepts itself. */
  lemma PlainPatternAcceptsEssai()
    ensures Accepts(EssaiFile, EssaiFile) == Ok(true)
  {
    PlainPatternMatch(EssaiFile, EssaiFile);
  }

  /** Include `*.txt` then exclude `essai1.txt` includes the file; the reverse order excludes it. */
  lemma OrderFlipsEssai()
    ensures Evaluate([Rule(true, EssaiDir + Star + ".txt"), Rule(false, EssaiFile)], EssaiFile) == Ok(Included)
    ensures Evaluate([Rule(false, EssaiFile), Rule(true, EssaiDir + Star + ".txt")], EssaiFile) == Ok(Excluded)
  {
    StarPatternAcceptsEssai();
    PlainPatternAcceptsEssai();
    OrderDecides(Rule(true, EssaiDir + Star + ".txt"), Rule(false, EssaiFile), EssaiFile);
  }

  const EssaiDeepFile: string := "c:\\essai1\\essai2\\essai3.txt"

  /** `c:\essai1\**\essai1.txt` accepts `c:\essai1\essai1.txt` (an empty run) but not `c:\essai1\essai2\essai3.txt`. */
  lemma RecursiveDirPatternOnEssai()
    ensures Accepts(EssaiDir + RecursiveDir + "essai1.txt", EssaiFile) == Ok(true)
    ensures Accepts(EssaiDir + RecursiveDir + "essai1.txt", EssaiDeepFile) == Ok(false)
  {
    CompileRecursiveDir(EssaiDir, "essai1.txt");
    EssaiMatchesRecursiveDir();
    DeepFileMissesRecursiveDir();
  }

  lemma EssaiMatchesRecursiveDir()
    ensures Match(Literals(EssaiDir) + [AnyRun] + Literals("essai1.txt"), EssaiFile)
  {
    assert EssaiFile == EssaiDir + [] + "essai1.txt";
    MatchAroundAnyRunConcat(EssaiDir, [], "essai1.txt");
  }

  lemma DeepFileMissesRecursiveDir()
    ensures !Match(Literals(EssaiDir) + [AnyRun] + Literals("essai1.txt"), EssaiDeepFile)
  {
    MatchAroundAnyRun(EssaiDir, "essai1.txt", EssaiDeepFile);
    var q := EssaiDeepFile;
    assert q[|q| - 10..][5] == '3';
    assert !EqIgnoreCase(q[|q| - 10..][5], "essai1.txt"[5]);
  }

  /** `c:\essai1\**.txt` accepts `c:\essai1\essai2\essai3.txt`, separators included in the run. */
  lemma RecursivePatternOnEssai()
    ensures Accepts(EssaiDir + Recursive + ".txt", EssaiDeepFile) == Ok(true)
  {
    CompileRecursive(EssaiDir, ".txt");
    DeepFileMatchesRecursive();
  }

  lemma DeepFileMatchesRecursive()
    ensures Match(Literals(EssaiDir) + [AnyRun] + Literals(".txt"), EssaiDeepFile)
  {
    var m := "essai2\\essai3";
    assert EssaiDeepFile == EssaiDir + m + ".txt";
    assert NoNewline(m);
    MatchAroundAnyRunConcat(EssaiDir, m, ".txt");
  }

  /** Exclude `**\essai1.txt` then include `**.txt`: the shallow `essai1.txt` is excluded, a deeper file included. */
  lemma RecursiveOrderOnEssai()
    ensures var rules := [Rule(false, EssaiDir + RecursiveDir + "essai1.txt"), Rule(true, EssaiDir + Recursive + ".txt")];
            && Evaluate(rules, EssaiFile) == Ok(Excluded)
            && Evaluate(rules, EssaiDeepFile) == Ok(Included)
  {
    RecursiveDirPatternOnEssai();
    RecursivePatternOnEssai();
    var rules := [Rule(false, EssaiDir + RecursiveDir + "essai1.txt"), Rule(true, EssaiDir + Recursive + ".txt")];
    assert rules[1..] == [rules[1]] && rules[1..][1..] == [];
  }

  const EssaiQuestion: string := "c:\\essai" + Question + "\\essai1.txt"

  /** `c:\essai?\essai1.txt` accepts `c:\essai1\essai1.txt` but not `c:\essai12\essai1.txt`: `?` stands for exactly one character. */
  lemma QuestionPatternOnEssai()
    ensures Accepts(EssaiQuestion, EssaiFile) == Ok(true)
    ensures Accepts(EssaiQuestion, "c:\\essai12\\essai1.txt") == Ok(false)
  {
    CompileQuestion("c:\\essai", "\\essai1.txt");
    EssaiMatchesQuestion();
    LongerMissesQuestion();
  }

  lemma EssaiMatchesQuestion()
    ensures Match(Literals("c:\\essai") + [AnyChar] + Literals("\\essai1.txt"), EssaiFile)
  {
    assert EssaiFile == "c:\\essai" + ['1'] + "\\essai1.txt";
    MatchAroundAnyCharConcat("c:\\essai", '1', "\\essai1.txt");
  }

  lemma LongerMissesQuestion()
    ensures !Match(Literals("c:\\essai") + [AnyChar] + Literals("\\essai1.txt"), "c:\\essai12\\essai1.txt")
  {
    MatchAroundAnyChar("c:\\essai", "\\essai1.txt", "c:\\essai12\\essai1.txt");
  }

  // ---------------------------------------------------------------------
  // The list object.
  // ---------------------------------------------------------------------

  class PathFilterList {
    /** The filters, in order; the list holds the filters themselves, so later changes to them count. */
    var items: seq<PathFilter>

    /** What each filter decides with now: its current flag and pattern. */
    ghost function Rules(): (r: seq<Rule>)
      reads this, items
      ensures |r| == |items|
      ensures forall k :: 0 <= k < |items| ==> r[k] == Rule(items[k].isInclude, items[k].path)
    {
      seq(|items|, k reads this, items requires 0 <= k < |items| => Rule(items[k].isInclude, items[k].path))
    }

    ghost predicate Valid()
      reads this, items
    {
      forall k :: 0 <= k < |items| ==> items[k].Valid()
    }

    /** An empty list, without a normaliser. */
    constructor ()
      ensures items == []
      ensures Valid()
    {
      items := [];
    }

    /** `Add`: the filter goes at the end, as it is. */
    method Add(f: PathFilter)
      requires Valid() && f.Valid()
      modifies this
      ensures items == old(items) + [f]
      ensures Rules() == old(Rules()) + [Rule(f.isInclude, f.path)]
      ensures Valid()
    {
      items := items + [f];
    }

    /** `Clear`: the list becomes empty. */
    method Clear()
      modifies this
      ensures items == [] && Rules() == []
      ensures Valid()
    {
      items := [];
    }

    /** Runs the matcher of the filter at index `i`, compiling it if needed. */
    method MatchAt(i: int, fileName: string) returns (m: Result<bool>)
      requires Valid() && 0 <= i < |items|
      modifies items[i]
      ensures m == Accepts(old(Rules())[i].pattern, fileName)
      ensures items == old(items) && Rules() == old(Rules())
      ensures Valid()
    {
      var f := items[i];
      label before:
      m := f.IsMatch(fileName);
      assert forall k :: 0 <= k < |items| ==> items[k] == f || unchanged@before(items[k]);
    }

    /**
     * `FilePathMatch`: the filters are tried in order and the first whose
     * matcher accepts decides. Matchers get compiled on the way; the list
     * and what its filters decide with do not change.
     */
    method FilePathMatch(fileName: string) returns (r: Result<FilterMatchResult>)
      requires Valid()
      modifies items
      ensures r == Evaluate(old(Rules()), fileName)
      ensures items == old(items) && Rules() == old(Rules())
      ensures forall f :: f in items ==> f.isInclude == old(f.isInclude) && f.path == old(f.path)
      ensures Valid()
    {
      ghost var rules := Rules();
      var i := 0;
      while i < |items|
        invariant 0 <= i <= |items|
        invariant Valid() && Rules() == rules
        invariant forall f :: f in items ==> f.isInclude == old(f.isInclude) && f.path == old(f.path)
        invariant Evaluate(rules, fileName) == Evaluate(rules[i..], fileName)
      {
        var m := MatchAt(i, fileName);
        assert rules[i..][0] == rules[i] && rules[i..][1..] == rules[i + 1..];
        if m.Err? {
          return Err(m.error);
        }
        if m.value {
          return Ok(Verdict(items[i].isInclude));
        }
        i := i + 1;
      }
      assert rules[i..] == [];
      return Ok(FilterMatchResult.None);
    }
  }
}
