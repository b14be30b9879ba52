/**
 * CK's PathFilter: an include or exclude flag with a wildcard pattern, and the
 * translation of that pattern into an anchored, case-insensitive matcher.
 *
 * The source escapes the pattern with `Regex.Escape`, rewrites the escaped
 * wildcards with a chain of four `String.Replace` calls and hands the result
 * to the .NET regular-expression engine. The model keeps the chain: the
 * pattern becomes a sequence of literal tokens, one per character, and each
 * `Replace` becomes one left-to-right, non-overlapping pass that turns a run
 * of literal tokens into a wildcard token:
 *
 *   `**\` -> AnyRun (`.*`), `**` -> AnyRun (`.*`),
 *   `*`   -> Segment (`[^\\]*(\\)?`), `?` -> AnyChar (`.`).
 *
 * Working on one token per character is the same as working on the escaped
 * text: every `*`, `?` and `\` is escaped into a two-character unit starting
 * with `\`, so an occurrence of `\*` or `\?` in the escaped text can only
 * start at a unit boundary, and the text a pass inserts never forms a new
 * occurrence for a later pass.
 */
module PathFilters {
  import opened Common

  /** One element of a compiled pattern. */
  datatype Token =
    | Lit(c: char)   // the character itself, ignoring case
    | AnyChar        // `.`: one character other than a newline
    | AnyRun         // `.*`: any run of characters without a newline
    | Segment        // `[^\\]*(\\)?`: a run without separator, then maybe one separator

  /** The pattern before any rewriting: one literal per character. */
  function Literals(w: string): (t: seq<Token>)
    ensures |t| == |w|
    ensures forall i {:trigger t[i]} :: 0 <= i < |w| ==> t[i] == Lit(w[i])
  {
    seq(|w|, i requires 0 <= i < |w| => Lit(w[i]))
  }

  /** `t` starts with the literal tokens of `pat`. */
  predicate StartsWithLits(t: seq<Token>, pat: string) {
    |pat| <= |t| && forall i :: 0 <= i < |pat| ==> t[i] == Lit(pat[i])
  }

  /**
   * `String.Replace` on the token sequence: scanning from the left, every run
   * of literals spelling `pat` becomes `repl`, and scanning resumes after it.
   */
  function ReplaceLits(t: seq<Token>, pat: string, repl: Token): seq<Token>
    requires |pat| > 0
    decreases |t|
  {
    if |t| == 0 then []
    else if StartsWithLits(t, pat) then [repl] + ReplaceLits(t[|pat|..], pat, repl)
    else [t[0]] + ReplaceLits(t[1..], pat, repl)
  }

  const RecursiveDir: string := "**\\"
  const Recursive: string := "**"
  const Star: string := "*"
  const Question: string := "?"

  /**
   * `WildcardToRegex`: a pattern ending with a separator gets `**` appended;
   * the empty pattern fails on the index of its last character.
   */
  function Compile(wildcard: string): (r: Result<seq<Token>>)
    ensures r.Err? <==> |wildcard| == 0
    ensures r.Err? ==> r.error == IndexOutOfRange
  {
    if |wildcard| == 0 then Err(IndexOutOfRange) else Ok(Rewrite(Literals(Expand(wildcard))))
  }

  /** A pattern ending with a separator gets `**` appended. */
  function Expand(wildcard: string): string
    requires |wildcard| > 0
  {
    if wildcard[|wildcard| - 1] == Sep then wildcard + Recursive else wildcard
  }

  /** The four `Replace` passes, in the source's order. */
  function Rewrite(t: seq<Token>): seq<Token> {
    ReplaceLits(ReplaceLits(ReplaceLits(ReplaceLits(t, RecursiveDir, AnyRun), Recursive, AnyRun), Star, Segment), Question, AnyChar)
  }

  /** The compiled pattern accepts the whole of `p` (the regex is anchored by `^` and `$`). */
  predicate Match(t: seq<Token>, p: string)
    decreases |t|, |p|
  {
    if |t| == 0 then |p| == 0
    else match t[0]
      case Lit(c) => |p| > 0 && EqIgnoreCase(p[0], c) && Match(t[1..], p[1..])
      case AnyChar => |p| > 0 && p[0] != '\n' && Match(t[1..], p[1..])
      case AnyRun => Match(t[1..], p) || (|p| > 0 && p[0] != '\n' && Match(t, p[1..]))
      case Segment =>
        Match(t[1..], p)
        || (|p| > 0 && p[0] == Sep && Match(t[1..], p[1..]))
        || (|p| > 0 && p[0] != Sep && Match(t, p[1..]))
  }

  /**
   * The regex's closing `$`: without `RegexOptions.Multiline` it holds at the
   * end of the text and also just before a final `\n`.
   */
  predicate MatchToEnd(t: seq<Token>, p: string) {
    Match(t, p) || (|p| > 0 && p[|p| - 1] == '\n' && Match(t, p[..|p| - 1]))
  }

  /** Whether the pattern accepts `fileName`; fails when the pattern is empty. */
  function Accepts(pattern: string, fileName: string): (r: Result<bool>)
    ensures r.Err? <==> |pattern| == 0
  {
    match Compile(pattern)
    case Ok(t) => Ok(MatchToEnd(t, fileName))
    case Err(e) => Err(e)
  }

  /** A path without a final newline is accepted exactly when the tokens match all of it. */
  lemma AcceptsWithoutFinalNewline(pattern: string, fileName: string)
    requires |pattern| > 0
    requires |fileName| == 0 || fileName[|fileName| - 1] != '\n'
    ensures Accepts(pattern, fileName) == Ok(Match(Compile(pattern).value, fileName))
  {
  }

  /** One final `\n` after an accepted path is accepted too; a second one is not, for a plain pattern. */
  lemma FinalNewlineAccepted()
    ensures !Match(Literals("a"), "a\n")
    ensures Accepts("a", "a\n") == Ok(true)
    ensures Accepts("a", "a\n\n") == Ok(false)
  {
    CompilePlain("a");
    MatchLiterals("a", "a\n");
    MatchLiterals("a", "a");
    MatchLiterals("a", "a\n\n");
    MatchLiterals("a", "a\n\n"[..2]);
    assert "a\n"[..1] == "a";
  }

  // ---------------------------------------------------------------------
  // What the tokens match, stated without recursion.
  // ---------------------------------------------------------------------

  predicate NoNewline(s: string) {
    forall i :: 0 <= i < |s| ==> s[i] != '\n'
  }

  predicate NoSeparator(s: string) {
    forall i :: 0 <= i < |s| ==> s[i] != Sep
  }

  /** `AnyRun` consumes any newline-free prefix of the path. */
  lemma {:induction false} MatchAnyRun(rest: seq<Token>, p: string)
    ensures Match([AnyRun] + rest, p)
        <==> exists k :: 0 <= k <= |p| && NoNewline(p[..k]) && Match(rest, p[k..])
    decreases |p|
  {
    var t := [AnyRun] + rest;
    assert t[1..] == rest;
    if Match(t, p) {
      if Match(rest, p) {
        assert p[..0] == [] && p[0..] == p;
      } else {
        MatchAnyRun(rest, p[1..]);
        var k :| 0 <= k <= |p[1..]| && NoNewline(p[1..][..k]) && Match(rest, p[1..][k..]);
        assert p[k + 1..] == p[1..][k..];
        assert p[..k + 1] == [p[0]] + p[1..][..k];
      }
    }
    if exists k :: 0 <= k <= |p| && NoNewline(p[..k]) && Match(rest, p[k..]) {
      var k :| 0 <= k <= |p| && NoNewline(p[..k]) && Match(rest, p[k..]);
      if k == 0 {
        assert p[k..] == p;
      } else {
        assert p[0] == p[..k][0];
        assert p[1..][..k - 1] == p[1..k] && p[1..][k - 1..] == p[k..];
        MatchAnyRun(rest, p[1..]);
      }
    }
  }

  /** The path part a `Segment` takes: no separator, then at most one. */
  predicate SegmentSplit(rest: seq<Token>, p: string, k: int)
    requires 0 <= k <= |p|
  {
    NoSeparator(p[..k]) && (Match(rest, p[k..]) || (k < |p| && p[k] == Sep && Match(rest, p[k + 1..])))
  }

  /** `Segment` consumes a separator-free prefix of the path, optionally followed by one separator. */
  lemma {:induction false} MatchSegment(rest: seq<Token>, p: string)
    ensures Match([Segment] + rest, p) <==> exists k :: 0 <= k <= |p| && SegmentSplit(rest, p, k)
    decreases |p|
  {
    var t := [Segment] + rest;
    assert t[1..] == rest;
    if Match(t, p) {
      if Match(rest, p) || (|p| > 0 && p[0] == Sep && Match(rest, p[1..])) {
        assert p[..0] == [] && p[0..] == p;
        assert SegmentSplit(rest, p, 0);
      } else {
        MatchSegment(rest, p[1..]);
        var k :| 0 <= k <= |p[1..]| && SegmentSplit(rest, p[1..], k);
        assert p[k + 1..] == p[1..][k..];
        assert k < |p[1..]| ==> p[k + 1] == p[1..][k] && p[k + 2..] == p[1..][k + 1..];
        assert p[..k + 1] == [p[0]] + p[1..][..k];
        assert SegmentSplit(rest, p, k + 1);
      }
    }
    if exists k :: 0 <= k <= |p| && SegmentSplit(rest, p, k) {
      var k :| 0 <= k <= |p| && SegmentSplit(rest, p, k);
      if k == 0 {
        assert p[k..] == p;
      } else {
        assert p[0] == p[..k][0];
        assert p[1..][..k - 1] == p[1..k] && p[1..][k - 1..] == p[k..];
        assert k < |p| ==> p[1..][k - 1] == p[k] && p[1..][k..] == p[k + 1..];
        assert SegmentSplit(rest, p[1..], k - 1);
        MatchSegment(rest, p[1..]);
      }
    }
  }

  /** Matching ignores case: paths equal up to case are accepted alike. */
  lemma {:induction false} MatchIgnoresCase(t: seq<Token>, p: string, q: string)
    requires |p| == |q| && forall i :: 0 <= i < |p| ==> EqIgnoreCase(p[i], q[i])
    ensures Match(t, p) <==> Match(t, q)
    decreases |t|, |p|
  {
    if |t| > 0 && |p| > 0 {
      assert p[0] == '\n' <==> q[0] == '\n';
      assert p[0] == Sep <==> q[0] == Sep;
      MatchIgnoresCase(t[1..], p[1..], q[1..]);
      match t[0]
      case AnyRun =>
        MatchIgnoresCase(t[1..], p, q);
        MatchIgnoresCase(t, p[1..], q[1..]);
      case Segment =>
        MatchIgnoresCase(t[1..], p, q);
        MatchIgnoresCase(t, p[1..], q[1..]);
      case _ =>
    }
  }

  // ---------------------------------------------------------------------
  // What the rewriting leaves.
  // ---------------------------------------------------------------------

  /** A pass leaves no literal it was asked to replace by a single character. */
  lemma {:induction false} ReplaceRemovesChar(t: seq<Token>, c: char, repl: Token)
    requires repl != Lit(c)
    ensures Lit(c) !in ReplaceLits(t, [c], repl)
    decreases |t|
  {
    if |t| > 0 {
      ReplaceRemovesChar(t[1..], c, repl);
    }
  }

  /** A pass introduces no token other than its replacement. */
  lemma {:induction false} ReplaceKeepsAbsent(t: seq<Token>, pat: string, repl: Token, x: Token)
    requires |pat| > 0 && x !in t && x != repl
    ensures x !in ReplaceLits(t, pat, repl)
    decreases |t|
  {
    if |t| > 0 {
      if StartsWithLits(t, pat) {
        assert forall y :: y in t[|pat|..] ==> y in t;
        ReplaceKeepsAbsent(t[|pat|..], pat, repl, x);
      } else {
        assert forall y :: y in t[1..] ==> y in t;
        ReplaceKeepsAbsent(t[1..], pat, repl, x);
      }
    }
  }

  /** A pass changes nothing when the first character of its pattern never occurs. */
  lemma {:induction false} ReplaceWithoutOccurrence(t: seq<Token>, pat: string, repl: Token)
    requires |pat| > 0 && Lit(pat[0]) !in t
    ensures ReplaceLits(t, pat, repl) == t
    decreases |t|
  {
    if |t| > 0 {
      assert !StartsWithLits(t, pat);
      assert forall y :: y in t[1..] ==> y in t;
      ReplaceWithoutOccurrence(t[1..], pat, repl);
      assert t == [t[0]] + t[1..];
    }
  }

  /** Every `*` and every `?` of the pattern is translated: no such literal survives. */
  lemma CompiledHasNoWildcardLiteral(wildcard: string)
    requires |wildcard| > 0
    ensures Lit('*') !in Compile(wildcard).value
    ensures Lit('?') !in Compile(wildcard).value
  {
    var t1 := ReplaceLits(Literals(Expand(wildcard)), RecursiveDir, AnyRun);
    var t2 := ReplaceLits(t1, Recursive, AnyRun);
    var t3 := ReplaceLits(t2, Star, Segment);
    assert Star == ['*'] && Question == ['?'];
    ReplaceRemovesChar(t2, '*', Segment);
    ReplaceKeepsAbsent(t3, Question, AnyChar, Lit('*'));
    ReplaceRemovesChar(t3, '?', AnyChar);
  }

  /** Text without wildcard characters. */
  predicate NoWildcard(s: string) {
    '*' !in s && '?' !in s
  }

  /** A pattern without wildcard characters that does not end with a separator. */
  predicate PlainPattern(w: string) {
    |w| > 0 && w[|w| - 1] != Sep && NoWildcard(w)
  }

  lemma LiteralsAppend(a: string, b: string)
    ensures Literals(a + b) == Literals(a) + Literals(b)
  {
  }

  lemma LiteralsWithoutWildcard(a: string)
    requires NoWildcard(a)
    ensures Lit('*') !in Literals(a) && Lit('?') !in Literals(a)
  {
    forall i | 0 <= i < |a| ensures Literals(a)[i] != Lit('*') && Literals(a)[i] != Lit('?') {
      assert a[i] in a;
    }
  }

  /** A pass goes through tokens that cannot start its pattern unchanged. */
  lemma {:induction false} ReplaceCleanPrefix(u: seq<Token>, rest: seq<Token>, pat: string, repl: Token)
    requires |pat| > 0 && Lit(pat[0]) !in u
    ensures ReplaceLits(u + rest, pat, repl) == u + ReplaceLits(rest, pat, repl)
    decreases |u|
  {
    if |u| > 0 {
      assert (u + rest)[0] == u[0] && (u + rest)[1..] == u[1..] + rest;
      assert !StartsWithLits(u + rest, pat);
      assert forall y :: y in u[1..] ==> y in u;
      ReplaceCleanPrefix(u[1..], rest, pat, repl);
      assert u == [u[0]] + u[1..];
    } else {
      assert u + rest == rest;
    }
  }

  /** A pass replaces an occurrence of its pattern at the front. */
  lemma ReplaceAtPattern(rest: seq<Token>, pat: string, repl: Token)
    requires |pat| > 0
    ensures ReplaceLits(Literals(pat) + rest, pat, repl) == [repl] + ReplaceLits(rest, pat, repl)
  {
    var t := Literals(pat) + rest;
    assert StartsWithLits(t, pat);
    assert t[|pat|..] == rest;
  }

  /** A lone `*` before wildcard-free text is left to the `*` pass by the `**` passes. */
  lemma ReplaceLoneStar(b: string, pat: string, repl: Token)
    requires NoWildcard(b) && (pat == RecursiveDir || pat == Recursive)
    ensures ReplaceLits([Lit('*')] + Literals(b), pat, repl) == [Lit('*')] + Literals(b)
  {
    var t := [Lit('*')] + Literals(b);
    LiteralsWithoutWildcard(b);
    if |b| > 0 { assert b[0] in b; }
    assert !StartsWithLits(t, pat) by {
      if |t| >= 2 { assert t[1] == Lit(b[0]); }
    }
    assert t[1..] == Literals(b);
    ReplaceWithoutOccurrence(Literals(b), pat, repl);
  }

  /** Once the two `**` passes leave no `*` and no `?` literal, the other two passes change nothing. */
  lemma CompileAfterTwoPasses(w: string, t: seq<Token>)
    requires |w| > 0 && w[|w| - 1] != Sep
    requires ReplaceLits(ReplaceLits(Literals(w), RecursiveDir, AnyRun), Recursive, AnyRun) == t
    requires Lit('*') !in t && Lit('?') !in t
    ensures Compile(w) == Ok(t)
  {
    assert Expand(w) == w;
    assert ReplaceLits(t, Star, Segment) == t by {
      ReplaceWithoutOccurrence(t, Star, Segment);
    }
    assert ReplaceLits(t, Question, AnyChar) == t by {
      ReplaceWithoutOccurrence(t, Question, AnyChar);
    }
  }

  /** The literals of two wildcard-free texts around `tok` hold no `*` and no `?` literal. */
  lemma AroundHasNoWildcardLiteral(a: string, tok: Token, b: string)
    requires NoWildcard(a) && NoWildcard(b) && tok != Lit('*') && tok != Lit('?')
    ensures Lit('*') !in Literals(a) + [tok] + Literals(b)
    ensures Lit('?') !in Literals(a) + [tok] + Literals(b)
  {
    LiteralsWithoutWildcard(a);
    LiteralsWithoutWildcard(b);
  }

  /** The `**\` pass turns the `**\` between two wildcard-free texts into `AnyRun`. */
  lemma FirstPassRecursiveDir(a: string, b: string)
    requires NoWildcard(a) && NoWildcard(b)
    ensures ReplaceLits(Literals(a + RecursiveDir + b), RecursiveDir, AnyRun) == Literals(a) + [AnyRun] + Literals(b)
  {
    LiteralsAppend(a + RecursiveDir, b);
    LiteralsAppend(a, RecursiveDir);
    assert Literals(a + RecursiveDir + b) == Literals(a) + (Literals(RecursiveDir) + Literals(b));
    LiteralsWithoutWildcard(a);
    LiteralsWithoutWildcard(b);
    ReplaceCleanPrefix(Literals(a), Literals(RecursiveDir) + Literals(b), RecursiveDir, AnyRun);
    ReplaceAtPattern(Literals(b), RecursiveDir, AnyRun);
    ReplaceWithoutOccurrence(Literals(b), RecursiveDir, AnyRun);
  }

  /** `a**\b`, with wildcard-free `a` and `b`, compiles to the literals of `a`, `AnyRun`, the literals of `b`. */
  lemma CompileRecursiveDir(a: string, b: string)
    requires NoWildcard(a) && NoWildcard(b) && |b| > 0 && b[|b| - 1] != Sep
    ensures Compile(a + RecursiveDir + b) == Ok(Literals(a) + [AnyRun] + Literals(b))
  {
    var w := a + RecursiveDir + b;
    var t := Literals(a) + [AnyRun] + Literals(b);
    assert w[|w| - 1] == b[|b| - 1];
    FirstPassRecursiveDir(a, b);
    AroundHasNoWildcardLiteral(a, AnyRun, b);
    assert ReplaceLits(t, Recursive, AnyRun) == t by {
      ReplaceWithoutOccurrence(t, Recursive, AnyRun);
    }
    CompileAfterTwoPasses(w, t);
  }

  /** The `**\` pass leaves `a**b` alone when `b` does not start with a separator. */
  lemma FirstPassRecursive(a: string, b: string)
    requires NoWildcard(a) && NoWildcard(b)
    requires |b| > 0 ==> b[0] != Sep
    ensures ReplaceLits(Literals(a + Recursive + b), RecursiveDir, AnyRun) == Literals(a + Recursive + b)
  {
    var u := Literals(Recursive) + Literals(b);
    LiteralsAppend(a + Recursive, b);
    LiteralsAppend(a, Recursive);
    assert Literals(a + Recursive + b) == Literals(a) + u;
    LiteralsWithoutWildcard(a);
    assert u == [Lit('*')] + ([Lit('*')] + Literals(b));
    assert !StartsWithLits(u, RecursiveDir) by {
      if |b| > 0 { assert u[2] == Lit(b[0]); }
    }
    assert u[1..] == [Lit('*')] + Literals(b);
    ReplaceLoneStar(b, RecursiveDir, AnyRun);
    ReplaceCleanPrefix(Literals(a), u, RecursiveDir, AnyRun);
  }

  /** The `**` pass turns the `**` between two wildcard-free texts into `AnyRun`. */
  lemma SecondPassRecursive(a: string, b: string)
    requires NoWildcard(a) && NoWildcard(b)
    ensures ReplaceLits(Literals(a + Recursive + b), Recursive, AnyRun) == Literals(a) + [AnyRun] + Literals(b)
  {
    LiteralsAppend(a + Recursive, b);
    LiteralsAppend(a, Recursive);
    assert Literals(a + Recursive + b) == Literals(a) + (Literals(Recursive) + Literals(b));
    LiteralsWithoutWildcard(a);
    LiteralsWithoutWildcard(b);
    ReplaceCleanPrefix(Literals(a), Literals(Recursive) + Literals(b), Recursive, AnyRun);
    ReplaceAtPattern(Literals(b), Recursive, AnyRun);
    ReplaceWithoutOccurrence(Literals(b), Recursive, AnyRun);
  }

  /** `a**b`, when `b` does not start with a separator, compiles to `a`, `AnyRun`, `b`. */
  lemma CompileRecursive(a: string, b: string)
    requires NoWildcard(a) && NoWildcard(b)
    requires |b| > 0 ==> b[0] != Sep && b[|b| - 1] != Sep
    ensures Compile(a + Recursive + b) == Ok(Literals(a) + [AnyRun] + Literals(b))
  {
    var w := a + Recursive + b;
    assert w[|w| - 1] == if |b| > 0 then b[|b| - 1] else '*';
    FirstPassRecursive(a, b);
    SecondPassRecursive(a, b);
    AroundHasNoWildcardLiteral(a, AnyRun, b);
    CompileAfterTwoPasses(w, Literals(a) + [AnyRun] + Literals(b));
  }

  /** The two `**` passes leave a lone `*` between wildcard-free texts alone. */
  lemma RecursivePassesKeepStar(a: string, b: string, pat: string)
    requires NoWildcard(a) && NoWildcard(b) && (pat == RecursiveDir || pat == Recursive)
    ensures ReplaceLits(Literals(a + Star + b), pat, AnyRun) == Literals(a + Star + b)
  {
    var u := [Lit('*')] + Literals(b);
    LiteralsAppend(a + Star, b);
    LiteralsAppend(a, Star);
    assert Literals(a + Star + b) == Literals(a) + u;
    LiteralsWithoutWildcard(a);
    ReplaceLoneStar(b, pat, AnyRun);
    ReplaceCleanPrefix(Literals(a), u, pat, AnyRun);
  }

  /** The `*` pass turns the `*` between two wildcard-free texts into `Segment`. */
  lemma StarPass(a: string, b: string)
    requires NoWildcard(a) && NoWildcard(b)
    ensures ReplaceLits(Literals(a + Star + b), Star, Segment) == Literals(a) + [Segment] + Literals(b)
  {
    LiteralsAppend(a + Star, b);
    LiteralsAppend(a, Star);
    assert Literals(a + Star + b) == Literals(a) + (Literals(Star) + Literals(b));
    LiteralsWithoutWildcard(a);
    LiteralsWithoutWildcard(b);
    ReplaceCleanPrefix(Literals(a), Literals(Star) + Literals(b), Star, Segment);
    ReplaceAtPattern(Literals(b), Star, Segment);
    ReplaceWithoutOccurrence(Literals(b), Star, Segment);
  }

  /** `a*b`, with wildcard-free `a` and `b`, compiles to `a`, `Segment`, `b`. */
  lemma CompileStar(a: string, b: string)
    requires NoWildcard(a) && NoWildcard(b)
    requires |b| > 0 ==> b[|b| - 1] != Sep
    ensures Compile(a + Star + b) == Ok(Literals(a) + [Segment] + Literals(b))
  {
    var w := a + Star + b;
    var t := Literals(a) + [Segment] + Literals(b);
    assert w[|w| - 1] == if |b| > 0 then b[|b| - 1] else '*';
    assert Expand(w) == w;
    RecursivePassesKeepStar(a, b, RecursiveDir);
    RecursivePassesKeepStar(a, b, Recursive);
    StarPass(a, b);
    AroundHasNoWildcardLiteral(a, Segment, b);
    assert ReplaceLits(t, Question, AnyChar) == t by {
      ReplaceWithoutOccurrence(t, Question, AnyChar);
    }
  }

  /** A plain pattern compiles to its literals. */
  lemma CompilePlain(w: string)
    requires PlainPattern(w)
    ensures Compile(w) == Ok(Literals(w))
  {
    var t := Literals(w);
    LiteralsWithoutWildcard(w);
    ReplaceWithoutOccurrence(t, RecursiveDir, AnyRun);
    ReplaceWithoutOccurrence(t, Recursive, AnyRun);
    ReplaceWithoutOccurrence(t, Star, Segment);
    ReplaceWithoutOccurrence(t, Question, AnyChar);
  }

  /** Literals in front of a pattern take the same number of characters, ignoring case. */
  lemma {:induction false} MatchLiteralPrefix(a: string, rest: seq<Token>, p: string)
    ensures Match(Literals(a) + rest, p)
        <==> |a| <= |p| && EqualsIgnoreCase(p[..|a|], a) && Match(rest, p[|a|..])
    decreases |a|
  {
    if |a| == 0 {
      assert Literals(a) + rest == rest && p[0..] == p;
    } else {
      var t := Literals(a) + rest;
      assert t[0] == Lit(a[0]) && t[1..] == Literals(a[1..]) + rest;
      if |p| > 0 {
        MatchLiteralPrefix(a[1..], rest, p[1..]);
        if |a| <= |p| {
          assert p[1..][|a| - 1..] == p[|a|..];
          assert forall i :: 1 <= i < |a| ==> p[..|a|][i] == p[1..][..|a| - 1][i - 1] && a[i] == a[1..][i - 1];
        }
      }
    }
  }

  /** Literals alone accept exactly the same text, ignoring case. */
  lemma MatchLiterals(w: string, p: string)
    ensures Match(Literals(w), p) <==> EqualsIgnoreCase(p, w)
  {
    MatchLiteralPrefix(w, [], p);
    assert Literals(w) + [] == Literals(w);
    if |w| <= |p| {
      assert Match([], p[|w|..]) <==> |p| == |w|;
      assert |p| == |w| ==> p[..|w|] == p;
    }
  }

  /**
   * A plain pattern accepts exactly the paths equal to it up to case, or
   * equal to it followed by one `\n`: matching is anchored at both ends.
   */
  lemma PlainPatternMatch(w: string, p: string)
    requires PlainPattern(w)
    ensures Accepts(w, p) == Ok(EqualsIgnoreCase(p, w) || (|p| > 0 && p[|p| - 1] == '\n' && EqualsIgnoreCase(p[..|p| - 1], w)))
  {
    CompilePlain(w);
    MatchLiterals(w, p);
    if |p| > 0 {
      MatchLiterals(w, p[..|p| - 1]);
    }
  }

  /** Literals `b` accept a suffix of the path only when it is the last `|b|` characters, equal to `b` up to case. */
  lemma SuffixMatch(b: string, q: string, k: int)
    requires 0 <= k <= |q|
    ensures Match(Literals(b), q[k..]) <==> k == |q| - |b| && EqualsIgnoreCase(q[|q| - |b|..], b)
  {
    MatchLiterals(b, q[k..]);
  }

  lemma AnyRunThenLiteralsSound(b: string, q: string)
    requires Match([AnyRun] + Literals(b), q)
    ensures |b| <= |q| && NoNewline(q[..|q| - |b|]) && EqualsIgnoreCase(q[|q| - |b|..], b)
  {
    assert exists k :: 0 <= k <= |q| && NoNewline(q[..k]) && Match(Literals(b), q[k..]) by {
      MatchAnyRun(Literals(b), q);
    }
    var k :| 0 <= k <= |q| && NoNewline(q[..k]) && Match(Literals(b), q[k..]);
    assert k == |q| - |b| && EqualsIgnoreCase(q[k..], b) by {
      SuffixMatch(b, q, k);
    }
  }

  lemma AnyRunThenLiteralsComplete(b: string, q: string)
    requires |b| <= |q| && NoNewline(q[..|q| - |b|]) && EqualsIgnoreCase(q[|q| - |b|..], b)
    ensures Match([AnyRun] + Literals(b), q)
  {
    var k := |q| - |b|;
    assert Match(Literals(b), q[k..]) by {
      SuffixMatch(b, q, k);
    }
    MatchAnyRun(Literals(b), q);
  }

  /** `AnyRun` then literals `b`: the path ends with `b`, and what comes before has no newline. */
  lemma AnyRunThenLiterals(b: string, q: string)
    ensures Match([AnyRun] + Literals(b), q)
        <==> |b| <= |q| && NoNewline(q[..|q| - |b|]) && EqualsIgnoreCase(q[|q| - |b|..], b)
  {
    if Match([AnyRun] + Literals(b), q) {
      AnyRunThenLiteralsSound(b, q);
    }
    if |b| <= |q| && NoNewline(q[..|q| - |b|]) && EqualsIgnoreCase(q[|q| - |b|..], b) {
      AnyRunThenLiteralsComplete(b, q);
    }
  }

  /** `a**b` and `a**\b`: the path starts with `a`, ends with `b`, and what lies between has no newline. */
  lemma AnyRunThenLiteralsAfter(a: string, b: string, p: string)
    requires |a| <= |p|
    ensures Match([AnyRun] + Literals(b), p[|a|..])
        <==> |a| + |b| <= |p| && NoNewline(p[|a|..|p| - |b|]) && EqualsIgnoreCase(p[|p| - |b|..], b)
  {
    var q := p[|a|..];
    AnyRunThenLiterals(b, q);
    if |b| <= |q| {
      assert q[..|q| - |b|] == p[|a|..|p| - |b|];
      assert q[|q| - |b|..] == p[|p| - |b|..];
    }
  }

  lemma MatchAroundAnyRun(a: string, b: string, p: string)
    ensures Match(Literals(a) + [AnyRun] + Literals(b), p)
        <==> |a| + |b| <= |p| && EqualsIgnoreCase(p[..|a|], a)
             && NoNewline(p[|a|..|p| - |b|]) && EqualsIgnoreCase(p[|p| - |b|..], b)
  {
    assert Literals(a) + [AnyRun] + Literals(b) == Literals(a) + ([AnyRun] + Literals(b));
    MatchLiteralPrefix(a, [AnyRun] + Literals(b), p);
    if |a| <= |p| {
      AnyRunThenLiteralsAfter(a, b, p);
    }
  }

  /** `a?b` accepts `a`, then one character other than a newline, then `b`. */
  lemma MatchAroundAnyCharConcat(a: string, c: char, b: string)
    requires c != '\n'
    ensures Match(Literals(a) + [AnyChar] + Literals(b), a + [c] + b)
  {
    var p := a + [c] + b;
    assert p[..|a|] == a && p[|a|] == c && p[|a| + 1..] == b;
    EqualsIgnoreCaseIsUpperEquality(a, a);
    EqualsIgnoreCaseIsUpperEquality(b, b);
    MatchAroundAnyChar(a, b, p);
  }

  /** `a**b` accepts `a`, then any run without a newline, then `b`. */
  lemma MatchAroundAnyRunConcat(a: string, m: string, b: string)
    requires NoNewline(m)
    ensures Match(Literals(a) + [AnyRun] + Literals(b), a + m + b)
  {
    var p := a + m + b;
    assert p[..|a|] == a && p[|a|..|p| - |b|] == m && p[|p| - |b|..] == b;
    EqualsIgnoreCaseIsUpperEquality(a, a);
    EqualsIgnoreCaseIsUpperEquality(b, b);
    MatchAroundAnyRun(a, b, p);
  }

  /** What a `Segment` accepts: a separator-free run, possibly followed by one separator. */
  predicate SegmentText(m: string) {
    NoSeparator(m) || (|m| > 0 && m[|m| - 1] == Sep && NoSeparator(m[..|m| - 1]))
  }

  /** A split point of a `Segment` before literals `b` leaves exactly `b` at the end, preceded by segment text. */
  lemma SegmentSplitSuffix(b: string, q: string, k: int)
    requires 0 <= k <= |q| && SegmentSplit(Literals(b), q, k)
    ensures |b| <= |q| && SegmentText(q[..|q| - |b|]) && EqualsIgnoreCase(q[|q| - |b|..], b)
  {
    if Match(Literals(b), q[k..]) {
      assert k == |q| - |b| && EqualsIgnoreCase(q[k..], b) by {
        SuffixMatch(b, q, k);
      }
      assert SegmentText(q[..k]);
    } else {
      assert k < |q| && q[k] == Sep && Match(Literals(b), q[k + 1..]);
      assert k + 1 == |q| - |b| && EqualsIgnoreCase(q[k + 1..], b) by {
        SuffixMatch(b, q, k + 1);
      }
      var m := q[..k + 1];
      assert m[..k] == q[..k] && m[k] == Sep;
      assert SegmentText(m);
    }
  }

  lemma SegmentThenLiteralsSound(b: string, q: string)
    requires Match([Segment] + Literals(b), q)
    ensures |b| <= |q| && SegmentText(q[..|q| - |b|]) && EqualsIgnoreCase(q[|q| - |b|..], b)
  {
    assert exists k :: 0 <= k <= |q| && SegmentSplit(Literals(b), q, k) by {
      MatchSegment(Literals(b), q);
    }
    var k :| 0 <= k <= |q| && SegmentSplit(Literals(b), q, k);
    SegmentSplitSuffix(b, q, k);
  }

  /** Segment text before the suffix `b` gives a split point for `Segment`. */
  lemma SegmentTextSplit(b: string, q: string)
    requires |b| <= |q| && SegmentText(q[..|q| - |b|]) && EqualsIgnoreCase(q[|q| - |b|..], b)
    ensures exists k :: 0 <= k <= |q| && SegmentSplit(Literals(b), q, k)
  {
    var m := q[..|q| - |b|];
    assert Match(Literals(b), q[|m|..]) by {
      SuffixMatch(b, q, |m|);
    }
    if NoSeparator(m) {
      assert SegmentSplit(Literals(b), q, |m|);
    } else {
      assert q[..|m| - 1] == m[..|m| - 1];
      assert q[|m| - 1..][1..] == q[|m|..];
      assert SegmentSplit(Literals(b), q, |m| - 1);
    }
  }

  lemma SegmentThenLiteralsComplete(b: string, q: string)
    requires |b| <= |q| && SegmentText(q[..|q| - |b|]) && EqualsIgnoreCase(q[|q| - |b|..], b)
    ensures Match([Segment] + Literals(b), q)
  {
    SegmentTextSplit(b, q);
    MatchSegment(Literals(b), q);
  }

  /** `Segment` then literals `b`: the path ends with `b`, and what comes before is segment text. */
  lemma SegmentThenLiterals(b: string, q: string)
    ensures Match([Segment] + Literals(b), q)
        <==> |b| <= |q| && SegmentText(q[..|q| - |b|]) && EqualsIgnoreCase(q[|q| - |b|..], b)
  {
    if Match([Segment] + Literals(b), q) {
      SegmentThenLiteralsSound(b, q);
    }
    if |b| <= |q| && SegmentText(q[..|q| - |b|]) && EqualsIgnoreCase(q[|q| - |b|..], b) {
      SegmentThenLiteralsComplete(b, q);
    }
  }

  /** `a*b`: the path starts with `a`, ends with `b`, and what lies between is segment text. */
  lemma SegmentThenLiteralsAfter(a: string, b: string, p: string)
    requires |a| <= |p|
    ensures Match([Segment] + Literals(b), p[|a|..])
        <==> |a| + |b| <= |p| && SegmentText(p[|a|..|p| - |b|]) && EqualsIgnoreCase(p[|p| - |b|..], b)
  {
    var q := p[|a|..];
    SegmentThenLiterals(b, q);
    if |b| <= |q| {
      assert q[..|q| - |b|] == p[|a|..|p| - |b|];
      assert q[|q| - |b|..] == p[|p| - |b|..];
    }
  }

  lemma MatchAroundSegment(a: string, b: string, p: string)
    ensures Match(Literals(a) + [Segment] + Literals(b), p)
        <==> |a| + |b| <= |p| && EqualsIgnoreCase(p[..|a|], a)
             && SegmentText(p[|a|..|p| - |b|]) && EqualsIgnoreCase(p[|p| - |b|..], b)
  {
    assert Literals(a) + [Segment] + Literals(b) == Literals(a) + ([Segment] + Literals(b));
    MatchLiteralPrefix(a, [Segment] + Literals(b), p);
    if |a| <= |p| {
      SegmentThenLiteralsAfter(a, b, p);
    }
  }

  /** The `?` pass turns the `?` between two wildcard-free texts into `AnyChar`. */
  lemma QuestionPass(a: string, b: string)
    requires NoWildcard(a) && NoWildcard(b)
    ensures ReplaceLits(Literals(a + Question + b), Question, AnyChar) == Literals(a) + [AnyChar] + Literals(b)
  {
    LiteralsAppend(a + Question, b);
    LiteralsAppend(a, Question);
    assert Literals(a + Question + b) == Literals(a) + (Literals(Question) + Literals(b));
    LiteralsWithoutWildcard(a);
    LiteralsWithoutWildcard(b);
    ReplaceCleanPrefix(Literals(a), Literals(Question) + Literals(b), Question, AnyChar);
    ReplaceAtPattern(Literals(b), Question, AnyChar);
    ReplaceWithoutOccurrence(Literals(b), Question, AnyChar);
  }

  /** `a?b`, with wildcard-free `a` and `b`, compiles to `a`, `AnyChar`, `b`: the star passes find nothing. */
  lemma CompileQuestion(a: string, b: string)
    requires NoWildcard(a) && NoWildcard(b)
    requires |b| > 0 ==> b[|b| - 1] != Sep
    ensures Compile(a + Question + b) == Ok(Literals(a) + [AnyChar] + Literals(b))
  {
    var w := a + Question + b;
    assert w[|w| - 1] == if |b| > 0 then b[|b| - 1] else '?';
    assert Expand(w) == w;
    var t := Literals(w);
    assert Lit('*') !in t by {
      forall i | 0 <= i < |w| ensures t[i] != Lit('*') {
        assert w[i] in w;
      }
    }
    ReplaceWithoutOccurrence(t, RecursiveDir, AnyRun);
    ReplaceWithoutOccurrence(t, Recursive, AnyRun);
    ReplaceWithoutOccurrence(t, Star, Segment);
    QuestionPass(a, b);
  }

  /** `AnyChar` then literals `b`: one character other than a newline, then exactly `b`, ignoring case. */
  lemma AnyCharThenLiterals(b: string, q: string)
    ensures Match([AnyChar] + Literals(b), q)
        <==> |q| == |b| + 1 && q[0] != '\n' && EqualsIgnoreCase(q[1..], b)
  {
    var t := [AnyChar] + Literals(b);
    assert t[0] == AnyChar && t[1..] == Literals(b);
    if |q| > 0 {
      MatchLiterals(b, q[1..]);
    }
  }

  /** `a?b`: the path is `a`, then one character other than a newline, then `b`, ignoring case. */
  lemma MatchAroundAnyChar(a: string, b: string, p: string)
    ensures Match(Literals(a) + [AnyChar] + Literals(b), p)
        <==> |p| == |a| + 1 + |b| && EqualsIgnoreCase(p[..|a|], a)
             && p[|a|] != '\n' && EqualsIgnoreCase(p[|a| + 1..], b)
  {
    assert Literals(a) + [AnyChar] + Literals(b) == Literals(a) + ([AnyChar] + Literals(b));
    MatchLiteralPrefix(a, [AnyChar] + Literals(b), p);
    if |a| <= |p| {
      var q := p[|a|..];
      AnyCharThenLiterals(b, q);
      if |q| > 0 {
        assert q[0] == p[|a|] && q[1..] == p[|a| + 1..];
      }
    }
  }

  lemma TripleStarSeparatorCompiles()
    ensures Compile("***\\a") == Ok([Segment, AnyRun, Lit('a')])
  {
    var t := Literals("***\\a");
    assert Expand("***\\a") == "***\\a";
    var t1 := [Lit('*'), AnyRun, Lit('a')];
    assert ReplaceLits(t, RecursiveDir, AnyRun) == t1 by {
      assert t == [Lit('*')] + (Literals(RecursiveDir) + [Lit('a')]);
      assert !StartsWithLits(t, RecursiveDir) by { assert t[2] != Lit(RecursiveDir[2]); }
      ReplaceAtPattern([Lit('a')], RecursiveDir, AnyRun);
      assert ReplaceLits([Lit('a')], RecursiveDir, AnyRun) == [Lit('a')];
    }
    assert ReplaceLits(t1, Recursive, AnyRun) == t1 by {
      ReplaceWithoutOccurrence([AnyRun, Lit('a')], Recursive, AnyRun);
      assert !StartsWithLits(t1, Recursive);
      assert t1[1..] == [AnyRun, Lit('a')];
    }
    var t3 := [Segment, AnyRun, Lit('a')];
    assert ReplaceLits(t1, Star, Segment) == t3 by {
      ReplaceWithoutOccurrence([AnyRun, Lit('a')], Star, Segment);
      assert StartsWithLits(t1, Star);
    }
    assert ReplaceLits(t3, Question, AnyChar) == t3 by {
      ReplaceWithoutOccurrence([AnyRun, Lit('a')], Question, AnyChar);
      assert t3[1..] == [AnyRun, Lit('a')];
    }
  }

  /**
   * `***\a`: the `**\` pass claims the last two stars, leaving the first one
   * to the `*` pass, so the pattern accepts `a` (a tokenizer giving `**`
   * precedence over `*` would read `**`, `*`, `\`, `a` and require a separator).
   */
  lemma TripleStarSeparator()
    ensures Compile("***\\a") == Ok([Segment, AnyRun, Lit('a')])
    ensures Accepts("***\\a", "a") == Ok(true)
  {
    TripleStarSeparatorCompiles();
    assert Match([Lit('a')], "a") by {
      assert EqIgnoreCase('a', 'a');
      assert [Lit('a')][1..] == [] && "a"[1..] == [];
    }
    assert Match([AnyRun, Lit('a')], "a") by { assert [AnyRun, Lit('a')][1..] == [Lit('a')]; }
    assert Match([Segment, AnyRun, Lit('a')], "a");
  }

  /** A trailing separator reads as a trailing `\**`. */
  lemma TrailingSeparatorIsRecursive(w: string)
    ensures Compile(w + [Sep]) == Compile(w + [Sep] + Recursive)
  {
    var a, b := w + [Sep], w + [Sep] + Recursive;
    assert a[|a| - 1] == Sep && b[|b| - 1] == '*';
    assert a + Recursive == b;
  }

  // ---------------------------------------------------------------------
  // The filter object.
  // ---------------------------------------------------------------------

  class PathFilter {
    /** `Include`: whether a match includes (rather than excludes) the path. */
    var isInclude: bool
    /** `Path`: the pattern, with '\' as its only separator. */
    var path: string
    /** The compiled pattern, built on first use; `None` until then. */
    var cache: Option<seq<Token>>

    /** The cache, when filled, is the compilation of the current pattern. */
    ghost predicate Valid()
      reads this
    {
      cache.Some? ==> Compile(path) == Ok(cache.value)
    }

    /** An exclude filter with the empty pattern. */
    constructor ()
      ensures !isInclude && path == [] && cache == None
      ensures Valid()
    {
      isInclude := false;
      path := [];
      cache := None;
    }

    /** A filter with the given flag and pattern; a null pattern reads as empty. */
    constructor WithPattern(isInclude: bool, pattern: Option<string>)
      ensures this.isInclude == isInclude
      ensures path == NormalizePathSeparator(if pattern.Some? then pattern.value else [], false)
      ensures AltSep !in path
      ensures cache == None
      ensures Valid()
    {
      this.isInclude := isInclude;
      path := NormalizePathSeparator(if pattern.Some? then pattern.value else [], false);
      cache := None;
    }

    /** The `Path` setter: stores the normalised pattern and drops the matcher if the pattern changed. */
    method SetPath(value: Option<string>)
      requires Valid()
      modifies this
      ensures path == NormalizePathSeparator(if value.Some? then value.value else [], false)
      ensures isInclude == old(isInclude)
      ensures path != old(path) ==> cache == None
      ensures path == old(path) ==> cache == old(cache)
      ensures Valid()
    {
      var p := NormalizePathSeparator(if value.Some? then value.value else [], false);
      if path != p {
        path := p;
        cache := None;
      }
    }

    /** The `Path` setter, then the `Include` setter. */
    method SetPathAndInclude(value: Option<string>, flag: bool)
      requires Valid()
      modifies this
      ensures path == NormalizePathSeparator(if value.Some? then value.value else [], false)
      ensures isInclude == flag
      ensures Valid()
    {
      SetPath(value);
      isInclude := flag;
    }

    /** The `Regex` getter: compiles the pattern on first use and keeps the result. */
    method GetRegex() returns (r: Result<seq<Token>>)
      requires Valid()
      modifies this
      ensures r == Compile(path)
      ensures path == old(path) && isInclude == old(isInclude)
      ensures old(cache).Some? ==> cache == old(cache)
      ensures r.Ok? ==> cache == Some(r.value)
      ensures r.Err? ==> cache == None
      ensures Valid()
    {
      if cache.Some? {
        return Ok(cache.value);
      }
      r := Compile(path);
      if r.Ok? {
        cache := Some(r.value);
      }
    }

    /** `Regex.IsMatch(fileName)`, through the getter. */
    method IsMatch(fileName: string) returns (r: Result<bool>)
      requires Valid()
      modifies this
      ensures r == Accepts(path, fileName)
      ensures path == old(path) && isInclude == old(isInclude)
      ensures Valid()
    {
      var regex := GetRegex();
      if regex.Err? {
        return Err(regex.error);
      }
      r := Ok(MatchToEnd(regex.value, fileName));
    }
  }
}
