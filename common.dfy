/**
 * Shared vocabulary of the model: optional values for the source's nullable
 * references, results for its exceptions, and the string helpers of the .NET
 * runtime that the library relies on (white-space tests, ordinal and
 * ordinal-ignore-case comparison, and the path-separator normalisation of
 * CK.Core's FileUtil).
 *
 * Paths follow the Windows conventions of the source: '\' is the directory
 * separator and '/' the alternate one.
 */
module Common {

  /** A nullable reference of the source: `None` stands for null. */
  datatype Option<+T> = None | Some(value: T)

  /** The exceptions the modelled code throws (or lets escape). */
  datatype Error =
    | ArgumentNull
    | Argument
    | ArgumentOutOfRange
    | IndexOutOfRange
    | NullReference
    | UnmatchedFile(fileName: string)
    | FileNotFound(fileName: string)
    | DirectoryNotFound(dirName: string)
    | InvalidArchive(archivePath: string)

  /** The outcome of an operation that may throw. */
  datatype Result<+T> = Ok(value: T) | Err(error: Error)

  /** Items already produced, followed by those still to come (or the failure that stops them). */
  function Then<T>(done: seq<T>, rest: Result<seq<T>>): (r: Result<seq<T>>)
    ensures rest.Err? ==> r == rest
    ensures rest.Ok? ==> r.Ok? && |r.value| == |done| + |rest.value|
    ensures rest.Ok? ==> r.value[..|done|] == done && r.value[|done|..] == rest.value
  {
    match rest
    case Err(e) => Err(e)
    case Ok(xs) => Ok(done + xs)
  }

  lemma ThenThen<T>(done: seq<T>, head: seq<T>, rest: Result<seq<T>>)
    ensures Then(done, Then(head, rest)) == Then(done + head, rest)
  {
    if rest.Ok? {
      assert done + (head + rest.value) == (done + head) + rest.value;
    }
  }

  const Sep: char := '\\'
  const AltSep: char := '/'

  /** `Char.IsWhiteSpace`, restricted to the ASCII white-space characters. */
  predicate IsWhiteSpace(c: char) {
    c == ' ' || ('\t' <= c <= '\r')
  }

  /** `String.IsNullOrWhiteSpace`. */
  predicate IsNullOrWhiteSpace(s: Option<string>) {
    s.None? || forall i :: 0 <= i < |s.value| ==> IsWhiteSpace(s.value[i])
  }

  /** Upper-case folding used by the ordinal-ignore-case comparisons (ASCII letters only). */
  function Upper(c: char): (u: char)
    ensures 'a' <= c <= 'z' ==> 'A' <= u <= 'Z' && u as int == c as int - 32
    ensures !('a' <= c <= 'z') ==> u == c
  {
    if 'a' <= c <= 'z' then (c as int - 32) as char else c
  }

  function UpperString(s: string): (r: string)
    ensures |r| == |s|
    ensures forall i {:trigger r[i]} :: 0 <= i < |s| ==> r[i] == Upper(s[i])
  {
    seq(|s|, i requires 0 <= i < |s| => Upper(s[i]))
  }

  predicate EqIgnoreCase(c: char, d: char) {
    Upper(c) == Upper(d)
  }

  /** `s.StartsWith(prefix, StringComparison.OrdinalIgnoreCase)`. */
  predicate StartsWithIgnoreCase(s: string, prefix: string) {
    |prefix| <= |s| && forall i :: 0 <= i < |prefix| ==> EqIgnoreCase(s[i], prefix[i])
  }

  /** `s.EndsWith(suffix, StringComparison.OrdinalIgnoreCase)`. */
  predicate EndsWithIgnoreCase(s: string, suffix: string) {
    |suffix| <= |s| && forall i :: 0 <= i < |suffix| ==> EqIgnoreCase(s[|s| - |suffix| + i], suffix[i])
  }

  lemma StartsWithIgnoreCaseIsPrefixOfUpper(s: string, prefix: string)
    ensures StartsWithIgnoreCase(s, prefix) <==> UpperString(prefix) <= UpperString(s)
  {
    var u, v := UpperString(prefix), UpperString(s);
    if StartsWithIgnoreCase(s, prefix) {
      assert forall i :: 0 <= i < |u| ==> u[i] == v[..|u|][i];
      assert u == v[..|u|];
    }
    if u <= v {
      forall i | 0 <= i < |prefix| ensures EqIgnoreCase(s[i], prefix[i]) {
        assert u[i] == v[i];
      }
    }
  }

  /**
   * `FileUtil.NormalizePathSeparator(path, ensureTrailingBackslash)`: every '/'
   * becomes '\'; when asked, a non-empty result that does not end with '\'
   * gets one appended.
   */
  function NormalizePathSeparator(path: string, ensureTrailing: bool): (r: string)
    ensures AltSep !in r
    ensures |r| == |path| || (ensureTrailing && |r| == |path| + 1 && r[|path|] == Sep)
    ensures forall i :: 0 <= i < |path| ==> r[i] == (if path[i] == AltSep then Sep else path[i])
    ensures ensureTrailing && |path| > 0 ==> r[|r| - 1] == Sep
  {
    var t := seq(|path|, i requires 0 <= i < |path| => if path[i] == AltSep then Sep else path[i]);
    if ensureTrailing && |t| > 0 && t[|t| - 1] != Sep then t + [Sep] else t
  }

  lemma NormalizePathSeparatorIdempotent(path: string, ensureTrailing: bool)
    ensures NormalizePathSeparator(NormalizePathSeparator(path, ensureTrailing), ensureTrailing)
         == NormalizePathSeparator(path, ensureTrailing)
  {
    var once := NormalizePathSeparator(path, ensureTrailing);
    var twice := NormalizePathSeparator(once, ensureTrailing);
    assert |twice| == |once| by {
      if ensureTrailing && |once| > 0 {
        assert once[|once| - 1] == Sep;
      }
    }
    forall i | 0 <= i < |once| ensures twice[i] == once[i] {
    }
  }

  // ---------------------------------------------------------------------
  // Ordinal string order (`StringComparer.Ordinal`): lexicographic on chars.
  // ---------------------------------------------------------------------

  predicate Less(a: string, b: string)
    decreases |a|
  {
    if |a| == 0 then |b| > 0
    else if |b| == 0 then false
    else if a[0] != b[0] then a[0] < b[0]
    else Less(a[1..], b[1..])
  }

  lemma {:induction false} LessIrreflexive(a: string)
    ensures !Less(a, a)
    decreases |a|
  {
    if |a| > 0 { LessIrreflexive(a[1..]); }
  }

  lemma {:induction false} LessAsymmetric(a: string, b: string)
    ensures Less(a, b) ==> !Less(b, a)
    decreases |a|
  {
    if |a| > 0 && |b| > 0 && a[0] == b[0] { LessAsymmetric(a[1..], b[1..]); }
  }

  lemma {:induction false} LessTransitive(a: string, b: string, c: string)
    requires Less(a, b) && Less(b, c)
    ensures Less(a, c)
    decreases |a|
  {
    if |a| > 0 && a[0] == b[0] && b[0] == c[0] {
      LessTransitive(a[1..], b[1..], c[1..]);
    }
  }

  lemma {:induction false} LessTotal(a: string, b: string)
    ensures a == b || Less(a, b) || Less(b, a)
    decreases |a|
  {
    if |a| > 0 && |b| > 0 && a[0] == b[0] {
      LessTotal(a[1..], b[1..]);
      if a[1..] == b[1..] {
        assert a == [a[0]] + a[1..] && b == [b[0]] + b[1..];
      }
    }
  }

  /** A proper prefix comes first in ordinal order. */
  lemma {:induction false} ProperPrefixIsLess(a: string, b: string)
    requires a <= b && a != b
    ensures Less(a, b)
    decreases |a|
  {
    if |a| > 0 {
      assert a[1..] <= b[1..];
      ProperPrefixIsLess(a[1..], b[1..]);
    }
  }

  /** If `a` is a prefix of `s` and `a < b <= s`, then `b` is not shorter than `a` and `a` is a prefix of `b`. */
  lemma {:induction false} BetweenPrefixAndString(a: string, b: string, s: string)
    requires a <= s && Less(a, b) && (b == s || Less(b, s))
    ensures a <= b
    decreases |a|
  {
    if |a| > 0 {
      assert |b| > 0 && a[0] == b[0];
      assert a[1..] <= s[1..];
      assert b[1..] == s[1..] || Less(b[1..], s[1..]);
      BetweenPrefixAndString(a[1..], b[1..], s[1..]);
      assert a == [a[0]] + a[1..] && b == [b[0]] + b[1..];
    }
  }

  /** Ordinal-ignore-case order (`StringComparer.OrdinalIgnoreCase`): ordinal order of the upper-cased strings. */
  predicate LessIgnoreCase(a: string, b: string) {
    Less(UpperString(a), UpperString(b))
  }

  /** `String.Equals(a, b, StringComparison.OrdinalIgnoreCase)`: character-wise equality up to case. */
  predicate EqualsIgnoreCase(a: string, b: string) {
    |a| == |b| && forall i :: 0 <= i < |a| ==> EqIgnoreCase(a[i], b[i])
  }

  /** Equality ignoring case is equality of the upper-cased strings. */
  lemma EqualsIgnoreCaseIsUpperEquality(a: string, b: string)
    ensures EqualsIgnoreCase(a, b) <==> UpperString(a) == UpperString(b)
  {
    if UpperString(a) == UpperString(b) {
      assert |UpperString(a)| == |a| && |UpperString(b)| == |b|;
      forall i | 0 <= i < |a| ensures EqIgnoreCase(a[i], b[i]) {
        assert UpperString(a)[i] == UpperString(b)[i];
      }
    }
  }
}
