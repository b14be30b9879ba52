/**
 * Set algebra on strictly sorted string arrays (CK.FileFilter's
 * SortedStringArray): a one-pass union that fills a fresh array from the back,
 * a one-pass difference that marks the common slots of a clone and then
 * compacts it, and an element-wise equality.
 *
 * The comparer is the ordinal order `Less` of module Common, the one the
 * library's only caller (FileNameList) passes. The source marks removed slots
 * by storing a sentinel string compared by reference; the model keeps a
 * parallel array of booleans instead.
 */
module SortedStringArray {
  import opened Common

  /** The `i`-th string of `s` comes before the `j`-th one. */
  predicate LessAt(s: seq<string>, i: int, j: int)
    requires 0 <= i < |s| && 0 <= j < |s|
  {
    Less(s[i], s[j])
  }

  /**
   * Every string comes before all the ones after it. The quantifier fires only
   * on `LessAt` terms, so proofs name the pairs they compare.
   */
  predicate StrictlySorted(s: seq<string>) {
    forall i, j {:trigger LessAt(s, i, j)} :: 0 <= i < j < |s| ==> LessAt(s, i, j)
  }

  /** The contents of a nullable array, null reading as empty. */
  function Elements(x: array?<string>): seq<string>
    reads x
  {
    if x == null then [] else x[..]
  }

  lemma SortedAt(s: seq<string>, i: int, j: int)
    requires StrictlySorted(s) && 0 <= i < j < |s|
    ensures Less(s[i], s[j])
  {
    assert LessAt(s, i, j);
  }

  // ---------------------------------------------------------------------
  // Specification: union and difference of sorted sequences, both defined
  // from the back, the way the algorithms consume their inputs.
  // ---------------------------------------------------------------------

  function Last(s: seq<string>): string
    requires |s| > 0
  {
    s[|s| - 1]
  }

  function AllButLast(s: seq<string>): seq<string>
    requires |s| > 0
  {
    s[..|s| - 1]
  }

  lemma AllButLastSorted(s: seq<string>)
    requires StrictlySorted(s) && |s| > 0
    ensures StrictlySorted(AllButLast(s))
  {
    var t := AllButLast(s);
    forall i, j | 0 <= i < j < |t| ensures LessAt(t, i, j) {
      assert LessAt(s, i, j);
    }
  }

  /** The merge of `a` and `b`, equal elements kept once. */
  function Union(a: seq<string>, b: seq<string>): seq<string>
    decreases |a| + |b|
  {
    if |a| == 0 then b
    else if |b| == 0 then a
    else if Less(Last(b), Last(a)) then Union(AllButLast(a), b) + [Last(a)]
    else if Less(Last(a), Last(b)) then Union(a, AllButLast(b)) + [Last(b)]
    else Union(AllButLast(a), AllButLast(b)) + [Last(a)]
  }

  /** The elements of `a` that are not in `b`, in `a`'s order. */
  function Difference(a: seq<string>, b: seq<string>): seq<string>
  {
    if |a| == 0 then []
    else Difference(AllButLast(a), b) + (if Last(a) in b then [] else [Last(a)])
  }

  lemma {:induction false} DifferenceMembers(a: seq<string>, b: seq<string>)
    ensures forall s :: s in Difference(a, b) <==> s in a && s !in b
  {
    if |a| > 0 {
      DifferenceMembers(AllButLast(a), b);
      assert a == AllButLast(a) + [Last(a)];
    }
  }

  lemma {:induction false} DifferenceSorted(a: seq<string>, b: seq<string>)
    requires StrictlySorted(a)
    ensures StrictlySorted(Difference(a, b))
  {
    if |a| > 0 {
      var a' := AllButLast(a);
      AllButLastSorted(a);
      DifferenceSorted(a', b);
      DifferenceMembers(a', b);
      var d := Difference(a', b);
      forall s | s in d ensures Less(s, Last(a)) {
        var k :| 0 <= k < |a'| && a'[k] == s;
        SortedAt(a, k, |a| - 1);
      }
      assert Difference(a, b) == d + (if Last(a) in b then [] else [Last(a)]);
      if Last(a) in b { assert d + [] == d; } else { AppendSorted(d, Last(a)); }
    }
  }

  lemma {:induction false} DifferenceWithNothing(a: seq<string>, b: seq<string>)
    requires forall s :: s in a ==> s !in b
    ensures Difference(a, b) == a
  {
    if |a| > 0 {
      assert a == AllButLast(a) + [Last(a)];
      assert Last(a) in a;
      assert forall s :: s in AllButLast(a) ==> s in a;
      DifferenceWithNothing(AllButLast(a), b);
    }
  }

  /** Removing from `b` an element that `a` does not hold changes nothing. */
  lemma {:induction false} DifferenceIgnoresForeign(a: seq<string>, b: seq<string>)
    requires |b| > 0 && Last(b) !in a
    ensures Difference(a, b) == Difference(a, AllButLast(b))
  {
    if |a| > 0 {
      DifferenceIgnoresForeign(AllButLast(a), b);
      assert Last(a) in b <==> Last(a) in AllButLast(b) by {
        assert b == AllButLast(b) + [Last(b)];
      }
    }
  }

  lemma {:induction false} UnionMembers(a: seq<string>, b: seq<string>)
    ensures forall s :: s in Union(a, b) <==> s in a || s in b
    decreases |a| + |b|
  {
    if |a| > 0 && |b| > 0 {
      assert a == AllButLast(a) + [Last(a)];
      assert b == AllButLast(b) + [Last(b)];
      if Less(Last(b), Last(a)) {
        UnionMembers(AllButLast(a), b);
      } else if Less(Last(a), Last(b)) {
        UnionMembers(a, AllButLast(b));
      } else {
        LessTotal(Last(a), Last(b));
        UnionMembers(AllButLast(a), AllButLast(b));
      }
    }
  }

  /** Every element of a strictly sorted sequence but the last is below the last. */
  lemma BelowLast(s: seq<string>, x: string)
    requires StrictlySorted(s) && |s| > 0 && x in AllButLast(s)
    ensures Less(x, Last(s))
  {
    var k :| 0 <= k < |s| - 1 && s[k] == x;
    SortedAt(s, k, |s| - 1);
  }

  lemma AtMostLast(s: seq<string>, x: string)
    requires StrictlySorted(s) && |s| > 0 && x in s
    ensures x == Last(s) || Less(x, Last(s))
  {
    var k :| 0 <= k < |s| && s[k] == x;
    if k < |s| - 1 { SortedAt(s, k, |s| - 1); }
  }

  lemma AppendSorted(s: seq<string>, x: string)
    requires StrictlySorted(s)
    requires forall y :: y in s ==> Less(y, x)
    ensures StrictlySorted(s + [x])
  {
    var t := s + [x];
    forall i, j | 0 <= i < j < |t| ensures LessAt(t, i, j) {
      if j == |s| { assert t[i] in s; } else { assert LessAt(s, i, j); }
    }
  }

  lemma {:induction false} UnionSorted(a: seq<string>, b: seq<string>)
    requires StrictlySorted(a) && StrictlySorted(b)
    ensures StrictlySorted(Union(a, b))
    decreases |a| + |b|
  {
    if |a| > 0 && |b| > 0 {
      var la, lb := Last(a), Last(b);
      AllButLastSorted(a);
      AllButLastSorted(b);
      if Less(lb, la) {
        UnionSorted(AllButLast(a), b);
        UnionMembers(AllButLast(a), b);
        forall y | y in Union(AllButLast(a), b) ensures Less(y, la) {
          if y in AllButLast(a) { BelowLast(a, y); }
          else {
            AtMostLast(b, y);
            if y != lb { LessTransitive(y, lb, la); }
          }
        }
        AppendSorted(Union(AllButLast(a), b), la);
      } else if Less(la, lb) {
        UnionSorted(a, AllButLast(b));
        UnionMembers(a, AllButLast(b));
        forall y | y in Union(a, AllButLast(b)) ensures Less(y, lb) {
          if y in AllButLast(b) { BelowLast(b, y); }
          else {
            AtMostLast(a, y);
            if y != la { LessTransitive(y, la, lb); }
          }
        }
        AppendSorted(Union(a, AllButLast(b)), lb);
      } else {
        LessTotal(la, lb);
        UnionSorted(AllButLast(a), AllButLast(b));
        UnionMembers(AllButLast(a), AllButLast(b));
        forall y | y in Union(AllButLast(a), AllButLast(b)) ensures Less(y, la) {
          if y in AllButLast(a) { BelowLast(a, y); } else { BelowLast(b, y); }
        }
        AppendSorted(Union(AllButLast(a), AllButLast(b)), la);
      }
    }
  }

  /** When the last element of `a` comes after all of `b`, it is not in `b`. */
  lemma AboveLastNotIn(b: seq<string>, x: string)
    requires StrictlySorted(b) && |b| > 0 && Less(Last(b), x)
    ensures x !in b
  {
    if x in b { AtMostLast(b, x); LessAsymmetric(Last(b), x); LessIrreflexive(x); }
  }

  /** Appending the same element to a merged sequence and to one of its parts keeps the counts balanced. */
  lemma CountAppend<T>(u: seq<T>, u': seq<T>, d: seq<T>, d': seq<T>, c: seq<T>, c': seq<T>, x: T)
    requires u == u' + [x]
    requires (d == d' + [x] && c == c') || (d == d' && c == c' + [x])
    requires multiset(u') == multiset(d') + multiset(c')
    ensures multiset(u) == multiset(d) + multiset(c)
  {
  }

  lemma UnionLastFirst(a: seq<string>, b: seq<string>)
    requires |a| > 0 && |b| > 0 && Less(Last(b), Last(a))
    ensures Union(a, b) == Union(AllButLast(a), b) + [Last(a)]
  {
  }

  lemma UnionLastSecond(a: seq<string>, b: seq<string>)
    requires |a| > 0 && |b| > 0 && !Less(Last(b), Last(a)) && Less(Last(a), Last(b))
    ensures Union(a, b) == Union(a, AllButLast(b)) + [Last(b)]
  {
  }

  lemma UnionLastBoth(a: seq<string>, b: seq<string>)
    requires |a| > 0 && |b| > 0 && Last(a) == Last(b)
    ensures Union(a, b) == Union(AllButLast(a), AllButLast(b)) + [Last(b)]
  {
    LessIrreflexive(Last(a));
  }

  lemma DifferenceLastKept(a: seq<string>, b: seq<string>)
    requires |a| > 0 && Last(a) !in b
    ensures Difference(a, b) == Difference(AllButLast(a), b) + [Last(a)]
  {
  }

  lemma DifferenceLastDropped(a: seq<string>, b: seq<string>)
    requires |a| > 0 && |b| > 0 && Last(a) == Last(b)
    ensures Difference(a, b) == Difference(AllButLast(a), b)
  {
    assert b[|b| - 1] == Last(a);
  }

  lemma SplitLast(b: seq<string>)
    requires |b| > 0
    ensures b == AllButLast(b) + [Last(b)]
  {
  }

  /**
   * The union holds every element of `b` and, besides, exactly the elements
   * of `a` that `b` lacks: adding then counts common elements once.
   */
  lemma {:induction false} UnionIsDifferencePlusOther(a: seq<string>, b: seq<string>)
    requires StrictlySorted(a) && StrictlySorted(b)
    ensures multiset(Union(a, b)) == multiset(Difference(a, b)) + multiset(b)
    decreases |a| + |b|
  {
    if |a| == 0 {
    } else if |b| == 0 {
      DifferenceWithNothing(a, b);
    } else {
      var a', b', la, lb := AllButLast(a), AllButLast(b), Last(a), Last(b);
      AllButLastSorted(a);
      AllButLastSorted(b);
      if Less(lb, la) {
        UnionIsDifferencePlusOther(a', b);
        UnionLastFirst(a, b);
        AboveLastNotIn(b, la);
        DifferenceLastKept(a, b);
        CountAppend(Union(a, b), Union(a', b), Difference(a, b), Difference(a', b), b, b, la);
      } else if Less(la, lb) {
        UnionIsDifferencePlusOther(a, b');
        UnionLastSecond(a, b);
        AboveLastNotIn(a, lb);
        DifferenceIgnoresForeign(a, b);
        SplitLast(b);
        CountAppend(Union(a, b), Union(a, b'), Difference(a, b), Difference(a, b'), b, b', lb);
      } else {
        LessTotal(la, lb);
        UnionIsDifferencePlusOther(a', b');
        UnionLastBoth(a, b);
        DifferenceLastDropped(a, b);
        assert lb !in a' by {
          if lb in a' { BelowLast(a, lb); LessIrreflexive(lb); }
        }
        DifferenceIgnoresForeign(a', b);
        SplitLast(b);
        CountAppend(Union(a, b), Union(a', b'), Difference(a, b), Difference(a', b'), b, b', lb);
      }
    }
  }

  // ---------------------------------------------------------------------
  // Array.Copy
  // ---------------------------------------------------------------------

  /** `Array.Copy(src, srcIndex, dst, dstIndex, length)` between two distinct arrays. */
  method Copy(src: array<string>, srcIndex: nat, dst: array<string>, dstIndex: nat, length: nat)
    requires src != dst
    requires srcIndex + length <= src.Length && dstIndex + length <= dst.Length
    modifies dst
    ensures dst[..] == old(dst[..dstIndex]) + src[srcIndex..srcIndex + length] + old(dst[dstIndex + length..])
  {
    forall k | 0 <= k < length {
      dst[dstIndex + k] := src[srcIndex + k];
    }
    assert dst[..] == old(dst[..dstIndex]) + src[srcIndex..srcIndex + length] + old(dst[dstIndex + length..]);
  }

  // ---------------------------------------------------------------------
  // SortedArrayAdd
  // ---------------------------------------------------------------------

  /** All the facts about `Union` that the callers of SortedArrayAdd rely on. */
  lemma UnionFacts(a: seq<string>, b: seq<string>)
    requires StrictlySorted(a) && StrictlySorted(b)
    ensures StrictlySorted(Union(a, b))
    ensures forall s :: s in Union(a, b) <==> s in a || s in b
    ensures |Union(a, b)| == |Difference(a, b)| + |b|
  {
    UnionSorted(a, b);
    UnionMembers(a, b);
    UnionIsDifferencePlusOther(a, b);
    assert |multiset(Union(a, b))| == |multiset(Difference(a, b))| + |multiset(b)|;
  }

  /** One step of the merge: the larger last element goes in front of the filled tail. */
  lemma UnionTakeFirst(a: seq<string>, b: seq<string>, t: seq<string>)
    requires |a| > 0 && |b| > 0 && Less(Last(b), Last(a))
    ensures Union(a, b) + t == Union(AllButLast(a), b) + ([Last(a)] + t)
  {
  }

  lemma UnionTakeSecond(a: seq<string>, b: seq<string>, t: seq<string>)
    requires |a| > 0 && |b| > 0 && !Less(Last(b), Last(a)) && Less(Last(a), Last(b))
    ensures Union(a, b) + t == Union(a, AllButLast(b)) + ([Last(b)] + t)
  {
  }

  lemma UnionTakeBoth(a: seq<string>, b: seq<string>, t: seq<string>)
    requires |a| > 0 && |b| > 0 && !Less(Last(b), Last(a)) && !Less(Last(a), Last(b))
    ensures Union(a, b) + t == Union(AllButLast(a), AllButLast(b)) + ([Last(a)] + t)
  {
  }

  /**
   * One iteration of the merging loop of SortedArrayAdd, on the prefixes of
   * `a` and `b` still to merge and the merged tail `filled`.
   */
  lemma MergeStep(a: seq<string>, b: seq<string>, i1: nat, i2: nat, filled: seq<string>,
                  i1': int, i2': int, filled': seq<string>)
    requires i1 < |a| && i2 < |b|
    requires Union(a, b) == Union(a[..i1 + 1], b[..i2 + 1]) + filled
    requires Less(b[i2], a[i1]) ==> i1' == i1 - 1 && i2' == i2 && filled' == [a[i1]] + filled
    requires !Less(b[i2], a[i1]) && Less(a[i1], b[i2]) ==> i1' == i1 && i2' == i2 - 1 && filled' == [b[i2]] + filled
    requires !Less(b[i2], a[i1]) && !Less(a[i1], b[i2]) ==> i1' == i1 - 1 && i2' == i2 - 1 && filled' == [a[i1]] + filled
    ensures Union(a, b) == Union(a[..i1' + 1], b[..i2' + 1]) + filled'
  {
    var a', b' := a[..i1 + 1], b[..i2 + 1];
    assert Last(a') == a[i1] && Last(b') == b[i2];
    assert AllButLast(a') == a[..i1] && AllButLast(b') == b[..i2];
    if Less(b[i2], a[i1]) {
      UnionTakeFirst(a', b', filled);
    } else if Less(a[i1], b[i2]) {
      UnionTakeSecond(a', b', filled);
    } else {
      UnionTakeBoth(a', b', filled);
    }
  }

  /**
   * The merging loop of SortedArrayAdd: fills `x` from the back until one
   * input is used up, and returns how many elements of each input are left,
   * and where the filled part of `x` starts.
   */
  method MergeFromBack(x1: array<string>, x2: array<string>, x: array<string>) returns (c1: nat, c2: nat, i: nat)
    requires x1.Length > 0 && x2.Length > 0 && x.Length == x1.Length + x2.Length
    requires x != x1 && x != x2
    modifies x
    ensures c1 <= x1.Length && c2 <= x2.Length && (c1 == 0 || c2 == 0)
    ensures c1 + c2 <= i <= x.Length
    ensures Union(x1[..], x2[..]) == Union(x1[..c1], x2[..c2]) + x[i..]
  {
    ghost var a, b := x1[..], x2[..];
    var n1, n2 := x1.Length, x2.Length;
    var i1, i2 := n1 - 1, n2 - 1;
    i := n1 + n2;
    var s1, s2 := x1[i1], x2[i2];
    ghost var filled: seq<string> := [];
    assert a[..i1 + 1] == a && b[..i2 + 1] == b;
    while i1 >= 0 && i2 >= 0
      invariant -1 <= i1 < n1 && -1 <= i2 < n2
      invariant i1 + i2 + 2 <= i <= n1 + n2
      invariant i1 >= 0 && i2 >= 0 ==> s1 == a[i1] && s2 == b[i2]
      invariant |filled| == n1 + n2 - i
      invariant forall k :: i <= k < n1 + n2 ==> x[k] == filled[k - i]
      invariant Union(a, b) == Union(a[..i1 + 1], b[..i2 + 1]) + filled
      decreases i1 + i2
    {
      ghost var i10, i20, previous := i1, i2, filled;
      LessAsymmetric(s2, s1);
      // The larger of the two current strings goes in front of the filled part.
      var v := if Less(s1, s2) then s2 else s1;
      i := i - 1;
      x[i] := v;
      filled := [v] + filled;
      forall k | i <= k < n1 + n2
        ensures x[k] == filled[k - i]
      {
        if k > i { assert filled[k - i] == previous[k - (i + 1)]; }
      }
      if Less(s2, s1) {
        i1 := i1 - 1;
        if i1 >= 0 { s1 := x1[i1]; }
      } else if Less(s1, s2) {
        i2 := i2 - 1;
        if i2 >= 0 { s2 := x2[i2]; }
      } else {
        i1 := i1 - 1;
        i2 := i2 - 1;
        if i1 >= 0 && i2 >= 0 {
          s1 := x1[i1];
          s2 := x2[i2];
        }
      }
      MergeStep(a, b, i10, i20, previous, i1, i2, filled);
    }
    assert x[i..] == filled;
    c1, c2 := i1 + 1, i2 + 1;
  }

  /** What `Copy` leaves from the destination index on, when it fills up to an already filled part. */
  lemma SliceAfterCopy<T>(before: seq<T>, after: seq<T>, src: seq<T>, k: nat, i: nat)
    requires k + |src| == i <= |before|
    requires after == before[..k] + src + before[i..]
    ensures after[k..] == src + before[i..]
  {
    assert after == before[..k] + (src + before[i..]);
  }

  /** Copies the first `count` strings of `src` just in front of the filled part `x[i..]`. */
  method PrependRemaining(src: array<string>, count: nat, x: array<string>, i: nat) returns (start: nat)
    requires src != x && count <= src.Length && count <= i <= x.Length
    modifies x
    ensures start == i - count
    ensures x[start..] == src[..count] + old(x[i..])
  {
    ghost var before := x[..];
    start := i - count;
    Copy(src, 0, x, start, count);
    SliceAfterCopy(before, x[..], src[0..count], start, i);
    assert src[0..count] == src[..count];
  }

  /** The part of `x` from `i` on: `x` itself when that is all of it, a new array otherwise. */
  method Suffix(x: array<string>, i: nat) returns (r: array<string>)
    requires i <= x.Length
    ensures r[..] == x[i..]
  {
    if i == 0 {
      assert x[..] == x[i..];
      return x;
    }
    r := new string[x.Length - i];
    Copy(x, i, r, 0, r.Length);
  }

  /** The merge proper, on two non-empty arrays: fill from the back, copy the rest, trim. */
  method MergeSorted(x1: array<string>, x2: array<string>) returns (r: array<string>)
    requires x1.Length > 0 && x2.Length > 0
    ensures r[..] == Union(x1[..], x2[..])
  {
    ghost var a, b := x1[..], x2[..];
    var x := new string[x1.Length + x2.Length];
    var i1, i2, i := MergeFromBack(x1, x2, x);
    ghost var whole := Union(a, b);
    if i1 > 0 {
      assert b[..i2] == [];
      i := PrependRemaining(x1, i1, x, i);
    } else if i2 > 0 {
      assert a[..i1] == [];
      i := PrependRemaining(x2, i2, x, i);
    } else {
      assert a[..i1] == [] && b[..i2] == [];
    }
    assert whole == x[i..];
    r := Suffix(x, i);
    assert x1[..] == a && x2[..] == b;
  }

  /**
   * Merges two strictly sorted arrays. An empty or null operand makes the
   * other one the result, by reference; otherwise a new array holds the
   * sorted union, common elements once.
   */
  method SortedArrayAdd(x1: array?<string>, x2: array?<string>) returns (r: array?<string>)
    requires StrictlySorted(Elements(x1)) && StrictlySorted(Elements(x2))
    ensures x1 == null || x1.Length == 0 ==> r == x2
    ensures x1 != null && x1.Length > 0 && (x2 == null || x2.Length == 0) ==> r == x1
    ensures r == null <==> (x1 == null || x1.Length == 0) && x2 == null
    ensures r != null ==> r[..] == Union(Elements(x1), Elements(x2))
    ensures r != null ==> StrictlySorted(r[..])
    ensures r != null ==> forall s :: s in r[..] <==> s in Elements(x1) || s in Elements(x2)
    ensures r != null ==> r.Length == |Difference(Elements(x1), Elements(x2))| + |Elements(x2)|
  {
    UnionFacts(Elements(x1), Elements(x2));
    if x1 == null || x1.Length == 0 {
      assert Elements(x1) == [];
      return x2;
    }
    if x2 == null || x2.Length == 0 {
      assert Elements(x2) == [];
      return x1;
    }
    r := MergeSorted(x1, x2);
  }

  // ---------------------------------------------------------------------
  // SortedArrayRemove
  // ---------------------------------------------------------------------

  /** The elements of `s` whose mark is false, in order. */
  function Unmarked(s: seq<string>, m: seq<bool>): seq<string>
    requires |s| == |m|
  {
    if |s| == 0 then []
    else Unmarked(AllButLast(s), m[..|m| - 1]) + (if m[|m| - 1] then [] else [Last(s)])
  }

  lemma {:induction false} UnmarkedIsDifference(a: seq<string>, m: seq<bool>, b: seq<string>)
    requires |a| == |m|
    requires forall j :: 0 <= j < |a| ==> (m[j] <==> a[j] in b)
    ensures Unmarked(a, m) == Difference(a, b)
  {
    if |a| > 0 {
      UnmarkedIsDifference(AllButLast(a), m[..|m| - 1], b);
    }
  }

  lemma {:induction false} UnmarkedLength(s: seq<string>, m: seq<bool>)
    requires |s| == |m|
    ensures |Unmarked(s, m)| + multiset(m)[true] == |s|
  {
    if |s| > 0 {
      UnmarkedLength(AllButLast(s), m[..|m| - 1]);
      assert m == m[..|m| - 1] + [m[|m| - 1]];
    }
  }

  lemma UnmarkedStep(s: seq<string>, m: seq<bool>, k: nat)
    requires |s| == |m| && k < |s|
    ensures Unmarked(s[..k + 1], m[..k + 1]) == Unmarked(s[..k], m[..k]) + (if m[k] then [] else [s[k]])
  {
    assert AllButLast(s[..k + 1]) == s[..k];
    assert m[..k + 1][..k] == m[..k];
  }

  lemma {:induction false} UnmarkedNoMarks(s: seq<string>, m: seq<bool>)
    requires |s| == |m|
    requires forall j :: 0 <= j < |m| ==> !m[j]
    ensures Unmarked(s, m) == s
  {
    if |s| > 0 {
      UnmarkedNoMarks(AllButLast(s), m[..|m| - 1]);
      assert s == AllButLast(s) + [Last(s)];
    }
  }

  lemma {:induction false} UnmarkedConcatClean(s: seq<string>, m: seq<bool>, k: nat)
    requires |s| == |m| && k <= |s|
    requires forall j :: k <= j < |m| ==> !m[j]
    ensures Unmarked(s, m) == Unmarked(s[..k], m[..k]) + s[k..]
    decreases |s| - k
  {
    if k < |s| {
      UnmarkedConcatClean(s, m, k + 1);
      UnmarkedStep(s, m, k);
      assert s[k..] == [s[k]] + s[k + 1..];
    } else {
      assert s[..k] == s && m[..k] == m;
    }
  }

  lemma NoTrueMeansAllFalse(m: seq<bool>)
    requires multiset(m)[true] == 0
    ensures forall j :: 0 <= j < |m| ==> !m[j]
  {
    forall j | 0 <= j < |m| ensures !m[j] {
      assert m[j] in multiset(m);
    }
  }

  lemma {:induction false} TrueCountAtMostLength(m: seq<bool>)
    ensures multiset(m)[true] <= |m|
  {
    if |m| > 0 {
      TrueCountAtMostLength(m[1..]);
      assert m == [m[0]] + m[1..];
    }
  }

  lemma AllFalseNoTrue(m: seq<bool>)
    requires forall j :: 0 <= j < |m| ==> !m[j]
    ensures multiset(m)[true] == 0
  {
    assert true !in m;
  }

  lemma LessImpliesDifferent(x: string, y: string)
    requires Less(x, y)
    ensures x != y
  {
    if x == y { LessIrreflexive(x); }
  }

  /** The count of marks is the number of marked indices. */
  lemma {:induction false} MarksCount(m: seq<bool>, found: set<int>)
    requires forall j :: 0 <= j < |m| ==> (m[j] <==> j in found)
    requires forall j :: j in found ==> 0 <= j < |m|
    ensures multiset(m)[true] == |found|
  {
    if |m| == 0 {
      assert forall j :: j !in found;
      assert found == {};
    } else {
      var k := |m| - 1;
      var rest := found - {k};
      MarksCount(m[..k], rest);
      assert m == m[..k] + [m[k]];
      if m[k] {
        assert found == rest + {k};
      } else {
        assert found == rest;
      }
    }
  }

  /**
   * Where the backward walk of SortedArrayRemove stands: the current string of
   * each array is below every string already passed in the other one.
   */
  predicate Frontier(a: seq<string>, b: seq<string>, i: int, i2: int)
    requires -1 <= i < |a| && -1 <= i2 < |b|
  {
    (i >= 0 ==> forall k :: i2 < k < |b| ==> Less(a[i], b[k])) &&
    (i2 >= 0 ==> forall j :: i < j < |a| ==> Less(b[i2], a[j]))
  }

  lemma FrontierSkipSecond(a: seq<string>, b: seq<string>, i: nat, i2: nat)
    requires StrictlySorted(b) && i < |a| && i2 < |b|
    requires Frontier(a, b, i, i2) && Less(a[i], b[i2])
    ensures Frontier(a, b, i, i2 - 1)
  {
    if i2 > 0 {
      forall j | i < j < |a| ensures Less(b[i2 - 1], a[j]) {
        SortedAt(b, i2 - 1, i2);
        LessTransitive(b[i2 - 1], b[i2], a[j]);
      }
    }
  }

  lemma FrontierSkipFirst(a: seq<string>, b: seq<string>, i: nat, i2: nat)
    requires StrictlySorted(a) && StrictlySorted(b) && i < |a| && i2 < |b|
    requires Frontier(a, b, i, i2) && Less(b[i2], a[i])
    ensures Frontier(a, b, i - 1, i2)
    ensures a[i] !in b
  {
    if i > 0 {
      forall k | i2 < k < |b| ensures Less(a[i - 1], b[k]) {
        SortedAt(a, i - 1, i);
        LessTransitive(a[i - 1], a[i], b[k]);
      }
    }
    forall k | 0 <= k < |b| ensures b[k] != a[i] {
      if k < i2 { SortedAt(b, k, i2); LessTransitive(b[k], b[i2], a[i]); LessImpliesDifferent(b[k], a[i]); }
      else if k == i2 { LessImpliesDifferent(b[k], a[i]); }
      else { LessImpliesDifferent(a[i], b[k]); }
    }
  }

  lemma FrontierSkipBoth(a: seq<string>, b: seq<string>, i: nat, i2: nat)
    requires StrictlySorted(a) && StrictlySorted(b) && i < |a| && i2 < |b|
    requires Frontier(a, b, i, i2) && a[i] == b[i2]
    ensures Frontier(a, b, i - 1, i2 - 1)
  {
    if i > 0 {
      forall k | i2 - 1 < k < |b| ensures Less(a[i - 1], b[k]) {
        SortedAt(a, i - 1, i);
        if k > i2 { LessTransitive(a[i - 1], a[i], b[k]); }
      }
    }
    if i2 > 0 {
      forall j | i - 1 < j < |a| ensures Less(b[i2 - 1], a[j]) {
        SortedAt(b, i2 - 1, i2);
        if j > i { LessTransitive(b[i2 - 1], b[i2], a[j]); }
      }
    }
  }

  /** Once `b` is used up, no string of `a` at or below the current one is in `b`. */
  lemma FrontierExhausted(a: seq<string>, b: seq<string>, i: nat)
    requires StrictlySorted(a) && i < |a|
    requires Frontier(a, b, i, -1)
    ensures forall j :: 0 <= j <= i ==> a[j] !in b
  {
    forall j | 0 <= j <= i ensures a[j] !in b {
      forall k | 0 <= k < |b| ensures b[k] != a[j] {
        if j < i { SortedAt(a, j, i); LessTransitive(a[j], a[i], b[k]); }
        LessImpliesDifferent(a[j], b[k]);
      }
    }
  }

  /**
   * The state of the marking walk of SortedArrayRemove over `a` (from `x1`) and
   * `b` (from `x2`): `m` holds the marks, `found` the marked slots, all of them
   * above `i`, and the slots above `i` are marked exactly when their string is
   * in `b`; `nbSlot` counts the marks and `minPos` is the lowest one.
   */
  ghost predicate Walk(a: seq<string>, b: seq<string>, m: seq<bool>, i: int, i2: int,
                       found: set<int>, nbSlot: nat, minPos: nat)
  {
    |m| == |a| && -1 <= i < |a| && -1 <= i2 < |b| &&
    Frontier(a, b, i, i2) &&
    (forall j :: 0 <= j < |a| ==> (m[j] <==> j in found)) &&
    (forall j :: j in found ==> i < j < |a| && minPos <= j) &&
    (forall j :: i < j < |a| ==> (j in found <==> a[j] in b)) &&
    nbSlot == |found| && i < minPos <= |a| && (minPos < |a| ==> minPos in found)
  }

  lemma WalkStart(a: seq<string>, b: seq<string>, m: seq<bool>)
    requires |a| > 0 && |b| > 0 && |m| == |a|
    requires forall j :: 0 <= j < |m| ==> !m[j]
    ensures Walk(a, b, m, |a| - 1, |b| - 1, {}, 0, |a|)
  {
  }

  lemma WalkSkipSecond(a: seq<string>, b: seq<string>, m: seq<bool>, i: nat, i2: nat,
                       found: set<int>, nbSlot: nat, minPos: nat, i2': int)
    requires StrictlySorted(a) && StrictlySorted(b)
    requires Walk(a, b, m, i, i2, found, nbSlot, minPos) && Less(a[i], b[i2]) && i2' == i2 - 1
    ensures Walk(a, b, m, i, i2', found, nbSlot, minPos)
  {
    FrontierSkipSecond(a, b, i, i2);
  }

  lemma WalkSkipFirst(a: seq<string>, b: seq<string>, m: seq<bool>, i: nat, i2: nat,
                      found: set<int>, nbSlot: nat, minPos: nat, i': int)
    requires StrictlySorted(a) && StrictlySorted(b)
    requires Walk(a, b, m, i, i2, found, nbSlot, minPos) && Less(b[i2], a[i]) && i' == i - 1
    ensures Walk(a, b, m, i', i2, found, nbSlot, minPos)
  {
    FrontierSkipFirst(a, b, i, i2);
  }

  lemma WalkMatch(a: seq<string>, b: seq<string>, m: seq<bool>, i: nat, i2: nat,
                  found: set<int>, nbSlot: nat, minPos: nat,
                  m': seq<bool>, i': int, i2': int, found': set<int>, nbSlot': nat, minPos': nat)
    requires StrictlySorted(a) && StrictlySorted(b)
    requires Walk(a, b, m, i, i2, found, nbSlot, minPos) && a[i] == b[i2]
    requires m' == m[i := true] && i' == i - 1 && i2' == i2 - 1
    requires found' == found + {i} && nbSlot' == nbSlot + 1 && minPos' == i
    ensures Walk(a, b, m', i', i2', found', nbSlot', minPos')
  {
    FrontierSkipBoth(a, b, i, i2);
    assert i !in found;
  }

  /** When either array is used up, the marks are exactly the common strings. */
  lemma WalkDone(a: seq<string>, b: seq<string>, m: seq<bool>, i: int, i2: int,
                 found: set<int>, nbSlot: nat, minPos: nat)
    requires StrictlySorted(a)
    requires Walk(a, b, m, i, i2, found, nbSlot, minPos) && (i < 0 || i2 < 0)
    ensures forall j :: 0 <= j < |a| ==> (m[j] <==> a[j] in b)
    ensures nbSlot == multiset(m)[true]
    ensures minPos <= |a| && (minPos < |a| ==> m[minPos])
    ensures forall j :: 0 <= j < minPos ==> !m[j]
  {
    if i >= 0 {
      FrontierExhausted(a, b, i);
    }
    MarksCount(m, found);
  }

  /**
   * The marking loop of SortedArrayRemove: walks both arrays from the back and
   * marks the slots of `x1` whose string is in `x2`. Returns the number of
   * marks and the lowest marked slot (`x1.Length` when none).
   */
  method MarkCommon(x1: array<string>, x2: array<string>) returns (mark: array<bool>, nbSlot: nat, minPos: nat)
    requires x1.Length > 0 && x2.Length > 0
    requires StrictlySorted(x1[..]) && StrictlySorted(x2[..])
    ensures fresh(mark) && mark.Length == x1.Length
    ensures forall j :: 0 <= j < x1.Length ==> (mark[j] <==> x1[j] in x2[..])
    ensures nbSlot == multiset(mark[..])[true]
    ensures minPos <= x1.Length
    ensures minPos < x1.Length ==> mark[minPos]
    ensures forall j :: 0 <= j < minPos ==> !mark[j]
    ensures nbSlot > 0 ==> minPos < x1.Length
  {
    var n, n2 := x1.Length, x2.Length;
    ghost var a, b := x1[..], x2[..];
    mark := new bool[n](_ => false);
    minPos := n;
    var i, i2 := n - 1, n2 - 1;
    var s, s2 := x1[i], x2[i2];
    nbSlot := 0;
    ghost var found: set<int> := {};
    WalkStart(a, b, mark[..]);
    while i >= 0 && i2 >= 0
      invariant Walk(a, b, mark[..], i, i2, found, nbSlot, minPos)
      invariant i >= 0 && i2 >= 0 ==> s == a[i] && s2 == b[i2]
      decreases i + i2
    {
      ghost var m0, i0, i20, found0, nbSlot0, minPos0 := mark[..], i, i2, found, nbSlot, minPos;
      if Less(s, s2) {
        i2 := i2 - 1;
        if i2 >= 0 { s2 := x2[i2]; }
        WalkSkipSecond(a, b, m0, i0, i20, found, nbSlot, minPos, i2);
      } else if Less(s2, s) {
        i := i - 1;
        if i >= 0 { s := x1[i]; }
        WalkSkipFirst(a, b, m0, i0, i20, found, nbSlot, minPos, i);
      } else {
        LessTotal(s, s2);
        nbSlot := nbSlot + 1;
        minPos := i;
        mark[i] := true;
        found := found + {i};
        i := i - 1;
        i2 := i2 - 1;
        if i >= 0 && i2 >= 0 {
          s := x1[i];
          s2 := x2[i2];
        }
        assert mark[..] == m0[i0 := true];
        WalkMatch(a, b, m0, i0, i20, found0, nbSlot0, minPos0, mark[..], i, i2, found, nbSlot, minPos);
      }
    }
    WalkDone(a, b, mark[..], i, i2, found, nbSlot, minPos);
    assert x1[..] == a && x2[..] == b;
    if minPos == n {
      AllFalseNoTrue(mark[..]);
    }
  }

  /**
   * The state of the compaction of SortedArrayRemove: the slots up to `pos`
   * have been read, `done` holds their unmarked strings, `count` marks remain
   * beyond `pos`, out of `total`.
   */
  ghost predicate Compacting(a: seq<string>, m: seq<bool>, total: nat, pos: nat, count: nat, done: seq<string>)
  {
    |a| == |m| && pos < |a| &&
    done == Unmarked(a[..pos + 1], m[..pos + 1]) &&
    count == multiset(m[pos + 1..])[true] &&
    multiset(m[..pos + 1])[true] + count == total &&
    |done| + multiset(m[..pos + 1])[true] == pos + 1
  }

  lemma CompactStart(a: seq<string>, m: seq<bool>, total: nat, minPos: nat)
    requires |a| == |m| && minPos < |a| && m[minPos]
    requires forall j :: 0 <= j < minPos ==> !m[j]
    requires total == multiset(m)[true]
    ensures total > 0 && minPos + total <= |a|
    ensures Compacting(a, m, total, minPos, total - 1, a[..minPos])
  {
    assert m == m[..minPos] + m[minPos..];
    AllFalseNoTrue(m[..minPos]);
    TrueCountAtMostLength(m[minPos..]);
    UnmarkedNoMarks(a[..minPos], m[..minPos]);
    assert m == m[..minPos] + [m[minPos]] + m[minPos + 1..];
    assert m[..minPos + 1] == m[..minPos] + [m[minPos]];
    UnmarkedStep(a, m, minPos);
    assert a[..minPos + 1][..minPos] == a[..minPos];
    UnmarkedLength(a[..minPos + 1], m[..minPos + 1]);
  }

  /** While marks remain, the next slot exists, and an unmarked one still fits in the result. */
  lemma CompactRoom(a: seq<string>, m: seq<bool>, total: nat, pos: nat, count: nat, done: seq<string>)
    requires Compacting(a, m, total, pos, count, done) && count != 0
    ensures pos + 1 < |a|
    ensures !m[pos + 1] ==> |done| < |a| - total
  {
    TrueCountAtMostLength(m[pos + 1..]);
    assert m[pos + 1..] == [m[pos + 1]] + m[pos + 2..];
    if !m[pos + 1] {
      TrueCountAtMostLength(m[pos + 2..]);
    }
  }

  lemma CompactStep(a: seq<string>, m: seq<bool>, total: nat, pos: nat, count: nat, done: seq<string>,
                    pos': nat, count': nat, done': seq<string>)
    requires Compacting(a, m, total, pos, count, done) && count != 0 && pos' == pos + 1 < |a|
    requires m[pos'] ==> count' == count - 1 && done' == done
    requires !m[pos'] ==> count' == count && done' == done + [a[pos']]
    ensures Compacting(a, m, total, pos', count', done')
  {
    var p := pos + 1;
    assert m[p..] == [m[p]] + m[p + 1..];
    assert m[..p + 1] == m[..p] + [m[p]];
    UnmarkedStep(a, m, p);
    assert a[..p + 1][..p] == a[..p];
    assert a[..p] == a[..pos + 1] && m[..p] == m[..pos + 1];
  }

  lemma CompactEnd(a: seq<string>, m: seq<bool>, total: nat, pos: nat, done: seq<string>)
    requires Compacting(a, m, total, pos, 0, done)
    ensures Unmarked(a, m) == done + a[pos + 1..]
    ensures |done| + (|a| - pos - 1) == |a| - total
  {
    assert m == m[..pos + 1] + m[pos + 1..];
    NoTrueMeansAllFalse(m[pos + 1..]);
    UnmarkedConcatClean(a, m, pos + 1);
  }

  /** What `Copy` leaves when it fills a destination up to its end. */
  lemma FillToEnd<T>(before: seq<T>, after: seq<T>, src: seq<T>, i: nat)
    requires i + |src| == |before|
    requires after == before[..i] + src + before[i + |src|..]
    ensures after == before[..i] + src
  {
    assert before[i + |src|..] == [];
  }

  /** Completes `dst`, whose first `i` slots hold `done`, with the strings of `src` from `from` on. */
  method CopyRest(src: array<string>, from: nat, dst: array<string>, i: nat, ghost done: seq<string>)
    requires src != dst && i == |done| && from <= src.Length && i + (src.Length - from) == dst.Length
    requires forall k :: 0 <= k < i ==> dst[k] == done[k]
    modifies dst
    ensures dst[..] == done + src[from..]
  {
    ghost var before := dst[..];
    assert before[..i] == done;
    Copy(src, from, dst, i, src.Length - from);
    FillToEnd(before, dst[..], src[from..], i);
  }

  /**
   * The middle loop of the compaction of SortedArrayRemove: walks on from the
   * first mark and appends each unmarked string to `xx` until no mark remains.
   */
  method CompactMarked(x1: array<string>, mark: array<bool>, xx: array<string>, nbSlot: nat, minPos: nat)
    returns (i: nat, pos: nat, ghost done: seq<string>)
    requires x1 != xx && nbSlot > 0 && minPos <= xx.Length == x1.Length - nbSlot
    requires Compacting(x1[..], mark[..], nbSlot, minPos, nbSlot - 1, x1[..minPos])
    requires forall k :: 0 <= k < minPos ==> xx[k] == x1[k]
    modifies xx
    ensures Compacting(x1[..], mark[..], nbSlot, pos, 0, done)
    ensures i == |done| <= xx.Length
    ensures forall k :: 0 <= k < i ==> xx[k] == done[k]
  {
    ghost var a, m := x1[..], mark[..];
    done := a[..minPos];
    var count: nat;
    i, pos, count := minPos, minPos, nbSlot - 1;
    while count != 0
      invariant x1[..] == a && mark[..] == m
      invariant Compacting(a, m, nbSlot, pos, count, done)
      invariant i == |done| <= xx.Length
      invariant forall k :: 0 <= k < i ==> xx[k] == done[k]
      decreases x1.Length - pos
    {
      CompactRoom(a, m, nbSlot, pos, count, done);
      ghost var pos0, count0, done0 := pos, count, done;
      pos := pos + 1;
      var s := x1[pos];
      if !mark[pos] {
        xx[i] := s;
        done := done + [s];
        i := i + 1;
      } else {
        count := count - 1;
      }
      CompactStep(a, m, nbSlot, pos0, count0, done0, pos, count, done);
    }
  }

  /**
   * The compaction of SortedArrayRemove: copies the slots before the first
   * mark, then the unmarked slots up to the last mark, then the rest.
   */
  method Compact(x1: array<string>, mark: array<bool>, nbSlot: nat, minPos: nat) returns (xx: array<string>)
    requires mark.Length == x1.Length
    requires minPos < x1.Length && mark[minPos]
    requires forall j :: 0 <= j < minPos ==> !mark[j]
    requires nbSlot == multiset(mark[..])[true]
    ensures xx[..] == Unmarked(x1[..], mark[..])
  {
    ghost var a, m := x1[..], mark[..];
    CompactStart(a, m, nbSlot, minPos);
    xx := new string[x1.Length - nbSlot];
    Copy(x1, 0, xx, 0, minPos);
    assert forall k :: 0 <= k < minPos ==> xx[k] == x1[0..minPos][k];
    var i, pos, done := CompactMarked(x1, mark, xx, nbSlot, minPos);
    CompactEnd(a, m, nbSlot, pos, done);
    CopyRest(x1, pos + 1, xx, i, done);
    assert x1[..] == a && mark[..] == m;
  }

  /**
   * The subtraction proper, on two non-empty arrays: marks the strings of `x1`
   * found in `x2` and, when there are some, copies the unmarked ones into a new
   * array. When nothing is marked, `x1` itself is returned.
   */
  method RemoveCommon(x1: array<string>, x2: array<string>) returns (r: array<string>)
    requires x1.Length > 0 && x2.Length > 0
    requires StrictlySorted(x1[..]) && StrictlySorted(x2[..])
    ensures r[..] == Difference(x1[..], x2[..])
    ensures |Difference(x1[..], x2[..])| == x1.Length ==> r == x1
  {
    var mark, nbSlot, minPos := MarkCommon(x1, x2);
    UnmarkedIsDifference(x1[..], mark[..], x2[..]);
    UnmarkedLength(x1[..], mark[..]);
    if nbSlot == 0 {
      NoTrueMeansAllFalse(mark[..]);
      UnmarkedNoMarks(x1[..], mark[..]);
      return x1;
    }
    var len := x1.Length - nbSlot;
    if len == 0 {
      r := new string[0];
      return;
    }
    r := Compact(x1, mark, nbSlot, minPos);
  }

  /**
   * Subtracts `x2` from `x1`. A null `x1` throws; a null or empty `x2` or an
   * empty `x1` returns `x1` itself, and so does a subtraction that removes
   * nothing. Otherwise a new array holds the elements of `x1` not in `x2`, in
   * order. `x1` is never modified.
   */
  method SortedArrayRemove(x1: array?<string>, x2: array?<string>) returns (r: Result<array<string>>)
    requires StrictlySorted(Elements(x1)) && StrictlySorted(Elements(x2))
    ensures x1 == null <==> r.Err?
    ensures r.Err? ==> r.error == ArgumentNull
    ensures x1 != null && (x2 == null || x2.Length == 0 || x1.Length == 0) ==> r == Ok(x1)
    ensures x1 != null && (forall s :: s in x1[..] ==> s !in Elements(x2)) ==> r == Ok(x1)
    ensures r.Ok? ==> r.value[..] == Difference(Elements(x1), Elements(x2))
    ensures r.Ok? ==> StrictlySorted(r.value[..])
    ensures r.Ok? ==> forall s :: s in r.value[..] <==> s in Elements(x1) && s !in Elements(x2)
  {
    if x1 == null { return Err(ArgumentNull); }
    DifferenceSorted(x1[..], Elements(x2));
    DifferenceMembers(x1[..], Elements(x2));
    if x2 == null || x2.Length == 0 || x1.Length == 0 {
      DifferenceWithNothing(x1[..], Elements(x2));
      return Ok(x1);
    }
    assert Elements(x2) == x2[..];
    if forall s :: s in x1[..] ==> s !in x2[..] {
      DifferenceWithNothing(x1[..], x2[..]);
    }
    var xx := RemoveCommon(x1, x2);
    r := Ok(xx);
  }

  // ---------------------------------------------------------------------
  // SortedArrayEquals
  // ---------------------------------------------------------------------

  /** Same reference, or two non-null arrays with the same elements in the same order. */
  method SortedArrayEquals(x1: array?<string>, x2: array?<string>) returns (r: bool)
    requires StrictlySorted(Elements(x1)) && StrictlySorted(Elements(x2))
    ensures r <==> x1 == x2 || (x1 != null && x2 != null && x1[..] == x2[..])
  {
    if x1 == x2 { return true; }
    if x1 == null || x2 == null || x1.Length != x2.Length { return false; }
    var i := 0;
    while i < x1.Length
      invariant 0 <= i <= x1.Length
      invariant x1[..i] == x2[..i]
    {
      if x1[i] != x2[i] { return false; }
      i := i + 1;
    }
    assert x1[..] == x1[..i];
    return true;
  }
}
