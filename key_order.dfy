/**
 * The driver registry's keys: root paths kept sorted under
 * `StringComparer.OrdinalIgnoreCase`, with the sorted list's lookup,
 * insertion, and the downward search for the closest containing driver.
 */
module KeyOrder {
  import opened Common

  /** Two keys are equal under `OrdinalIgnoreCase`. */
  predicate SameKey(a: string, b: string) {
    UpperString(a) == UpperString(b)
  }

  /** Strictly increasing under `OrdinalIgnoreCase`: no two keys are the same. */
  predicate Sorted(ks: seq<string>) {
    forall i, j :: 0 <= i < j < |ks| ==> LessIgnoreCase(ks[i], ks[j])
  }

  /** The insertion point of `key`: the number of leading keys that come before it. */
  function Position(ks: seq<string>, key: string): (p: nat)
    ensures p <= |ks|
    ensures forall i :: 0 <= i < p ==> LessIgnoreCase(ks[i], key)
    ensures p < |ks| ==> !LessIgnoreCase(ks[p], key)
    decreases |ks|
  {
    if |ks| == 0 || !LessIgnoreCase(ks[0], key) then 0
    else
      var p := Position(ks[1..], key);
      assert forall i :: 1 <= i < p + 1 ==> ks[i] == ks[1..][i - 1];
      p + 1
  }

  /** The first index holding `key`, or -1. */
  function FindKey(ks: seq<string>, key: string): (i: int)
    ensures -1 <= i < |ks|
    ensures i >= 0 ==> SameKey(ks[i], key)
    ensures i < 0 ==> forall j :: 0 <= j < |ks| ==> !SameKey(ks[j], key)
    decreases |ks|
  {
    if |ks| == 0 then -1
    else if SameKey(ks[0], key) then 0
    else
      var i := FindKey(ks[1..], key);
      assert forall j :: 1 <= j < |ks| ==> ks[j] == ks[1..][j - 1];
      if i < 0 then -1 else i + 1
  }

  /**
   * The sorted list's `IndexOf`: the index of `key` when present, otherwise
   * the bitwise complement (`-p - 1`) of its insertion point `p`.
   */
  function IndexOf(ks: seq<string>, key: string): (r: int)
    ensures r >= 0 ==> r < |ks| && SameKey(ks[r], key)
    ensures r < 0 ==> -r - 1 == Position(ks, key) && forall j :: 0 <= j < |ks| ==> !SameKey(ks[j], key)
  {
    var i := FindKey(ks, key);
    if i >= 0 then i else -(Position(ks, key) as int) - 1
  }

  /** In a sorted list, every key from the insertion point on comes after an absent `key`. */
  lemma AfterPosition(ks: seq<string>, key: string)
    requires Sorted(ks) && FindKey(ks, key) < 0
    ensures forall i :: Position(ks, key) <= i < |ks| ==> LessIgnoreCase(key, ks[i])
  {
    var p := Position(ks, key);
    forall i | p <= i < |ks| ensures LessIgnoreCase(key, ks[i]) {
      assert !LessIgnoreCase(ks[i], key) by {
        if i > p && LessIgnoreCase(ks[i], key) {
          LessTransitive(UpperString(ks[p]), UpperString(ks[i]), UpperString(key));
        }
      }
      LessTotal(UpperString(ks[i]), UpperString(key));
    }
  }

  /** `Add` on the sorted list: an absent key goes to its insertion point; a present one is refused. */
  function InsertKey(ks: seq<string>, key: string): (r: seq<string>)
    ensures |r| == if FindKey(ks, key) >= 0 then |ks| else |ks| + 1
    ensures exists i :: 0 <= i < |r| && SameKey(r[i], key)
    ensures forall x :: x in ks ==> x in r
  {
    if FindKey(ks, key) >= 0 then ks
    else
      var p := Position(ks, key);
      var r := ks[..p] + [key] + ks[p..];
      assert r[p] == key;
      assert ks == ks[..p] + ks[p..];
      r
  }

  /** Insertion keeps the list sorted and adds exactly the new key. */
  lemma InsertKeySorted(ks: seq<string>, key: string)
    requires Sorted(ks)
    ensures Sorted(InsertKey(ks, key))
    ensures FindKey(ks, key) >= 0 ==> InsertKey(ks, key) == ks
    ensures FindKey(ks, key) < 0 ==> multiset(InsertKey(ks, key)) == multiset(ks) + multiset{key}
  {
    if FindKey(ks, key) < 0 {
      var p := Position(ks, key);
      assert Sorted(ks[..p] + [key] + ks[p..]) by {
        AfterPosition(ks, key);
        InsertAtSorted(ks, key, p);
      }
      InsertAtCounts(ks, key, p);
    }
  }

  /** Inserting at any position adds exactly the inserted key. */
  lemma InsertAtCounts(ks: seq<string>, key: string, p: nat)
    requires p <= |ks|
    ensures multiset(ks[..p] + [key] + ks[p..]) == multiset(ks) + multiset{key}
  {
    assert ks == ks[..p] + ks[p..];
  }

  /** A key greater than everything before `p` and less than everything from `p` on can go at `p`. */
  lemma InsertAtSorted(ks: seq<string>, key: string, p: nat)
    requires Sorted(ks) && p <= |ks|
    requires forall i :: 0 <= i < p ==> LessIgnoreCase(ks[i], key)
    requires forall i :: p <= i < |ks| ==> LessIgnoreCase(key, ks[i])
    ensures Sorted(ks[..p] + [key] + ks[p..])
  {
    var r := ks[..p] + [key] + ks[p..];
    assert forall i :: 0 <= i < p ==> r[i] == ks[i];
    assert r[p] == key;
    assert forall i :: p < i < |r| ==> r[i] == ks[i - 1];
    forall i, j | 0 <= i < j < |r| ensures LessIgnoreCase(r[i], r[j]) {
      if i < p && j > p {
        LessTransitive(UpperString(r[i]), UpperString(key), UpperString(r[j]));
      }
    }
  }

  /**
   * `FindClosestDriver`'s downward search below the insertion point `p`:
   * the first key, going down, that is a case-insensitive prefix of `path`,
   * or index 0.
   */
  function ClosestBelow(ks: seq<string>, path: string, p: nat): (j: nat)
    requires 0 < p <= |ks|
    ensures j < p
    ensures j > 0 ==> StartsWithIgnoreCase(path, ks[j])
    ensures forall k :: j < k < p ==> !StartsWithIgnoreCase(path, ks[k])
    decreases p
  {
    if p - 1 == 0 || StartsWithIgnoreCase(path, ks[p - 1]) then p - 1
    else ClosestBelow(ks, path, p - 1)
  }

  /** Of two prefixes of the same string, the shorter is a prefix of the longer. */
  lemma PrefixesNest(a: string, b: string, s: string)
    requires a <= s && b <= s && |a| <= |b|
    ensures a <= b
  {
    assert a == s[..|a|] && b == s[..|b|];
    assert b[..|a|] == a;
  }

  /** A key that is a case-insensitive proper prefix of `path` comes before it. */
  lemma PrefixComesBefore(key: string, path: string)
    requires StartsWithIgnoreCase(path, key) && !SameKey(key, path)
    ensures LessIgnoreCase(key, path)
  {
    StartsWithIgnoreCaseIsPrefixOfUpper(path, key);
    ProperPrefixIsLess(UpperString(key), UpperString(path));
  }

  /**
   * When `path` is not itself a key, the downward search from its insertion
   * point stops at the longest key that is a case-insensitive prefix of
   * `path`; the empty key at index 0 is the fallback.
   */
  lemma ClosestIsLongestPrefix(ks: seq<string>, path: string)
    requires Sorted(ks) && |ks| > 0 && ks[0] == [] && FindKey(ks, path) < 0
    ensures Position(ks, path) > 0
    ensures var j := ClosestBelow(ks, path, Position(ks, path));
            && StartsWithIgnoreCase(path, ks[j])
            && forall k :: 0 <= k < |ks| && StartsWithIgnoreCase(path, ks[k]) ==> |ks[k]| <= |ks[j]|
  {
    assert !SameKey(ks[0], path);
    assert StartsWithIgnoreCase(path, ks[0]);
    PrefixComesBefore(ks[0], path);
    var p := Position(ks, path);
    var j := ClosestBelow(ks, path, p);
    AfterPosition(ks, path);
    forall k | 0 <= k < |ks| && StartsWithIgnoreCase(path, ks[k]) ensures |ks[k]| <= |ks[j]| {
      assert !SameKey(ks[k], path);
      PrefixComesBefore(ks[k], path);
      LessAsymmetric(UpperString(path), UpperString(ks[k]));
      assert k < p;
      if k < j && |ks[k]| > |ks[j]| {
        var uk, uj, up := UpperString(ks[k]), UpperString(ks[j]), UpperString(path);
        StartsWithIgnoreCaseIsPrefixOfUpper(path, ks[k]);
        StartsWithIgnoreCaseIsPrefixOfUpper(path, ks[j]);
        PrefixesNest(uj, uk, up);
        assert uj != uk;
        ProperPrefixIsLess(uj, uk);
        LessAsymmetric(uk, uj);
      }
    }
  }

  /** The empty key comes before every other key, so a sorted list that holds it holds it first. */
  lemma EmptyKeyFirst(ks: seq<string>, key: string)
    requires Sorted(ks) && |ks| > 0 && ks[0] == [] && |key| > 0
    ensures FindKey(ks, key) < 0 ==> Position(ks, key) > 0
    ensures InsertKey(ks, key)[0] == []
  {
    assert LessIgnoreCase(ks[0], key);
  }

  /**
   * `FindClosestDriver` on the keys: a path that is itself a key goes to
   * index 0 (the parent of every container); any other path to the longest
   * key that is a case-insensitive prefix of it, index 0 failing any other.
   */
  function ClosestKey(ks: seq<string>, path: string): (j: nat)
    requires Sorted(ks) && |ks| > 0 && ks[0] == [] && |path| > 0
    ensures j < |ks|
    ensures FindKey(ks, path) >= 0 ==> j == 0
    ensures FindKey(ks, path) < 0 ==> StartsWithIgnoreCase(path, ks[j])
    ensures FindKey(ks, path) < 0 ==>
              forall k :: 0 <= k < |ks| && StartsWithIgnoreCase(path, ks[k]) ==> |ks[k]| <= |ks[j]|
  {
    var i := IndexOf(ks, path);
    assert i != 0 by {
      assert |UpperString(ks[0])| != |UpperString(path)|;
    }
    if i > 0 then 0
    else
      ClosestIsLongestPrefix(ks, path);
      ClosestBelow(ks, path, -i - 1)
  }
}
