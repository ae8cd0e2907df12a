/** Sorting by a descending integer key, as the pages do with
    `array.sort((a, b) => key(b) - key(a))`. ECMAScript requires
    `Array.prototype.sort` to be stable, so the reference definition is a
    stable insertion sort: an element is placed after every earlier element
    whose key is at least its own. */
module Sorting {
  import opened Base

  /** Keys never increase from left to right. */
  ghost predicate SortedDesc<T>(s: seq<T>, key: T -> int)
  {
    forall i, j :: 0 <= i < j < |s| ==> key(s[i]) >= key(s[j])
  }

  /** Insert `x` into `s` after the leading elements whose key is at least `key(x)`. */
  function InsertDesc<T>(s: seq<T>, x: T, key: T -> int): seq<T>
  {
    if s == [] then [x]
    else if key(s[0]) >= key(x) then [s[0]] + InsertDesc(s[1..], x, key)
    else [x] + s
  }

  /** Stable sort into non-increasing key order. */
  function SortDesc<T>(s: seq<T>, key: T -> int): seq<T>
  {
    if s == [] then [] else InsertDesc(SortDesc(s[..|s| - 1], key), s[|s| - 1], key)
  }

  lemma {:induction false} InsertDescPerm<T>(s: seq<T>, x: T, key: T -> int)
    ensures multiset(InsertDesc(s, x, key)) == multiset(s) + multiset{x}
  {
    if s != [] && key(s[0]) >= key(x) {
      InsertDescPerm(s[1..], x, key);
      assert s == [s[0]] + s[1..];
    }
  }

  lemma {:induction false} InsertDescSorted<T>(s: seq<T>, x: T, key: T -> int)
    requires SortedDesc(s, key)
    ensures SortedDesc(InsertDesc(s, x, key), key)
  {
    if s != [] && key(s[0]) >= key(x) {
      InsertDescSorted(s[1..], x, key);
      var r := InsertDesc(s[1..], x, key);
      InsertDescPerm(s[1..], x, key);
      forall k | 0 <= k < |r| ensures key(s[0]) >= key(r[k]) {
        assert r[k] in multiset(r);
        assert r[k] in multiset(s[1..]) || r[k] == x;
        if r[k] != x {
          var m :| 0 <= m < |s[1..]| && s[1..][m] == r[k];
          assert s[m + 1] == r[k];
        }
      }
    }
  }

  /** The sort is a permutation of its input. */
  lemma {:induction false} SortDescPerm<T>(s: seq<T>, key: T -> int)
    ensures multiset(SortDesc(s, key)) == multiset(s)
  {
    if s != [] {
      SortDescPerm(s[..|s| - 1], key);
      InsertDescPerm(SortDesc(s[..|s| - 1], key), s[|s| - 1], key);
      assert s == s[..|s| - 1] + [s[|s| - 1]];
    }
  }

  /** The sort puts keys in non-increasing order. */
  lemma {:induction false} SortDescSorted<T>(s: seq<T>, key: T -> int)
    ensures SortedDesc(SortDesc(s, key), key)
  {
    if s != [] {
      SortDescSorted(s[..|s| - 1], key);
      InsertDescSorted(SortDesc(s[..|s| - 1], key), s[|s| - 1], key);
    }
  }

  lemma SortDescLength<T>(s: seq<T>, key: T -> int)
    ensures |SortDesc(s, key)| == |s|
  {
    SortDescPerm(s, key);
    assert |multiset(SortDesc(s, key))| == |multiset(s)|;
  }

  /** A page taken from a sorted result is sorted. */
  lemma SkipLimitSorted<T>(s: seq<T>, skip: int, limit: int, key: T -> int)
    requires SortedDesc(s, key)
    requires skip >= 0
    ensures SortedDesc(SkipLimit(s, skip, limit).value, key)
  {
    var r := SkipLimit(s, skip, limit).value;
    forall i, j | 0 <= i < j < |r| ensures key(r[i]) >= key(r[j]) {
      assert r[i] == s[skip + i] && r[j] == s[skip + j];
    }
  }

  /** Where the insertion sort's inner loop stops, `InsertDesc` places `x`. */
  lemma {:induction false} InsertDescAt<T>(s: seq<T>, x: T, key: T -> int, j: nat)
    requires j <= |s|
    requires SortedDesc(s, key)
    requires j > 0 ==> key(s[j - 1]) >= key(x)
    requires j < |s| ==> key(s[j]) < key(x)
    ensures InsertDesc(s, x, key) == s[..j] + [x] + s[j..]
  {
    if j > 0 {
      var t := s[1..];
      assert key(s[0]) >= key(x) by {
        if j > 1 {
          assert key(s[0]) >= key(s[j - 1]);
        }
      }
      SortedTail(s, key);
      assert j - 1 > 0 ==> t[j - 2] == s[j - 1];
      assert j - 1 < |t| ==> t[j - 1] == s[j];
      InsertDescAt(t, x, key, j - 1);
      ConsSplit(s, x, j);
    } else if s != [] {
      assert s[..0] == [];
    }
  }

  lemma SortedTail<T>(s: seq<T>, key: T -> int)
    requires s != [] && SortedDesc(s, key)
    ensures SortedDesc(s[1..], key)
  {
    var t := s[1..];
    forall a, b | 0 <= a < b < |t| ensures key(t[a]) >= key(t[b]) {
      assert t[a] == s[a + 1] && t[b] == s[b + 1];
    }
  }

  lemma ConsSplit<T>(s: seq<T>, x: T, j: nat)
    requires 0 < j <= |s|
    ensures [s[0]] + (s[1..][..j - 1] + [x] + s[1..][j - 1..]) == s[..j] + [x] + s[j..]
  {
    assert s[1..][..j - 1] == s[1..j];
    assert s[..j] == [s[0]] + s[1..j];
    assert s[1..][j - 1..] == s[j..];
  }

  /** Shift `a[i]` left past the elements of the sorted prefix `a[..i]`
      whose key is smaller, as one pass of insertion sort does. */
  method InsertInPlace<T>(a: array<T>, i: nat, key: T -> int)
    requires i < a.Length
    requires SortedDesc(a[..i], key)
    modifies a
    ensures a[..i + 1] == InsertDesc(old(a[..i]), old(a[i]), key)
    ensures a[i + 1..] == old(a[i + 1..])
  {
    ghost var sorted := a[..i];
    ghost var rest := a[i + 1..];
    var x := a[i];
    var j := i;
    while j > 0 && key(a[j - 1]) < key(x)
      invariant 0 <= j <= i
      invariant forall k :: 0 <= k < j ==> a[k] == sorted[k]
      invariant forall k :: j < k <= i ==> a[k] == sorted[k - 1]
      invariant a[i + 1..] == rest
      invariant j < i ==> key(sorted[j]) < key(x)
    {
      a[j] := a[j - 1];
      j := j - 1;
    }
    a[j] := x;
    assert j > 0 ==> key(sorted[j - 1]) >= key(x);
    InsertDescAt(sorted, x, key, j);
    ghost var r := sorted[..j] + [x] + sorted[j..];
    forall k | 0 <= k <= i ensures a[k] == r[k] {
      if k < j {
        assert r[k] == sorted[k];
      } else if k > j {
        assert r[k] == sorted[k - 1];
      }
    }
    assert a[..i + 1] == r;
  }

  /** In-place insertion sort of `a` into non-increasing key order. */
  method SortDescInPlace<T>(a: array<T>, key: T -> int)
    modifies a
    ensures a[..] == SortDesc(old(a[..]), key)
  {
    ghost var orig := a[..];
    var i := 0;
    while i < a.Length
      invariant 0 <= i <= a.Length
      invariant a[..i] == SortDesc(orig[..i], key)
      invariant a[i..] == orig[i..]
    {
      SortDescSorted(orig[..i], key);
      InsertInPlace(a, i, key);
      assert orig[..i + 1][..i] == orig[..i];
      assert orig[..i + 1][i] == orig[i];
      i := i + 1;
    }
    assert orig[..a.Length] == orig;
  }
}
