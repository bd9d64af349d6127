/**
 Lexicographic order and stable sorting by a key, the order behind `Buffer.compare`
 and JavaScript string comparison.
 */
module Ordering {
  import opened Bytes

  predicate LexLess(a: seq<int>, b: seq<int>) {
    b != [] && (a == [] || a[0] < b[0] || (a[0] == b[0] && LexLess(a[1..], b[1..])))
  }

  lemma {:induction false} LexTrichotomy(a: seq<int>, b: seq<int>)
    ensures (LexLess(a, b) && !LexLess(b, a) && a != b)
         || (!LexLess(a, b) && LexLess(b, a) && a != b)
         || (!LexLess(a, b) && !LexLess(b, a) && a == b)
  {
    if a != [] && b != [] && a[0] == b[0] {
      LexTrichotomy(a[1..], b[1..]);
      assert a == [a[0]] + a[1..] && b == [b[0]] + b[1..];
    }
  }

  /** The first difference decides; without one the shorter sequence comes first. */
  lemma {:induction false} LexLessMeaning(a: seq<int>, b: seq<int>)
    ensures LexLess(a, b) <==> exists k :: DecidesAt(a, b, k)
  {
    if b == [] {
      assert forall k :: !DecidesAt(a, b, k);
    } else if a == [] || a[0] != b[0] {
      assert LexLess(a, b) ==> DecidesAt(a, b, 0);
      if k :| DecidesAt(a, b, k) {
        if k > 0 { FirstsAgree(a, b, k); }
      }
    } else {
      LexLessMeaning(a[1..], b[1..]);
      if k :| DecidesAt(a[1..], b[1..], k) {
        DecidesLater(a, b, k);
      }
      if k :| DecidesAt(a, b, k) {
        assert k > 0;
        DecidesLater(a, b, k - 1);
      }
    }
  }

  /** The sequences agree up to position `k`, and there `a` ends or is less. */
  ghost predicate DecidesAt(a: seq<int>, b: seq<int>, k: int) {
    0 <= k <= |a| && k < |b| && a[..k] == b[..k] && (k == |a| || a[k] < b[k])
  }

  lemma FirstsAgree(a: seq<int>, b: seq<int>, k: nat)
    requires 0 < k <= |a| && k <= |b| && a[..k] == b[..k]
    ensures a[0] == b[0]
  {
    assert a[0] == a[..k][0] == b[..k][0] == b[0];
  }

  lemma DecidesLater(a: seq<int>, b: seq<int>, k: nat)
    requires a != [] && b != [] && a[0] == b[0]
    ensures DecidesAt(a, b, k + 1) <==> DecidesAt(a[1..], b[1..], k)
  {
    if k + 1 <= |a| && k + 1 < |b| {
      assert a[..k + 1] == [a[0]] + a[1..][..k] && b[..k + 1] == [b[0]] + b[1..][..k];
      assert a[..k + 1][1..] == a[1..][..k] && b[..k + 1][1..] == b[1..][..k];
    }
  }

  lemma {:induction false} LexTransitive(a: seq<int>, b: seq<int>, c: seq<int>)
    requires LexLess(a, b) && LexLess(b, c)
    ensures LexLess(a, c)
  {
    if a != [] && a[0] == b[0] == c[0] {
      LexTransitive(a[1..], b[1..], c[1..]);
    }
  }

  /** Between digit sequences of one length, lexicographic order is numeric order. */
  lemma {:induction false} LexIsNumeric(base: nat, a: seq<int>, b: seq<int>)
    requires base > 0 && |a| == |b| && IsDigits(base, a) && IsDigits(base, b)
    ensures LexLess(a, b) <==> Value(base, a) < Value(base, b)
    decreases |a|
  {
    if a != [] {
      var n := |a| - 1;
      LexIsNumeric(base, a[..n], b[..n]);
      LexIsNumeric(base, b[..n], a[..n]);
      LexTrichotomy(a[..n], b[..n]);
      LexSplitLast(a, b);
      var u, v := Value(base, a[..n]), Value(base, b[..n]);
      ValuesDiffer(base, a[..n], b[..n]);
      LastDigit(base, u, a[n], v, b[n]);
    }
  }

  lemma ValuesDiffer(base: nat, a: seq<int>, b: seq<int>)
    requires LexLess(a, b) <==> Value(base, a) < Value(base, b)
    requires LexLess(b, a) <==> Value(base, b) < Value(base, a)
    ensures Value(base, a) == Value(base, b) <==> a == b
  {
    LexTrichotomy(a, b);
  }

  lemma LastDigit(base: nat, u: int, p: int, v: int, q: int)
    requires 0 <= p < base && 0 <= q < base
    ensures u * base + p < v * base + q <==> u < v || (u == v && p < q)
  {
    if u < v {
      MulMonotone(u + 1, v, base);
    } else if v < u {
      MulMonotone(v + 1, u, base);
    }
  }

  lemma {:induction false} LexSplitLast(a: seq<int>, b: seq<int>)
    requires |a| == |b| > 0
    ensures var n := |a| - 1;
            LexLess(a, b) <==> LexLess(a[..n], b[..n]) || (a[..n] == b[..n] && a[n] < b[n])
  {
    var n := |a| - 1;
    if n > 0 {
      assert a[1..][..n - 1] == a[..n][1..] && b[1..][..n - 1] == b[..n][1..];
      if a[0] == b[0] {
        LexSplitLast(a[1..], b[1..]);
        assert a[..n] == [a[0]] + a[..n][1..] && b[..n] == [b[0]] + b[..n][1..];
      } else {
        assert a[..n][0] != b[..n][0];
      }
    }
  }

  // ---- Sorting ----

  function Insert<T>(key: T -> seq<int>, x: T, s: seq<T>): seq<T> {
    if s == [] then [x]
    else if LexLess(key(x), key(s[0])) then [x] + s
    else [s[0]] + Insert(key, x, s[1..])
  }

  /** `s.sort(compare)` for the comparison of keys: stable and ascending. */
  function SortBy<T>(key: T -> seq<int>, s: seq<T>): seq<T> {
    if s == [] then [] else Insert(key, s[|s| - 1], SortBy(key, s[..|s| - 1]))
  }

  /** Adjacent keys do not descend. */
  ghost predicate Sorted<T>(key: T -> seq<int>, s: seq<T>) {
    forall i :: 0 < i < |s| ==> !LexLess(key(s[i]), key(s[i - 1]))
  }

  /** Adjacent keys ascend. */
  ghost predicate StrictlySorted<T>(key: T -> seq<int>, s: seq<T>) {
    forall i :: 0 < i < |s| ==> LexLess(key(s[i - 1]), key(s[i]))
  }

  lemma {:induction false} InsertSorted<T>(key: T -> seq<int>, x: T, s: seq<T>)
    requires Sorted(key, s)
    ensures Sorted(key, Insert(key, x, s))
    ensures multiset(Insert(key, x, s)) == multiset(s) + multiset{x}
    ensures s != [] && !LexLess(key(x), key(s[0])) ==> Insert(key, x, s)[0] == s[0]
  {
    if s == [] {
    } else if LexLess(key(x), key(s[0])) {
      LexTrichotomy(key(x), key(s[0]));
      assert multiset([x] + s) == multiset{x} + multiset(s);
    } else {
      var rest := Insert(key, x, s[1..]);
      InsertSorted(key, x, s[1..]);
      assert s == [s[0]] + s[1..];
      assert rest[0] == x || (s[1..] != [] && rest[0] == s[1]);
    }
  }

  lemma {:induction false} SortBySorts<T>(key: T -> seq<int>, s: seq<T>)
    ensures Sorted(key, SortBy(key, s)) && multiset(SortBy(key, s)) == multiset(s)
  {
    if s != [] {
      SortBySorts(key, s[..|s| - 1]);
      InsertSorted(key, s[|s| - 1], SortBy(key, s[..|s| - 1]));
      assert s == s[..|s| - 1] + [s[|s| - 1]];
    }
  }

  /** The values with a given key, in order. */
  function WithKey<T>(key: T -> seq<int>, s: seq<T>, k: seq<int>): seq<T> {
    if s == [] then [] else (if key(s[0]) == k then [s[0]] else []) + WithKey(key, s[1..], k)
  }

  lemma {:induction false} InsertStable<T>(key: T -> seq<int>, x: T, s: seq<T>, k: seq<int>)
    requires Sorted(key, s)
    ensures WithKey(key, Insert(key, x, s), k) == WithKey(key, s, k) + if key(x) == k then [x] else []
  {
    if s == [] {
      WithKeyCons(key, x, s, k);
    } else if LexLess(key(x), key(s[0])) {
      WithKeyCons(key, x, s, k);
      if key(x) == k { NoneBelow(key, s, k); }
    } else {
      InsertStable(key, x, s[1..], k);
      WithKeyCons(key, s[0], s[1..], k);
      WithKeyCons(key, s[0], Insert(key, x, s[1..]), k);
      assert s == [s[0]] + s[1..];
    }
  }

  lemma WithKeyCons<T>(key: T -> seq<int>, x: T, s: seq<T>, k: seq<int>)
    ensures WithKey(key, [x] + s, k) == (if key(x) == k then [x] else []) + WithKey(key, s, k)
  {
    assert ([x] + s)[1..] == s;
  }

  /** No value of a sorted list has a key below the first one's. */
  lemma {:induction false} NoneBelow<T>(key: T -> seq<int>, s: seq<T>, k: seq<int>)
    requires Sorted(key, s) && (s != [] ==> LexLess(k, key(s[0])))
    ensures WithKey(key, s, k) == []
  {
    if s != [] {
      LexTrichotomy(k, key(s[0]));
      if |s| > 1 {
        LexTrichotomy(key(s[0]), key(s[1]));
        if key(s[0]) != key(s[1]) { LexTransitive(k, key(s[0]), key(s[1])); }
      }
      NoneBelow(key, s[1..], k);
    }
  }

  lemma {:induction false} WithKeySnoc<T>(key: T -> seq<int>, s: seq<T>, x: T, k: seq<int>)
    ensures WithKey(key, s + [x], k) == WithKey(key, s, k) + if key(x) == k then [x] else []
  {
    if s == [] {
      assert s + [x] == [x] && [x][1..] == [];
    } else {
      WithKeySnoc(key, s[1..], x, k);
      assert (s + [x])[1..] == s[1..] + [x];
    }
  }

  /** Values with equal keys keep their order. */
  lemma {:induction false} SortIsStable<T>(key: T -> seq<int>, s: seq<T>, k: seq<int>)
    ensures WithKey(key, SortBy(key, s), k) == WithKey(key, s, k)
  {
    if s != [] {
      var init, last := s[..|s| - 1], s[|s| - 1];
      SortIsStable(key, init, k);
      SortOneMore(key, init, last, k);
      assert s == init + [last];
    }
  }

  lemma SortOneMore<T>(key: T -> seq<int>, init: seq<T>, last: T, k: seq<int>)
    requires WithKey(key, SortBy(key, init), k) == WithKey(key, init, k)
    ensures WithKey(key, SortBy(key, init + [last]), k) == WithKey(key, init + [last], k)
  {
    var s := init + [last];
    assert s[..|s| - 1] == init && s[|s| - 1] == last;
    SortBySorts(key, init);
    InsertStable(key, last, SortBy(key, init), k);
    WithKeySnoc(key, init, last, k);
  }

  lemma {:induction false} StrictlyBelow<T>(key: T -> seq<int>, s: seq<T>, i: nat, j: nat)
    requires StrictlySorted(key, s) && i < j < |s|
    ensures LexLess(key(s[i]), key(s[j]))
    decreases j
  {
    if i + 1 < j {
      StrictlyBelow(key, s, i, j - 1);
      LexTransitive(key(s[i]), key(s[j - 1]), key(s[j]));
    }
  }

  /** A set has one strictly ascending listing. */
  lemma {:induction false} StrictListingUnique<T>(key: T -> seq<int>, s: seq<T>, t: seq<T>)
    requires StrictlySorted(key, s) && StrictlySorted(key, t)
    requires forall x :: x in s <==> x in t
    ensures s == t
  {
    assert t != [] ==> t[0] in s;
    assert s != [] ==> s[0] in t;
    if s != [] {
      HeadIsLeast(key, s, t[0]);
      HeadIsLeast(key, t, s[0]);
      LexTrichotomy(key(s[0]), key(t[0]));
      assert s[0] == t[0];
      TailElements(key, s);
      TailElements(key, t);
      StrictListingUnique(key, s[1..], t[1..]);
      assert s == [s[0]] + s[1..] && t == [t[0]] + t[1..];
    }
  }

  lemma HeadIsLeast<T>(key: T -> seq<int>, s: seq<T>, x: T)
    requires StrictlySorted(key, s) && x in s
    ensures x == s[0] || LexLess(key(s[0]), key(x))
  {
    var j :| 0 <= j < |s| && s[j] == x;
    if j > 0 { StrictlyBelow(key, s, 0, j); }
  }

  lemma TailElements<T>(key: T -> seq<int>, s: seq<T>)
    requires StrictlySorted(key, s) && s != []
    ensures StrictlySorted(key, s[1..])
    ensures forall x :: x in s[1..] <==> x in s && x != s[0]
  {
    forall j | 0 < j < |s| ensures s[j] != s[0] {
      StrictlyBelow(key, s, 0, j);
      LexTrichotomy(key(s[0]), key(s[j]));
    }
    forall x | x in s && x != s[0] ensures x in s[1..] {
      var j :| 0 <= j < |s| && s[j] == x;
      assert s[1..][j - 1] == x;
    }
  }

  /** Distinct keys sort into strictly ascending order. */
  lemma DistinctKeysSortStrictly<T(!new)>(key: T -> seq<int>, s: seq<T>)
    requires forall i, j :: 0 <= i < j < |s| ==> key(s[i]) != key(s[j])
    ensures StrictlySorted(key, SortBy(key, s))
  {
    SortBySorts(key, s);
    var t := SortBy(key, s);
    forall i | 0 < i < |t| ensures LexLess(key(t[i - 1]), key(t[i])) {
      LexTrichotomy(key(t[i - 1]), key(t[i]));
      if key(t[i - 1]) == key(t[i]) {
        DuplicateKeyInPermutation(key, s, t, i);
      }
    }
  }

  lemma DuplicateKeyInPermutation<T(!new)>(key: T -> seq<int>, s: seq<T>, t: seq<T>, i: nat)
    requires multiset(s) == multiset(t) && 0 < i < |t| && key(t[i - 1]) == key(t[i])
    ensures exists j, k :: 0 <= j < k < |s| && key(s[j]) == key(s[k])
  {
    var x, y := t[i - 1], t[i];
    TwoNeighbours(t, i);
    if x == y {
      var j, k := TwoPlaces(s, x);
      assert key(s[j]) == key(s[k]);
    } else {
      assert x in multiset(s) && y in multiset(s);
      var j :| 0 <= j < |s| && s[j] == x;
      var k :| 0 <= k < |s| && s[k] == y;
      assert key(s[if j < k then j else k]) == key(s[if j < k then k else j]);
    }
  }

  lemma TwoNeighbours<T>(t: seq<T>, i: nat)
    requires 0 < i < |t|
    ensures t[i - 1] in multiset(t) && t[i] in multiset(t)
    ensures t[i - 1] == t[i] ==> multiset(t)[t[i]] >= 2
  {
    var x, y := t[i - 1], t[i];
    assert t == t[..i - 1] + [x, y] + t[i + 1..];
    assert multiset(t) == multiset(t[..i - 1]) + multiset{x, y} + multiset(t[i + 1..]);
  }

  /** A value that occurs at least twice stands at two places. */
  lemma TwoPlaces<T>(s: seq<T>, x: T) returns (j: nat, k: nat)
    requires multiset(s)[x] >= 2
    ensures j < k < |s| && s[j] == x && s[k] == x
  {
    assert x in multiset(s);
    j :| 0 <= j < |s| && s[j] == x;
    assert s == s[..j] + [x] + s[j + 1..];
    assert multiset(s) == multiset(s[..j]) + multiset{x} + multiset(s[j + 1..]);
    if x in multiset(s[..j]) {
      var i :| 0 <= i < j && s[..j][i] == x;
      j, k := i, j;
    } else {
      assert x in multiset(s[j + 1..]);
      var i :| 0 <= i < |s| - j - 1 && s[j + 1..][i] == x;
      k := j + 1 + i;
    }
  }
}
