/** List utilities that mirror the JavaScript array methods the application
    relies on (`filter`, `sort` with a numeric comparator, `slice(0, n)`),
    each stated and proved once. */
module Util {

  datatype Option<T> = None | Some(value: T)

  /** `r` is obtained from `s` by deleting elements, so `r` keeps the
      relative order of `s`. */
  ghost predicate IsSubsequence<T>(r: seq<T>, s: seq<T>)
    decreases |s|
  {
    if r == [] then true
    else if s == [] then false
    else if r[0] == s[0] then IsSubsequence(r[1..], s[1..])
    else IsSubsequence(r, s[1..])
  }

  /** `Array.prototype.filter`: the elements of `s` satisfying `p`, in order. */
  function Filter<T(!new)>(s: seq<T>, p: T -> bool): (r: seq<T>)
    ensures |r| <= |s|
    ensures forall x :: x in r <==> x in s && p(x)
    ensures IsSubsequence(r, s)
  {
    if s == [] then []
    else if p(s[0]) then [s[0]] + Filter(s[1..], p)
    else Filter(s[1..], p)
  }

  /** A filter keeps every occurrence of the elements it keeps: with
      `IsSubsequence`, this determines its result. */
  lemma {:induction false} FilterCount<T(!new)>(s: seq<T>, p: T -> bool)
    ensures forall x :: multiset(Filter(s, p))[x] == if p(x) then multiset(s)[x] else 0
  {
    if s != [] {
      FilterCount(s[1..], p);
      assert s == [s[0]] + s[1..];
    }
  }

  /** Every sequence is a subsequence of itself. */
  lemma {:induction false} SubsequenceRefl<T>(s: seq<T>)
    ensures IsSubsequence(s, s)
    decreases |s|
  {
    if s != [] {
      SubsequenceRefl(s[1..]);
    }
  }

  /** Deleting from a subsequence gives a subsequence. */
  lemma {:induction false} SubsequenceTrans<T>(a: seq<T>, b: seq<T>, c: seq<T>)
    requires IsSubsequence(a, b) && IsSubsequence(b, c)
    ensures IsSubsequence(a, c)
    decreases |c|
  {
    if a != [] {
      if b[0] == c[0] {
        if a[0] == b[0] {
          SubsequenceTrans(a[1..], b[1..], c[1..]);
        } else {
          SubsequenceTrans(a, b[1..], c[1..]);
          SubsequenceExtend(a, c);
        }
      } else {
        SubsequenceTrans(a, b, c[1..]);
        SubsequenceExtend(a, c);
      }
    }
  }

  /** A subsequence of the tail is a subsequence of the whole. */
  lemma {:induction false} SubsequenceExtend<T>(a: seq<T>, s: seq<T>)
    requires s != [] && IsSubsequence(a, s[1..])
    ensures IsSubsequence(a, s)
    decreases |s|, 0
  {
    if a != [] && a[0] == s[0] {
      SubsequenceDropHead(a, s[1..]);
    }
  }

  /** Dropping the first element of a subsequence keeps it a subsequence. */
  lemma {:induction false} SubsequenceDropHead<T>(r: seq<T>, s: seq<T>)
    requires r != [] && IsSubsequence(r, s)
    ensures IsSubsequence(r[1..], s)
    decreases |s|, 1
  {
    if r[0] == s[0] {
      SubsequenceExtend(r[1..], s);
    } else {
      SubsequenceDropHead(r, s[1..]);
      SubsequenceExtend(r[1..], s);
    }
  }

  /** A filter whose predicate holds everywhere returns its input unchanged. */
  lemma {:induction false} FilterAll<T(!new)>(s: seq<T>, p: T -> bool)
    requires forall x :: x in s ==> p(x)
    ensures Filter(s, p) == s
  {
    if s != [] {
      FilterAll(s[1..], p);
    }
  }

  /** Filtering twice with the same predicate is filtering once. */
  lemma FilterIdempotent<T(!new)>(s: seq<T>, p: T -> bool)
    ensures Filter(Filter(s, p), p) == Filter(s, p)
  {
    FilterAll(Filter(s, p), p);
  }

  /** Filtering distributes over concatenation. */
  lemma {:induction false} FilterAppend<T(!new)>(a: seq<T>, b: seq<T>, p: T -> bool)
    ensures Filter(a + b, p) == Filter(a, p) + Filter(b, p)
  {
    if a == [] {
      assert a + b == b;
    } else {
      assert (a + b)[1..] == a[1..] + b;
      FilterAppend(a[1..], b, p);
    }
  }

  /** Filters with predicates that agree everywhere agree. */
  lemma {:induction false} FilterExt<T(!new)>(s: seq<T>, p: T -> bool, q: T -> bool)
    requires forall x :: p(x) == q(x)
    ensures Filter(s, p) == Filter(s, q)
  {
    if s != [] {
      FilterExt(s[1..], p, q);
    }
  }

  /** No element occurs twice. */
  predicate NoDuplicates<T(==)>(s: seq<T>)
  {
    forall i, j :: 0 <= i < j < |s| ==> s[i] != s[j]
  }

  /** Filtering a duplicate-free list leaves it duplicate-free. */
  lemma {:induction false} FilterNoDuplicates<T(!new)>(s: seq<T>, p: T -> bool)
    requires NoDuplicates(s)
    ensures NoDuplicates(Filter(s, p))
  {
    if s != [] {
      FilterNoDuplicates(s[1..], p);
      var rest := Filter(s[1..], p);
      if p(s[0]) {
        var r := [s[0]] + rest;
        forall i, j | 0 <= i < j < |r| ensures r[i] != r[j] {
          if i == 0 {
            assert r[j] in rest;
          } else {
            assert r[i] == rest[i - 1] && r[j] == rest[j - 1];
          }
        }
      }
    }
  }

  /** The keys of `s` are in ascending order. */
  ghost predicate SortedBy<T>(s: seq<T>, key: T -> int)
  {
    forall i, j :: 0 <= i < j < |s| ==> key(s[i]) <= key(s[j])
  }

  /** The number of leading elements of `s` whose key is not larger than
      `key(x)`: where `x` goes in a key-ordered `s`, after the equal keys. */
  function InsertPos<T>(s: seq<T>, x: T, key: T -> int): (j: nat)
    ensures j <= |s|
    ensures forall k :: 0 <= k < j ==> key(s[k]) <= key(x)
    ensures j < |s| ==> key(s[j]) > key(x)
  {
    if s == [] || key(x) < key(s[0]) then 0
    else
      var j := InsertPos(s[1..], x, key);
      assert forall k :: 0 < k < j + 1 ==> s[k] == s[1..][k - 1];
      j + 1
  }

  /** Inserts `x` into the key-ordered `s` after every element whose key is
      not larger, so that equal keys keep their arrival order. */
  function InsertByKey<T>(s: seq<T>, x: T, key: T -> int): (r: seq<T>)
    ensures multiset(r) == multiset(s) + multiset{x}
    ensures |r| == |s| + 1
  {
    var j := InsertPos(s, x, key);
    assert s == s[..j] + s[j..];
    s[..j] + [x] + s[j..]
  }

  /** In a key-ordered sequence the insertion point is the only position
      separating the keys not larger than `key(x)` from the larger ones. */
  lemma InsertByKeyAt<T>(s: seq<T>, x: T, key: T -> int, j: nat)
    requires SortedBy(s, key) && j <= |s|
    requires j == 0 || key(s[j - 1]) <= key(x)
    requires forall k :: j <= k < |s| ==> key(s[k]) > key(x)
    ensures InsertByKey(s, x, key) == s[..j] + [x] + s[j..]
  {
    var p := InsertPos(s, x, key);
    assert forall k :: 0 <= k < j ==> key(s[k]) <= key(x) by {
      forall k | 0 <= k < j ensures key(s[k]) <= key(x) {
        assert key(s[k]) <= key(s[j - 1]);
      }
    }
  }

  /** Insertion keeps a key-ordered sequence key-ordered. */
  lemma InsertByKeySorted<T>(s: seq<T>, x: T, key: T -> int)
    requires SortedBy(s, key)
    ensures SortedBy(InsertByKey(s, x, key), key)
  {
    var j := InsertPos(s, x, key);
    var r := InsertByKey(s, x, key);
    forall a, b | 0 <= a < b < |r| ensures key(r[a]) <= key(r[b]) {
      if b < j || a > j {
        var a', b' := if a < j then a else a - 1, if b < j then b else b - 1;
        assert r[a] == s[a'] && r[b] == s[b'];
      } else if a == j {
        assert r[b] == s[b - 1];
      } else if b == j {
        assert r[a] == s[a];
      } else {
        assert r[a] == s[a] && r[b] == s[b - 1];
      }
    }
  }

  /** A stable sort of `s` by ascending key (insertion sort), the model of
      `Array.prototype.sort` with a numeric comparator. */
  function SortByKey<T>(s: seq<T>, key: T -> int): (r: seq<T>)
    ensures SortedBy(r, key)
    ensures multiset(r) == multiset(s)
    ensures |r| == |s|
  {
    if s == [] then []
    else
      var init := s[..|s| - 1];
      assert s == init + [s[|s| - 1]];
      var sorted := SortByKey(init, key);
      InsertByKeySorted(sorted, s[|s| - 1], key);
      var r := InsertByKey(sorted, s[|s| - 1], key);
      assert multiset(s) == multiset(init) + multiset{s[|s| - 1]};
      assert |r| == |multiset(r)| == |multiset(s)| == |s|;
      r
  }

  /** The sort is stable: the elements with any one key come out in the
      order they went in. */
  lemma {:induction false} SortByKeyStable<T(!new)>(s: seq<T>, key: T -> int, p: T -> bool, k: int)
    requires forall x :: p(x) <==> key(x) == k
    ensures Filter(SortByKey(s, key), p) == Filter(s, p)
    decreases |s|
  {
    if s != [] {
      var init, last := s[..|s| - 1], s[|s| - 1];
      assert s == init + [last];
      SortByKeyStable(init, key, p, k);
      InsertStable(SortByKey(init, key), last, key, p, k);
      FilterAppend(init, [last], p);
    }
  }

  /** Inserting `x` into a key-ordered sequence puts it after every element
      with its key. */
  lemma InsertStable<T(!new)>(sorted: seq<T>, x: T, key: T -> int, p: T -> bool, k: int)
    requires SortedBy(sorted, key)
    requires forall y :: p(y) <==> key(y) == k
    ensures Filter(InsertByKey(sorted, x, key), p) == Filter(sorted, p) + Filter([x], p)
  {
    var j := InsertPos(sorted, x, key);
    assert sorted == sorted[..j] + sorted[j..];
    assert InsertByKey(sorted, x, key) == sorted[..j] + [x] + sorted[j..];
    if p(x) {
      LargerKeysDropped(sorted, key, p, j);
      InsertKept(sorted[..j], x, sorted[j..], p);
    } else {
      InsertDropped(sorted[..j], x, sorted[j..], p);
    }
  }

  lemma InsertKept<T(!new)>(before: seq<T>, x: T, after: seq<T>, p: T -> bool)
    requires Filter(after, p) == []
    ensures Filter(before + [x] + after, p) == Filter(before + after, p) + Filter([x], p)
  {
    FilterAround(before, x, after, p);
    var fb, fx := Filter(before, p), Filter([x], p);
    assert fb + fx + [] == fb + fx;
    assert fb + [] == fb;
  }

  lemma InsertDropped<T(!new)>(before: seq<T>, x: T, after: seq<T>, p: T -> bool)
    requires !p(x)
    ensures Filter(before + [x] + after, p) == Filter(before + after, p) + Filter([x], p)
  {
    var fb, fa := Filter(before, p), Filter(after, p);
    calc {
      Filter(before + [x] + after, p);
    == { FilterAround(before, x, after, p); FilterSingle(x, p); }
      fb + [] + fa;
    == { assert fb + [] + fa == fb + fa == (fb + fa) + []; }
      (fb + fa) + [];
    == { FilterAround(before, x, after, p); FilterSingle(x, p); }
      Filter(before + after, p) + Filter([x], p);
    }
  }

  lemma FilterSingle<T(!new)>(x: T, p: T -> bool)
    ensures Filter([x], p) == if p(x) then [x] else []
  {
    assert [x][1..] == [];
  }

  /** Filtering a sequence with one element singled out. */
  lemma FilterAround<T(!new)>(before: seq<T>, x: T, after: seq<T>, p: T -> bool)
    ensures Filter(before + [x] + after, p) == Filter(before, p) + Filter([x], p) + Filter(after, p)
    ensures Filter(before + after, p) == Filter(before, p) + Filter(after, p)
  {
    FilterAppend(before + [x], after, p);
    FilterAppend(before, [x], p);
    FilterAppend(before, after, p);
  }

  /** Past the insertion point of a key, no element has that key. */
  lemma LargerKeysDropped<T(!new)>(sorted: seq<T>, key: T -> int, p: T -> bool, j: nat)
    requires SortedBy(sorted, key) && j <= |sorted|
    requires forall y :: p(y) ==> (j < |sorted| ==> key(y) < key(sorted[j]))
    ensures Filter(sorted[j..], p) == []
  {
    forall y | y in sorted[j..] ensures !p(y) {
      var m :| j <= m < |sorted| && sorted[m] == y;
      assert key(sorted[j]) <= key(sorted[m]);
    }
    FilterNone(sorted[j..], p);
  }

  /** A filter whose predicate holds nowhere returns nothing. */
  lemma {:induction false} FilterNone<T(!new)>(s: seq<T>, p: T -> bool)
    requires forall x :: x in s ==> !p(x)
    ensures Filter(s, p) == []
  {
    if s != [] {
      FilterNone(s[1..], p);
    }
  }

  /** `slice(0, n)`: the first `n` elements, or all of them when fewer. */
  function Take<T>(s: seq<T>, n: nat): (r: seq<T>)
    ensures |r| == if |s| <= n then |s| else n
    ensures r == s[..|r|]
  {
    if |s| <= n then s else s[..n]
  }

  /** The first `n` elements of a key-ordered permutation of `s` are in key
      order. */
  lemma TopInOrder<T>(s: seq<T>, key: T -> int, n: nat)
    ensures var r := Take(SortByKey(s, key), n);
      forall i, j :: 0 <= i < j < |r| ==> key(r[i]) <= key(r[j])
  {
    var sorted := SortByKey(s, key);
    var r := Take(sorted, n);
    forall i, j | 0 <= i < j < |r| ensures key(r[i]) <= key(r[j]) {
      assert r[i] == sorted[i] && r[j] == sorted[j];
    }
  }

  /** They come from `s`, each at most as often as it occurs there. */
  lemma TopFromInput<T>(s: seq<T>, key: T -> int, n: nat)
    ensures forall x :: x in Take(SortByKey(s, key), n) ==> x in s
    ensures multiset(Take(SortByKey(s, key), n)) <= multiset(s)
  {
    var sorted := SortByKey(s, key);
    var r := Take(sorted, n);
    assert sorted == r + sorted[|r|..];
    assert multiset(sorted) == multiset(r) + multiset(sorted[|r|..]);
    forall x | x in Take(sorted, n) ensures x in s {
      assert x in multiset(sorted);
    }
  }

  /** Nothing left out has a smaller key than the last one kept, and
      something is left out only when `n` are kept. */
  lemma TopLeftOut<T>(s: seq<T>, key: T -> int, n: nat, x: T)
    requires n > 0 && x in s && x !in Take(SortByKey(s, key), n)
    ensures var r := Take(SortByKey(s, key), n);
      |r| == n && key(r[n - 1]) <= key(x)
  {
    var sorted := SortByKey(s, key);
    var r := Take(sorted, n);
    assert x in multiset(sorted);
    var k :| 0 <= k < |sorted| && sorted[k] == x;
    assert k >= |r|;
  }
}
