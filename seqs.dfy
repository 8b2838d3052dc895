/**
 * Sequence operations that the source takes from JavaScript arrays:
 * `filter`, a stable `sort` (ECMA-262 requires `Array.prototype.sort` to be
 * stable since its 2019 edition, section 22.1.3.27) and `slice(0, n)`.
 */
module Seqs {

  /** `a` is a subsequence of `b`: some elements of `b` deleted, order kept. */
  predicate IsSubseq<T(==)>(a: seq<T>, b: seq<T>)
    decreases |b|
  {
    if b == [] then a == []
    else (a != [] && a[0] == b[0] && IsSubseq(a[1..], b[1..])) || IsSubseq(a, b[1..])
  }

  /** No element occurs twice. */
  predicate NoDup<T(==)>(s: seq<T>)
  {
    forall i, j :: 0 <= i < j < |s| ==> s[i] != s[j]
  }

  /**
   * `xs.filter(p)`: exactly the elements satisfying `p`, each as often as in
   * `xs`, in the order of `xs`.
   */
  function Filter<T(==,!new)>(xs: seq<T>, p: T -> bool): (r: seq<T>)
    ensures |r| <= |xs|
    ensures forall x :: x in r <==> x in xs && p(x)
    ensures forall x :: multiset(r)[x] == if p(x) then multiset(xs)[x] else 0
    ensures IsSubseq(r, xs)
  {
    if xs == [] then []
    else
      var rest := Filter(xs[1..], p);
      assert xs == [xs[0]] + xs[1..];
      assert multiset(xs) == multiset{xs[0]} + multiset(xs[1..]);
      if p(xs[0]) then
        assert ([xs[0]] + rest)[1..] == rest;
        [xs[0]] + rest
      else rest
  }

  /** Filtering with a predicate every element satisfies gives the sequence back. */
  lemma {:induction false} FilterAll<T(!new)>(xs: seq<T>, p: T -> bool)
    requires forall i :: 0 <= i < |xs| ==> p(xs[i])
    ensures Filter(xs, p) == xs
  {
    if xs != [] {
      FilterAll(xs[1..], p);
    }
  }

  /** Filtering with two predicates that agree on every element gives the same result. */
  lemma {:induction false} FilterExt<T(!new)>(xs: seq<T>, p: T -> bool, q: T -> bool)
    requires forall i :: 0 <= i < |xs| ==> p(xs[i]) == q(xs[i])
    ensures Filter(xs, p) == Filter(xs, q)
  {
    if xs != [] {
      FilterExt(xs[1..], p, q);
    }
  }

  /** Filtering with a predicate no element satisfies gives nothing. */
  lemma FilterNone<T(!new)>(xs: seq<T>, p: T -> bool)
    requires forall i :: 0 <= i < |xs| ==> !p(xs[i])
    ensures Filter(xs, p) == []
  {
    var r := Filter(xs, p);
    if r != [] {
      assert false;
    }
  }

  /** Appending one element to both sides keeps a subsequence. */
  lemma {:induction false} SubseqSnoc<T>(a: seq<T>, b: seq<T>, x: T)
    requires IsSubseq(a, b)
    ensures IsSubseq(a + [x], b + [x])
    ensures IsSubseq(a, b + [x])
    decreases |b|
  {
    if b == [] {
      assert a == [];
      assert IsSubseq([x], [x]) by { assert IsSubseq([x][1..], [x][1..]); }
      assert IsSubseq(a, [x]) by { assert IsSubseq(a, [x][1..]); }
    } else {
      assert (b + [x])[1..] == b[1..] + [x];
      if a != [] && a[0] == b[0] && IsSubseq(a[1..], b[1..]) {
        SubseqSnoc(a[1..], b[1..], x);
        assert (a + [x])[1..] == a[1..] + [x];
      } else {
        SubseqSnoc(a, b[1..], x);
      }
    }
  }

  /** A subsequence is no longer than the sequence it is drawn from, and draws only its elements. */
  lemma {:induction false} SubseqElements<T>(a: seq<T>, b: seq<T>)
    requires IsSubseq(a, b)
    ensures |a| <= |b|
    ensures forall x :: x in a ==> x in b
    decreases |b|
  {
    if b != [] {
      if a != [] && a[0] == b[0] && IsSubseq(a[1..], b[1..]) {
        SubseqElements(a[1..], b[1..]);
        assert a == [a[0]] + a[1..];
      } else {
        SubseqElements(a, b[1..]);
      }
    }
  }

  /** A sequence without duplicates holds each element at most once. */
  lemma {:induction false} NoDupMultiset<T(!new)>(s: seq<T>)
    ensures NoDup(s) <==> forall x :: multiset(s)[x] <= 1
  {
    if s != [] {
      NoDupMultiset(s[1..]);
      assert s == [s[0]] + s[1..];
      assert multiset(s) == multiset{s[0]} + multiset(s[1..]);
      if NoDup(s) {
        assert s[0] !in s[1..];
        assert NoDup(s[1..]) by {
          forall i, j | 0 <= i < j < |s[1..]| ensures s[1..][i] != s[1..][j] {
            assert s[i + 1] != s[j + 1];
          }
        }
      }
      if forall x :: multiset(s)[x] <= 1 {
        assert multiset(s)[s[0]] <= 1;
        assert s[0] !in s[1..];
        assert forall x :: multiset(s[1..])[x] <= multiset(s)[x];
        assert NoDup(s[1..]);
        forall i, j | 0 <= i < j < |s| ensures s[i] != s[j] {
          assert s[j] == s[1..][j - 1];
          if i > 0 {
            assert s[i] == s[1..][i - 1];
          }
        }
      }
    }
  }

  /** A permutation of a sequence without duplicates has none either. */
  lemma PermutationNoDup<T(!new)>(a: seq<T>, b: seq<T>)
    requires multiset(a) == multiset(b)
    requires NoDup(b)
    ensures NoDup(a)
  {
    NoDupMultiset(b);
    NoDupMultiset(a);
  }

  // ---------------------------------------------------------------------------
  // Stable sort by descending key: `xs.sort((a, b) => key(b) - key(a))`

  /** Non-increasing by `key`. */
  predicate SortedDesc<T>(xs: seq<T>, key: T -> nat)
  {
    forall i, j :: 0 <= i < j < |xs| ==> key(xs[i]) >= key(xs[j])
  }

  /** The number of leading elements of `ys` whose key is larger than that of `x`. */
  function InsertPos<T>(x: T, ys: seq<T>, key: T -> nat): (p: nat)
    ensures p <= |ys|
    ensures forall q :: 0 <= q < p ==> key(ys[q]) > key(x)
    ensures p < |ys| ==> key(ys[p]) <= key(x)
  {
    if ys == [] || key(x) >= key(ys[0]) then 0
    else 1 + InsertPos(x, ys[1..], key)
  }

  /** Insert `x` before the first element whose key is not larger than its own. */
  function Insert<T>(x: T, ys: seq<T>, key: T -> nat): (r: seq<T>)
    ensures |r| == |ys| + 1
    ensures multiset(r) == multiset(ys) + multiset{x}
  {
    var p := InsertPos(x, ys, key);
    assert ys == ys[..p] + ys[p..];
    ys[..p] + [x] + ys[p..]
  }

  /**
   * A stable sort by descending key (insertion sort). Any stable sort yields the
   * same sequence, so this stands for the engine's own algorithm.
   */
  function SortDesc<T>(xs: seq<T>, key: T -> nat): (r: seq<T>)
    ensures |r| == |xs|
    ensures multiset(r) == multiset(xs)
  {
    if xs == [] then []
    else
      assert xs == [xs[0]] + xs[1..];
      Insert(xs[0], SortDesc(xs[1..], key), key)
  }

  lemma {:induction false} InsertSorted<T>(x: T, ys: seq<T>, key: T -> nat)
    requires SortedDesc(ys, key)
    ensures SortedDesc(Insert(x, ys, key), key)
  {
    var p := InsertPos(x, ys, key);
    var r := Insert(x, ys, key);
    forall i, j | 0 <= i < j < |r| ensures key(r[i]) >= key(r[j]) {
      if i < p {
        if j < p { assert r[i] == ys[i] && r[j] == ys[j]; }
        else if j == p { assert r[i] == ys[i] && r[j] == x; }
        else { assert r[i] == ys[i] && r[j] == ys[j - 1]; }
      } else if i == p {
        assert r[i] == x && r[j] == ys[j - 1];
        assert key(ys[p]) <= key(x);
      } else {
        assert r[i] == ys[i - 1] && r[j] == ys[j - 1];
      }
    }
  }

  /** The sort's result is non-increasing by key. */
  lemma {:induction false} SortDescSorted<T>(xs: seq<T>, key: T -> nat)
    ensures SortedDesc(SortDesc(xs, key), key)
  {
    if xs != [] {
      SortDescSorted(xs[1..], key);
      InsertSorted(xs[0], SortDesc(xs[1..], key), key);
    }
  }

  /** The elements of `xs` whose key is `k`, in the order of `xs`. */
  function KeyClass<T>(xs: seq<T>, key: T -> nat, k: nat): (r: seq<T>)
    ensures forall i :: 0 <= i < |r| ==> key(r[i]) == k
  {
    if xs == [] then []
    else (if key(xs[0]) == k then [xs[0]] else []) + KeyClass(xs[1..], key, k)
  }

  lemma {:induction false} KeyClassConcat<T>(a: seq<T>, b: seq<T>, key: T -> nat, k: nat)
    ensures KeyClass(a + b, key, k) == KeyClass(a, key, k) + KeyClass(b, key, k)
  {
    if a == [] {
      assert a + b == b;
    } else {
      var h, t := a[0], a[1..];
      KeyClassConcat(t, b, key, k);
      assert a == [h] + t;
      assert a + b == [h] + (t + b);
      KeyClassCons(h, t + b, key, k);
      KeyClassCons(h, t, key, k);
    }
  }

  lemma {:induction false} KeyClassNone<T>(xs: seq<T>, key: T -> nat, k: nat)
    requires forall i :: 0 <= i < |xs| ==> key(xs[i]) != k
    ensures KeyClass(xs, key, k) == []
  {
    if xs != [] {
      KeyClassNone(xs[1..], key, k);
    }
  }

  /** `Insert` puts `x` before every element of its own key that is already there. */
  lemma InsertKeyClass<T>(x: T, ys: seq<T>, key: T -> nat, k: nat)
    ensures KeyClass(Insert(x, ys, key), key, k) == (if key(x) == k then [x] else []) + KeyClass(ys, key, k)
  {
    if key(x) == k {
      InsertKeyClassSame(x, ys, key);
      assert [x] + KeyClass(ys, key, k) == (if key(x) == k then [x] else []) + KeyClass(ys, key, k);
    } else {
      InsertKeyClassOther(x, ys, key, k);
      assert KeyClass(ys, key, k) == [] + KeyClass(ys, key, k);
    }
  }

  lemma InsertKeyClassSame<T>(x: T, ys: seq<T>, key: T -> nat)
    ensures KeyClass(Insert(x, ys, key), key, key(x)) == [x] + KeyClass(ys, key, key(x))
  {
    var k := key(x);
    var p := InsertPos(x, ys, key);
    var a, b := ys[..p], ys[p..];
    InsertSplit(x, ys, key);
    KeyClassConcat(a, [x] + b, key, k);
    KeyClassConcat(a, b, key, k);
    KeyClassCons(x, b, key, k);
    KeyClassNone(a, key, k);
    var kb := KeyClass(b, key, k);
    assert KeyClass([x] + b, key, k) == [x] + kb;
    assert KeyClass(Insert(x, ys, key), key, k) == [] + ([x] + kb);
    assert KeyClass(ys, key, k) == [] + kb;
  }

  lemma InsertKeyClassOther<T>(x: T, ys: seq<T>, key: T -> nat, k: nat)
    requires key(x) != k
    ensures KeyClass(Insert(x, ys, key), key, k) == KeyClass(ys, key, k)
  {
    var p := InsertPos(x, ys, key);
    var a, b := ys[..p], ys[p..];
    InsertSplit(x, ys, key);
    KeyClassConcat(a, [x] + b, key, k);
    KeyClassConcat(a, b, key, k);
    KeyClassCons(x, b, key, k);
  }

  lemma InsertSplit<T>(x: T, ys: seq<T>, key: T -> nat)
    ensures var p := InsertPos(x, ys, key);
      ys == ys[..p] + ys[p..] && Insert(x, ys, key) == ys[..p] + ([x] + ys[p..])
  {
  }

  lemma KeyClassCons<T>(x: T, b: seq<T>, key: T -> nat, k: nat)
    ensures KeyClass([x] + b, key, k) == (if key(x) == k then [x] else []) + KeyClass(b, key, k)
  {
    assert ([x] + b)[0] == x;
    assert ([x] + b)[1..] == b;
  }

  /**
   * Stability stated for every input, repeated elements included: for each
   * key, the elements with that key come out in the order they went in.
   */
  lemma {:induction false} SortDescKeepsTies<T>(xs: seq<T>, key: T -> nat, k: nat)
    ensures KeyClass(SortDesc(xs, key), key, k) == KeyClass(xs, key, k)
  {
    if xs != [] {
      SortDescKeepsTies(xs[1..], key, k);
      SortDescCons(xs, key);
      InsertKeyClass(xs[0], SortDesc(xs[1..], key), key, k);
    }
  }

  /** The element at position `k` after `Insert`. */
  lemma InsertAt<T>(x: T, ys: seq<T>, key: T -> nat, k: nat)
    requires k <= |ys|
    ensures Insert(x, ys, key)[k] ==
      var p := InsertPos(x, ys, key); if k < p then ys[k] else if k == p then x else ys[k - 1]
  {
  }

  /**
   * The sort is stable: two results with equal keys come from positions of the
   * input in the same order.
   */
  lemma {:induction false} SortDescStable<T>(xs: seq<T>, key: T -> nat, i: nat, j: nat) returns (a: nat, b: nat)
    requires i < j < |SortDesc(xs, key)|
    requires key(SortDesc(xs, key)[i]) == key(SortDesc(xs, key)[j])
    ensures a < b < |xs| && xs[a] == SortDesc(xs, key)[i] && xs[b] == SortDesc(xs, key)[j]
    decreases |xs|, 1
  {
    SortDescCons(xs, key);
    var fromX, i', j' := InsertStable(xs[0], SortDesc(xs[1..], key), key, i, j);
    if fromX {
      a := 0;
      b := SortDescTailElement(xs, key, j - 1);
    } else {
      a, b := SortDescStableTail(xs, key, i', j');
    }
  }

  /** Two positions of the tail's sort with equal keys, counted in `xs`. */
  lemma {:induction false} SortDescStableTail<T>(xs: seq<T>, key: T -> nat, i': nat, j': nat) returns (a: nat, b: nat)
    requires xs != [] && i' < j' < |SortDesc(xs[1..], key)|
    requires key(SortDesc(xs[1..], key)[i']) == key(SortDesc(xs[1..], key)[j'])
    ensures 1 <= a < b < |xs| && xs[a] == SortDesc(xs[1..], key)[i'] && xs[b] == SortDesc(xs[1..], key)[j']
    decreases |xs|, 0
  {
    var a', b' := SortDescStable(xs[1..], key, i', j');
    TailIndex(xs, a');
    TailIndex(xs, b');
    a, b := a' + 1, b' + 1;
  }

  /** An element of the tail's sort, found in `xs` after the head. */
  lemma SortDescTailElement<T>(xs: seq<T>, key: T -> nat, j: nat) returns (b: nat)
    requires xs != [] && j < |SortDesc(xs[1..], key)|
    ensures 1 <= b < |xs| && xs[b] == SortDesc(xs[1..], key)[j]
  {
    var b' := SortDescElement(xs[1..], key, j);
    TailIndex(xs, b');
    b := b' + 1;
  }

  lemma TailIndex<T>(xs: seq<T>, k: nat)
    requires k + 1 < |xs|
    ensures xs[1..][k] == xs[k + 1]
  {
  }

  lemma SortDescCons<T>(xs: seq<T>, key: T -> nat)
    requires xs != []
    ensures SortDesc(xs, key) == Insert(xs[0], SortDesc(xs[1..], key), key)
  {
  }

  /**
   * Two positions with equal keys after `Insert`: either the first is the
   * inserted element, or both come from `ys` in the same order.
   */
  lemma InsertStable<T>(x: T, ys: seq<T>, key: T -> nat, i: nat, j: nat) returns (fromX: bool, i': nat, j': nat)
    requires i < j < |Insert(x, ys, key)|
    requires key(Insert(x, ys, key)[i]) == key(Insert(x, ys, key)[j])
    ensures fromX ==> Insert(x, ys, key)[i] == x && 1 <= j <= |ys| && Insert(x, ys, key)[j] == ys[j - 1]
    ensures !fromX ==> i' < j' < |ys| && Insert(x, ys, key)[i] == ys[i'] && Insert(x, ys, key)[j] == ys[j']
  {
    var p := InsertPos(x, ys, key);
    InsertAt(x, ys, key, i);
    InsertAt(x, ys, key, j);
    fromX, i', j' := i == p, 0, 0;
    if !fromX {
      // an element before the inserted one has a larger key, so `j` is not `p` either
      assert i < p ==> key(ys[i]) > key(x);
      assert j != p;
      i', j' := (if i < p then i else i - 1), (if j < p then j else j - 1);
    }
  }

  /** An element of the sorted sequence is an element of the input. */
  lemma SortDescElement<T>(xs: seq<T>, key: T -> nat, i: nat) returns (j: nat)
    requires i < |SortDesc(xs, key)|
    ensures j < |xs| && xs[j] == SortDesc(xs, key)[i]
  {
    var sorted := SortDesc(xs, key);
    assert sorted[i] in multiset(sorted);
    assert sorted[i] in multiset(xs);
    j :| 0 <= j < |xs| && xs[j] == sorted[i];
  }

  /** An element of the input is an element of the sorted sequence. */
  lemma SortDescPosition<T>(xs: seq<T>, key: T -> nat, j: nat) returns (i: nat)
    requires j < |xs|
    ensures i < |SortDesc(xs, key)| && SortDesc(xs, key)[i] == xs[j]
  {
    var sorted := SortDesc(xs, key);
    assert xs[j] in multiset(xs);
    assert xs[j] in multiset(sorted);
    i :| 0 <= i < |sorted| && sorted[i] == xs[j];
  }

  /** `xs.slice(0, n)`. */
  function Take<T>(xs: seq<T>, n: nat): (r: seq<T>)
    ensures |r| <= n && |r| <= |xs|
    ensures |r| == if |xs| < n then |xs| else n
    ensures r == xs[..|r|]
  {
    if |xs| <= n then xs else xs[..n]
  }

  /** Position `k` of `a + b + c` is position `i` of part `part` (0, 1 or 2). */
  lemma Concat3At<T>(a: seq<T>, b: seq<T>, c: seq<T>, k: nat) returns (part: nat, i: nat)
    requires k < |a + b + c|
    ensures part <= 2
    ensures part == 0 ==> i < |a| && (a + b + c)[k] == a[i]
    ensures part == 1 ==> i < |b| && (a + b + c)[k] == b[i]
    ensures part == 2 ==> i < |c| && (a + b + c)[k] == c[i]
    ensures k == i + (if part >= 1 then |a| else 0) + (if part >= 2 then |b| else 0)
  {
    if k < |a| {
      part, i := 0, k;
    } else if k < |a| + |b| {
      part, i := 1, k - |a|;
    } else {
      part, i := 2, k - |a| - |b|;
    }
  }

  /** Position `i` of part `part` of `a + b + c`, counted in the whole. */
  lemma Concat3Index<T>(a: seq<T>, b: seq<T>, c: seq<T>, part: nat, i: nat) returns (k: nat)
    requires part == 0 ==> i < |a|
    requires part == 1 ==> i < |b|
    requires part >= 2 ==> i < |c|
    ensures k == i + (if part >= 1 then |a| else 0) + (if part >= 2 then |b| else 0)
    ensures k < |a + b + c| && (a + b + c)[k] == (if part == 0 then a[i] else if part == 1 then b[i] else c[i])
  {
    k := i + (if part >= 1 then |a| else 0) + (if part >= 2 then |b| else 0);
  }

  /** An element of a sorted sequence that the first `n` leave out ranks below all `n` of them. */
  lemma TakeSortedTop<T>(sorted: seq<T>, key: T -> nat, n: nat, p: nat)
    requires SortedDesc(sorted, key) && p < |sorted|
    requires forall i :: 0 <= i < |Take(sorted, n)| ==> Take(sorted, n)[i] != sorted[p]
    ensures |Take(sorted, n)| == n
    ensures forall i :: 0 <= i < n ==> key(Take(sorted, n)[i]) >= key(sorted[p])
  {
    var t := Take(sorted, n);
    assert sorted[p] !in t;
    assert t == sorted[..|t|];
    assert |t| <= p;
    forall i | 0 <= i < n ensures key(t[i]) >= key(sorted[p]) {
      assert t[i] == sorted[i];
    }
  }
}
