/**
 * Sequence helpers shared by the profiler, the rule generators and the chat
 * helper: dropping missing cells, counting, de-duplicating in order of first
 * appearance, taking a prefix, sampling and sorting.
 */
module Seqs {
  import opened Wrappers

  /** Number of missing cells (pandas `isna().sum()`). */
  function NullCount<T>(col: seq<Option<T>>): (n: nat)
    ensures n <= |col|
    ensures n == 0 <==> forall i :: 0 <= i < |col| ==> col[i].Some?
    ensures n == |col| <==> forall i :: 0 <= i < |col| ==> col[i].None?
  {
    if col == [] then 0
    else
      var rest := NullCount(col[1..]);
      assert forall i :: 1 <= i < |col| ==> col[i] == col[1..][i - 1];
      (if col[0].None? then 1 else 0) + rest
  }

  /** The present values of a column, in order (pandas `dropna()`). */
  function NonNull<T(==,!new)>(col: seq<Option<T>>): (r: seq<T>)
    ensures |r| + NullCount(col) == |col|
    ensures forall x :: x in r <==> Some(x) in col
  {
    if col == [] then []
    else
      var rest := NonNull(col[1..]);
      assert forall x :: Some(x) in col <==> Some(x) == col[0] || Some(x) in col[1..];
      match col[0]
      case None => rest
      case Some(v) => [v] + rest
  }

  /** `dropna()` drops a missing cell and keeps a present one. */
  lemma NonNullCell<T(!new)>(v: T)
    ensures NonNull<T>([None]) == [] && NonNull([Some(v)]) == [v]
  {
    var none: seq<Option<T>> := [None];
    assert none[1..] == [] && [Some(v)][1..] == [];
  }

  /**
   * `dropna()` distributes over `+`; with `NonNullCell` this keeps each
   * present value once per occurrence, in column order.
   */
  lemma {:induction false} NonNullConcat<T(!new)>(a: seq<Option<T>>, b: seq<Option<T>>)
    ensures NonNull(a + b) == NonNull(a) + NonNull(b)
  {
    if a == [] {
      assert a + b == b;
    } else {
      assert (a + b)[0] == a[0] && (a + b)[1..] == a[1..] + b;
      NonNullConcat(a[1..], b);
    }
  }

  /** Number of elements of `s` that satisfy `p`. */
  function CountIf<T>(s: seq<T>, p: T -> bool): (n: nat)
    ensures n <= |s|
    ensures n == |s| <==> forall i :: 0 <= i < |s| ==> p(s[i])
    ensures n == 0 <==> forall i :: 0 <= i < |s| ==> !p(s[i])
  {
    if s == [] then 0
    else
      var rest := CountIf(s[1..], p);
      assert forall i :: 1 <= i < |s| ==> s[i] == s[1..][i - 1];
      (if p(s[0]) then 1 else 0) + rest
  }

  /** `if b: s.append(x)`, as a value. */
  function AppendIf<T>(s: seq<T>, b: bool, x: T): seq<T> {
    if b then s + [x] else s
  }

  /** The first `k` elements of `s`, or all of them if there are fewer (`head(k)`, `[:k]`). */
  function Take<T>(s: seq<T>, k: nat): (r: seq<T>)
    ensures |r| == if |s| <= k then |s| else k
    ensures r == s[..|r|]
  {
    if |s| <= k then s else s[..k]
  }

  predicate NoDup<T(==)>(s: seq<T>) {
    forall i, j :: 0 <= i < j < |s| ==> s[i] != s[j]
  }

  /** Without duplicates, every value occurs at most once. */
  lemma {:induction false} NoDupCount<T(!new)>(s: seq<T>, x: T)
    requires NoDup(s)
    ensures multiset(s)[x] <= 1
  {
    if s != [] {
      var tail := s[1..];
      assert s == [s[0]] + tail;
      assert forall k :: 0 <= k < |tail| ==> tail[k] == s[k + 1];
      NoDupCount(tail, x);
      if s[0] == x {
        assert x !in tail;
      }
    }
  }

  /** A value occurring at most once cannot sit at two indices. */
  lemma CountOneDistinct<T(!new)>(s: seq<T>, i: nat, j: nat)
    requires i < j < |s| && multiset(s)[s[i]] <= 1
    ensures s[i] != s[j]
  {
    assert s == s[..j] + [s[j]] + s[j + 1..];
    assert s[..j][i] == s[i];
    assert multiset(s) == multiset(s[..j]) + multiset{s[j]} + multiset(s[j + 1..]);
  }

  /** Rearranging a sequence without duplicates gives a sequence without duplicates. */
  lemma NoDupPermutation<T(!new)>(a: seq<T>, b: seq<T>)
    requires NoDup(a) && multiset(a) == multiset(b)
    ensures NoDup(b)
  {
    forall i, j | 0 <= i < j < |b| ensures b[i] != b[j] {
      NoDupCount(a, b[i]);
      CountOneDistinct(b, i, j);
    }
  }

  /** Index of the first occurrence of `x` in `s`. */
  function IndexOf<T(==)>(s: seq<T>, x: T): (k: nat)
    requires x in s
    ensures k < |s| && s[k] == x
    ensures forall j :: 0 <= j < k ==> s[j] != x
  {
    if s[0] == x then 0 else 1 + IndexOf(s[1..], x)
  }

  lemma {:induction false} IndexOfPrefix<T(!new)>(s: seq<T>, n: nat, x: T)
    requires n <= |s| && x in s[..n]
    ensures IndexOf(s, x) == IndexOf(s[..n], x)
  {
    assert forall j :: 0 <= j < n ==> s[..n][j] == s[j];
  }

  /**
   * The distinct values of `s` in order of first appearance (pandas
   * `unique()`); its length is `nunique()`.
   */
  function Unique<T(==,!new)>(s: seq<T>): (r: seq<T>)
    ensures NoDup(r)
    ensures forall x :: x in r <==> x in s
    ensures |r| <= |s|
    ensures forall i, j :: 0 <= i < j < |r| ==> IndexOf(s, r[i]) < IndexOf(s, r[j])
  {
    if s == [] then []
    else
      var init := s[..|s| - 1];
      var last := s[|s| - 1];
      var u := Unique(init);
      assert forall x :: x in s <==> x in init || x == last by {
        assert s == init + [last];
      }
      forall i | 0 <= i < |u|
        ensures IndexOf(s, u[i]) == IndexOf(init, u[i]) && IndexOf(s, u[i]) < |s| - 1
      {
        IndexOfPrefix(s, |s| - 1, u[i]);
      }
      if last in u then u
      else
        assert IndexOf(s, last) == |s| - 1;
        u + [last]
  }

  /** A value that first appears before the `k`-th distinct value is among the first `k`. */
  lemma {:induction false} UniqueFirstAppearance<T(!new)>(s: seq<T>, x: T, k: nat)
    requires x in s && k < |Unique(s)| && IndexOf(s, x) < IndexOf(s, Unique(s)[k])
    ensures x in Unique(s)[..k]
  {
    OrderedPrefix(s, Unique(s), x, k);
  }

  /** In a run ordered by first appearance in `s`, whatever appears earlier than the k-th element comes before it. */
  lemma {:induction false} OrderedPrefix<T>(s: seq<T>, u: seq<T>, x: T, k: nat)
    requires forall y :: y in u ==> y in s
    requires forall i, j :: 0 <= i < j < |u| ==> IndexOf(s, u[i]) < IndexOf(s, u[j])
    requires x in u && k < |u| && IndexOf(s, x) < IndexOf(s, u[k])
    ensures x in u[..k]
  {
    var p := IndexOf(u, x);
    var ik, ip := IndexOf(s, u[k]), IndexOf(s, u[p]);
    assert p < k;
    assert u[..k][p] == x;
  }

  /**
   * The first `n` distinct values (`unique()[:n]`): no repeats, drawn from
   * `s`, as many as there are up to `n`, in order of first appearance, and
   * every value that first appears before a listed one is listed too.
   */
  lemma {:induction false} TakeUnique<T(!new)>(s: seq<T>, n: nat)
    ensures var u := Take(Unique(s), n);
      NoDup(u) && (forall x :: x in u ==> x in s) &&
      |u| == (if Distinct(s) <= n then Distinct(s) else n) &&
      (forall i, j :: 0 <= i < j < |u| ==> IndexOf(s, u[i]) < IndexOf(s, u[j])) &&
      (forall x, k :: x in s && 0 <= k < |u| && IndexOf(s, x) < IndexOf(s, u[k]) ==> x in u)
  {
    var all := Unique(s);
    var u := Take(all, n);
    assert u == all[..|u|];
    forall i, j | 0 <= i < j < |u| ensures u[i] != u[j] && IndexOf(s, u[i]) < IndexOf(s, u[j]) {
      assert u[i] == all[i] && u[j] == all[j];
    }
    forall x, k | x in s && 0 <= k < |u| && IndexOf(s, x) < IndexOf(s, u[k]) ensures x in u {
      assert u[k] == all[k];
      UniqueFirstAppearance(s, x, k);
      assert all[..k] == u[..k];
    }
  }

  lemma {:induction false} UniqueAll<T(!new)>(s: seq<T>)
    ensures |Unique(s)| == |s| <==> NoDup(s)
  {
    if s != [] {
      var init := s[..|s| - 1];
      var last := s[|s| - 1];
      UniqueAll(init);
      assert s == init + [last];
      if NoDup(s) {
        assert NoDup(init) by {
          forall i, j | 0 <= i < j < |init| ensures init[i] != init[j] { assert s[i] == init[i] && s[j] == init[j]; }
        }
        assert last !in init by {
          assert forall k :: 0 <= k < |init| ==> init[k] == s[k] && k < |s| - 1;
        }
      }
      if |Unique(s)| == |s| {
        assert last !in Unique(init);
        assert NoDup(init);
        forall i, j | 0 <= i < j < |s| ensures s[i] != s[j] {
          if j < |s| - 1 { assert init[i] == s[i] && init[j] == s[j]; }
          else { assert s[i] in init; }
        }
      }
    }
  }

  /** Number of distinct values (pandas `nunique()`). */
  function Distinct<T(==,!new)>(s: seq<T>): (n: nat)
    ensures n <= |s|
    ensures n == 0 <==> s == []
  {
    assert s != [] ==> s[0] in Unique(s);
    |Unique(s)|
  }

  /**
   * `sample` is what a random draw of `min(|s|, n)` elements without
   * replacement could return, in any order (pandas `Series.sample`).
   */
  predicate IsSampleOf<T(==)>(sample: seq<T>, s: seq<T>, n: nat) {
    |sample| == (if |s| <= n then |s| else n) && multiset(sample) <= multiset(s)
  }

  lemma FullSample<T(!new)>(sample: seq<T>, s: seq<T>, n: nat)
    requires IsSampleOf(sample, s, n) && |s| <= n
    ensures multiset(sample) == multiset(s)
    ensures forall x :: x in sample <==> x in s
  {
    assert |multiset(sample)| == |multiset(s)|;
    MultisetSubsetSameSize(multiset(sample), multiset(s));
    forall x ensures x in sample <==> x in s {
      assert x in sample <==> x in multiset(sample);
      assert x in s <==> x in multiset(s);
    }
  }

  lemma {:induction false} MultisetSubsetSameSize<T(!new)>(a: multiset<T>, b: multiset<T>)
    requires a <= b && |a| == |b|
    ensures a == b
  {
    if a != b {
      var x :| x in b && a[x] < b[x];
      var big := a + multiset{x};
      assert big <= b;
      assert |big| == |a| + 1;
      SubMultisetSize(big, b);
    }
  }

  lemma {:induction false} SubMultisetSize<T(!new)>(a: multiset<T>, b: multiset<T>)
    requires a <= b
    ensures |a| <= |b|
  {
    assert b == a + (b - a);
  }

  lemma SampleNonEmpty<T(!new)>(sample: seq<T>, s: seq<T>, n: nat)
    requires IsSampleOf(sample, s, n)
    ensures sample == [] <==> s == [] || n == 0
    ensures forall x :: x in sample ==> x in s
  {
    forall x | x in sample ensures x in s {
      assert x in multiset(sample);
    }
  }

  /** `le` is total and transitive: a sorting order. */
  ghost predicate TotalPreorder<T(!new)>(le: (T, T) -> bool) {
    (forall a, b :: le(a, b) || le(b, a)) &&
    (forall a, b, c :: le(a, b) && le(b, c) ==> le(a, c))
  }

  ghost predicate Antisymmetric<T(!new)>(le: (T, T) -> bool) {
    forall a, b :: le(a, b) && le(b, a) ==> a == b
  }

  predicate SortedBy<T>(s: seq<T>, le: (T, T) -> bool) {
    forall i, j :: 0 <= i < j < |s| ==> le(s[i], s[j])
  }

  function Insert<T(==,!new)>(x: T, s: seq<T>, le: (T, T) -> bool): (r: seq<T>)
    requires TotalPreorder(le) && SortedBy(s, le)
    ensures SortedBy(r, le)
    ensures multiset(r) == multiset(s) + multiset{x}
  {
    if s == [] then [x]
    else if le(x, s[0]) then [x] + s
    else
      var rest := Insert(x, s[1..], le);
      assert s == [s[0]] + s[1..];
      InsertHeadSorted(x, s, rest, le);
      [s[0]] + rest
  }

  lemma InsertHeadSorted<T(!new)>(x: T, s: seq<T>, rest: seq<T>, le: (T, T) -> bool)
    requires TotalPreorder(le) && SortedBy(s, le) && s != [] && !le(x, s[0])
    requires SortedBy(rest, le) && multiset(rest) == multiset(s[1..]) + multiset{x}
    ensures SortedBy([s[0]] + rest, le)
  {
    assert le(s[0], x);
    forall k | 0 <= k < |rest| ensures le(s[0], rest[k]) {
      assert rest[k] in multiset(rest);
      if rest[k] != x {
        assert rest[k] in multiset(s[1..]);
        var m :| 0 <= m < |s[1..]| && s[1..][m] == rest[k];
        assert s[1..][m] == s[m + 1];
      }
    }
  }

  /** Insertion sort by `le` (Python `sorted`, a stable sort). */
  function Sort<T(==,!new)>(s: seq<T>, le: (T, T) -> bool): (r: seq<T>)
    requires TotalPreorder(le)
    ensures SortedBy(r, le)
    ensures multiset(r) == multiset(s)
  {
    if s == [] then []
    else
      assert s == [s[0]] + s[1..];
      Insert(s[0], Sort(s[1..], le), le)
  }

  lemma SortedTail<T>(a: seq<T>, le: (T, T) -> bool)
    requires a != [] && SortedBy(a, le)
    ensures SortedBy(a[1..], le)
  {
    forall i, j | 0 <= i < j < |a[1..]| ensures le(a[1..][i], a[1..][j]) {
      assert a[1..][i] == a[i + 1] && a[1..][j] == a[j + 1];
    }
  }

  /** Two sorted arrangements of one multiset start with the same element. */
  lemma SortedSameHead<T(!new)>(a: seq<T>, b: seq<T>, le: (T, T) -> bool)
    requires TotalPreorder(le) && Antisymmetric(le)
    requires SortedBy(a, le) && SortedBy(b, le)
    requires a != [] && multiset(a) == multiset(b)
    ensures b != [] && a[0] == b[0]
  {
    assert a[0] in multiset(b);
    assert b != [] && b[0] in multiset(a);
    var i :| 0 <= i < |b| && b[i] == a[0];
    var j :| 0 <= j < |a| && a[j] == b[0];
    assert le(b[0], a[0]) by { if i > 0 { assert le(b[0], b[i]); } }
    assert le(a[0], b[0]) by { if j > 0 { assert le(a[0], a[j]); } }
  }

  lemma {:induction false} MultisetTail<T>(a: seq<T>)
    requires a != []
    ensures multiset(a[1..]) == multiset(a) - multiset{a[0]}
  {
    assert a == [a[0]] + a[1..];
  }

  /** Two sorted arrangements of one multiset share their head, and their tails are again such a pair. */
  lemma {:induction false} SortedTails<T(!new)>(a: seq<T>, b: seq<T>, le: (T, T) -> bool)
    requires TotalPreorder(le) && Antisymmetric(le)
    requires SortedBy(a, le) && SortedBy(b, le)
    requires a != [] && multiset(a) == multiset(b)
    ensures b != [] && a[0] == b[0]
    ensures SortedBy(a[1..], le) && SortedBy(b[1..], le)
    ensures multiset(a[1..]) == multiset(b[1..])
  {
    SortedSameHead(a, b, le);
    MultisetTail(a);
    MultisetTail(b);
    SortedTail(a, le);
    SortedTail(b, le);
  }

  /**
   * Under an antisymmetric order there is only one sorted arrangement of a
   * multiset: whatever order the input came in, sorting gives one answer.
   */
  lemma {:induction false} SortedUnique<T(!new)>(a: seq<T>, b: seq<T>, le: (T, T) -> bool)
    requires TotalPreorder(le) && Antisymmetric(le)
    requires SortedBy(a, le) && SortedBy(b, le)
    requires multiset(a) == multiset(b)
    ensures a == b
  {
    if a != [] {
      SortedTails(a, b, le);
      SortedUnique(a[1..], b[1..], le);
      assert a == [a[0]] + a[1..] && b == [b[0]] + b[1..];
    } else {
      assert |multiset(b)| == 0;
    }
  }

  lemma SortPermutationInvariant<T(!new)>(a: seq<T>, b: seq<T>, le: (T, T) -> bool)
    requires TotalPreorder(le) && Antisymmetric(le)
    requires multiset(a) == multiset(b)
    ensures Sort(a, le) == Sort(b, le)
  {
    SortedUnique(Sort(a, le), Sort(b, le), le);
  }

  lemma {:induction false} CountIfAppend<T>(a: seq<T>, b: seq<T>, p: T -> bool)
    ensures CountIf(a + b, p) == CountIf(a, p) + CountIf(b, p)
  {
    if a == [] {
      assert a + b == b;
    } else {
      assert (a + b)[1..] == a[1..] + b;
      CountIfAppend(a[1..], b, p);
    }
  }

  /** Counting with one element taken out. */
  lemma {:induction false} CountIfRemove<T>(b: seq<T>, k: nat, p: T -> bool)
    requires k < |b|
    ensures CountIf(b, p) == (if p(b[k]) then 1 else 0) + CountIf(b[..k] + b[k + 1..], p)
  {
    assert b == b[..k] + ([b[k]] + b[k + 1..]);
    CountIfAppend(b[..k], [b[k]] + b[k + 1..], p);
    CountIfAppend(b[..k], b[k + 1..], p);
    assert ([b[k]] + b[k + 1..])[1..] == b[k + 1..];
  }

  lemma {:induction false} MultisetRemove<T>(b: seq<T>, k: nat)
    requires k < |b|
    ensures multiset(b[..k] + b[k + 1..]) == multiset(b) - multiset{b[k]}
  {
    assert b == b[..k] + [b[k]] + b[k + 1..];
  }

  /** A count does not depend on the order of the elements. */
  lemma {:induction false} CountIfMultiset<T(!new)>(a: seq<T>, b: seq<T>, p: T -> bool)
    requires multiset(a) == multiset(b)
    ensures CountIf(a, p) == CountIf(b, p)
  {
    if a == [] {
      assert |b| == |multiset(b)| == 0;
    } else {
      assert a[0] in multiset(b);
      var k :| 0 <= k < |b| && b[k] == a[0];
      var rest := b[..k] + b[k + 1..];
      MultisetRemove(b, k);
      assert a == [a[0]] + a[1..];
      assert multiset(a[1..]) == multiset(rest);
      CountIfMultiset(a[1..], rest, p);
      CountIfRemove(b, k, p);
    }
  }

  /** Two distinct positions of `s` satisfy `p`. */
  ghost predicate TwoSatisfy<T>(s: seq<T>, p: T -> bool) {
    exists i, j :: 0 <= i < j < |s| && p(s[i]) && p(s[j])
  }

  lemma {:induction false} TwoSatisfyCons<T>(s: seq<T>, p: T -> bool)
    requires s != []
    ensures TwoSatisfy(s, p) <==> (p(s[0]) && CountIf(s[1..], p) > 0) || TwoSatisfy(s[1..], p)
  {
    var t := s[1..];
    if TwoSatisfy(s, p) {
      var i, j :| 0 <= i < j < |s| && p(s[i]) && p(s[j]);
      assert t[j - 1] == s[j];
      if i > 0 {
        assert t[i - 1] == s[i];
      }
    }
    if p(s[0]) && CountIf(t, p) > 0 {
      var j :| 0 <= j < |t| && p(t[j]);
      assert s[j + 1] == t[j];
    }
    if TwoSatisfy(t, p) {
      var i, j :| 0 <= i < j < |t| && p(t[i]) && p(t[j]);
      assert s[i + 1] == t[i] && s[j + 1] == t[j];
    }
  }

  /** At least two elements satisfy `p` exactly when two distinct positions do. */
  lemma {:induction false} CountIfTwo<T>(s: seq<T>, p: T -> bool)
    ensures CountIf(s, p) >= 2 <==> TwoSatisfy(s, p)
  {
    if s != [] {
      CountIfTwo(s[1..], p);
      TwoSatisfyCons(s, p);
    }
  }

  /** The elements of `s` that satisfy `p`, in order. */
  function Filter<T(==,!new)>(s: seq<T>, p: T -> bool): (r: seq<T>)
    ensures forall x :: x in r <==> x in s && p(x)
  {
    if s == [] then [] else (if p(s[0]) then [s[0]] else []) + Filter(s[1..], p)
  }

  lemma {:induction false} FilterSorted<T(!new)>(s: seq<T>, p: T -> bool, le: (T, T) -> bool)
    requires SortedBy(s, le)
    ensures SortedBy(Filter(s, p), le)
  {
    if s != [] {
      var t := s[1..];
      assert SortedBy(t, le) by {
        forall i, j | 0 <= i < j < |t| ensures le(t[i], t[j]) { assert t[i] == s[i + 1] && t[j] == s[j + 1]; }
      }
      FilterSorted(t, p, le);
      var rest := Filter(t, p);
      forall j | 0 <= j < |rest| ensures le(s[0], rest[j]) {
        assert rest[j] in t;
        var k :| 0 <= k < |t| && t[k] == rest[j];
        assert t[k] == s[k + 1];
      }
    }
  }

  lemma {:induction false} FilterNoDup<T(!new)>(s: seq<T>, p: T -> bool)
    requires NoDup(s)
    ensures NoDup(Filter(s, p))
  {
    if s != [] {
      var t := s[1..];
      assert NoDup(t) by {
        forall i, j | 0 <= i < j < |t| ensures t[i] != t[j] { assert t[i] == s[i + 1] && t[j] == s[j + 1]; }
      }
      FilterNoDup(t, p);
      assert s[0] !in t by {
        forall k | 0 <= k < |t| ensures t[k] != s[0] { assert t[k] == s[k + 1]; }
      }
    }
  }

  /** Two sequences without duplicates and with the same elements are permutations of each other. */
  lemma {:induction false} NoDupSameElements<T(!new)>(a: seq<T>, b: seq<T>)
    requires NoDup(a) && NoDup(b)
    requires forall x :: x in a <==> x in b
    ensures multiset(a) == multiset(b)
  {
    forall x ensures multiset(a)[x] == multiset(b)[x] {
      NoDupCount(a, x);
      NoDupCount(b, x);
      assert x in a <==> x in multiset(a);
      assert x in b <==> x in multiset(b);
    }
  }

  /** The concatenation of `f(x)` over `s`, in order. */
  function FlatMap<A, B>(s: seq<A>, f: A -> seq<B>): seq<B> {
    if s == [] then [] else FlatMap(s[..|s| - 1], f) + f(s[|s| - 1])
  }

  lemma {:induction false} FlatMapSplit<A, B>(s: seq<A>, f: A -> seq<B>, i: nat)
    requires i <= |s|
    ensures FlatMap(s, f) == FlatMap(s[..i], f) + FlatMap(s[i..], f)
  {
    if i == |s| {
      assert s[..i] == s && s[i..] == [];
    } else {
      var init, tail := s[..|s| - 1], s[i..];
      FlatMapSplit(init, f, i);
      assert init[..i] == s[..i];
      assert tail[..|tail| - 1] == init[i..] && tail[|tail| - 1] == s[|s| - 1];
    }
  }

  lemma {:induction false} FlatMapOne<A, B>(x: A, f: A -> seq<B>)
    ensures FlatMap([x], f) == f(x)
  {
    assert [x][..0] == [];
  }

  lemma {:induction false} FlatMapAt<A, B>(s: seq<A>, f: A -> seq<B>, k: nat)
    requires k < |s|
    ensures FlatMap(s, f) == FlatMap(s[..k], f) + f(s[k]) + FlatMap(s[k + 1..], f)
  {
    var tail := s[k..];
    FlatMapSplit(s, f, k);
    FlatMapSplit(tail, f, 1);
    assert tail[..1] == [s[k]] && tail[1..] == s[k + 1..];
    FlatMapOne(s[k], f);
  }

  lemma {:induction false} FlatMapMember<A, B(!new)>(s: seq<A>, f: A -> seq<B>, x: B)
    requires x in FlatMap(s, f)
    ensures exists k :: 0 <= k < |s| && x in f(s[k])
  {
    var init := s[..|s| - 1];
    if x in FlatMap(init, f) {
      FlatMapMember(init, f, x);
      var k :| 0 <= k < |init| && x in f(init[k]);
      assert init[k] == s[k];
    }
  }
}
