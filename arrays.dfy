/**
 * The array helpers (src/utils/array.ts): order-preserving filters (`unique`, `without`,
 * `withoutAll`, `intersection`, `difference`), `isEmpty`, and the loops that build new
 * arrays (`chunk`, `groupBy`, `partition`, `zip`). JavaScript arrays are sequences; the
 * arrays the loops `push` into are local sequence variables that the loops extend.
 */
module Arrays {
  import opened Std

  /** The message `chunk` throws for a size that is not positive. */
  const ChunkSizeMessage: string := "chunk size must be greater than 0"

  // ---------------------------------------------------------------------------------
  // Vocabulary
  // ---------------------------------------------------------------------------------

  /** No element occurs twice. */
  predicate NoDuplicates<T(==,!new)>(s: seq<T>)
  {
    forall i, j :: 0 <= i < j < |s| ==> s[i] != s[j]
  }

  /** `s` is obtained from `t` by deleting elements, keeping the order of the rest. */
  predicate IsSubsequence<T(==,!new)>(s: seq<T>, t: seq<T>)
    decreases |t|
  {
    if s == [] then true
    else if t == [] then false
    else if s[|s| - 1] == t[|t| - 1] then IsSubsequence(s[..|s| - 1], t[..|t| - 1])
    else IsSubsequence(s, t[..|t| - 1])
  }

  /** Index of the first occurrence of `x` in `s`. */
  function IndexOf<T(==,!new)>(s: seq<T>, x: T): (r: nat)
    requires x in s
    ensures r < |s| && s[r] == x && x !in s[..r]
    decreases |s|
  {
    if x in s[..|s| - 1] then IndexOf(s[..|s| - 1], x) else |s| - 1
  }

  /** `Array.prototype.filter`: the elements that `keep` accepts, in their input order. */
  function Filter<T(==,!new)>(a: seq<T>, keep: T -> bool): (r: seq<T>)
    ensures |r| <= |a|
    ensures forall x :: x in r <==> x in a && keep(x)
    decreases |a|
  {
    if a == [] then []
    else
      var f := Filter(a[..|a| - 1], keep);
      if keep(a[|a| - 1]) then f + [a[|a| - 1]] else f
  }

  /** Filtering keeps the order of the elements it keeps. */
  lemma {:induction false} FilterIsSubsequence<T(!new)>(a: seq<T>, keep: T -> bool)
    ensures IsSubsequence(Filter(a, keep), a)
    decreases |a|
  {
    if a != [] {
      var f := Filter(a[..|a| - 1], keep);
      FilterIsSubsequence(a[..|a| - 1], keep);
      if keep(a[|a| - 1]) {
        assert (f + [a[|a| - 1]])[..|f|] == f;
      } else if f != [] {
        assert f[|f| - 1] in f;
      }
    }
  }

  /** Filtering keeps every accepted element with its multiplicity and drops the others. */
  lemma {:induction false} FilterMultiset<T(!new)>(a: seq<T>, keep: T -> bool)
    ensures forall x :: multiset(Filter(a, keep))[x] == if keep(x) then multiset(a)[x] else 0
    decreases |a|
  {
    if a != [] {
      var init := a[..|a| - 1];
      FilterMultiset(init, keep);
      assert a == init + [a[|a| - 1]];
      assert multiset(a) == multiset(init) + multiset{a[|a| - 1]};
    }
  }

  /** Filtering distributes over concatenation. */
  lemma {:induction false} FilterConcat<T(!new)>(a: seq<T>, b: seq<T>, keep: T -> bool)
    ensures Filter(a + b, keep) == Filter(a, keep) + Filter(b, keep)
    decreases |b|
  {
    if b == [] {
      assert a + b == a;
    } else {
      var init := b[..|b| - 1];
      assert (a + b)[..|a + b| - 1] == a + init;
      FilterConcat(a, init, keep);
    }
  }

  /** Filtering keeps a sequence whose every element is accepted. */
  lemma {:induction false} FilterAll<T(!new)>(a: seq<T>, keep: T -> bool)
    requires forall i :: 0 <= i < |a| ==> keep(a[i])
    ensures Filter(a, keep) == a
    decreases |a|
  {
    if a != [] {
      var init, last := a[..|a| - 1], a[|a| - 1];
      FilterAll(init, keep);
      assert Filter(a, keep) == Filter(init, keep) + [last];
      InitLast(a);
    }
  }

  /** Filtering empties a sequence whose every element is rejected. */
  lemma FilterNone<T(!new)>(a: seq<T>, keep: T -> bool)
    requires forall i :: 0 <= i < |a| ==> !keep(a[i])
    ensures Filter(a, keep) == []
  {
  }

  /**
   * Two complementary filters split a sequence: every element lands in exactly one of
   * them, with its multiplicity.
   */
  lemma FilterSplit<T(!new)>(a: seq<T>, p: T -> bool, q: T -> bool)
    requires forall x :: q(x) == !p(x)
    ensures multiset(Filter(a, p)) + multiset(Filter(a, q)) == multiset(a)
    ensures |Filter(a, p)| + |Filter(a, q)| == |a|
  {
    var mp, mq := multiset(Filter(a, p)), multiset(Filter(a, q));
    FilterMultiset(a, p);
    FilterMultiset(a, q);
    assert mp + mq == multiset(a) by {
      forall x ensures (mp + mq)[x] == multiset(a)[x] {
        assert q(x) == !p(x);
      }
    }
    assert |mp + mq| == |multiset(a)|;
  }

  // ---------------------------------------------------------------------------------
  // unique, isEmpty
  // ---------------------------------------------------------------------------------

  /**
   * `unique(array)`, i.e. `Array.from(new Set(array))`: the elements are added to the
   * set from left to right, and a set keeps its first insertion order.
   */
  function Unique<T(==,!new)>(a: seq<T>): (r: seq<T>)
    ensures NoDuplicates(r)
    ensures forall x :: x in r <==> x in a
    decreases |a|
  {
    if a == [] then []
    else
      var u := Unique(a[..|a| - 1]);
      if a[|a| - 1] in u then u else u + [a[|a| - 1]]
  }

  /** An element of the prefix first occurs where it first occurs in the prefix. */
  lemma IndexOfInit<T(!new)>(a: seq<T>, x: T)
    requires a != [] && x in a[..|a| - 1]
    ensures IndexOf(a, x) == IndexOf(a[..|a| - 1], x)
  {
  }

  /** `unique` lists the elements in the order of their first occurrences. */
  lemma {:induction false} UniqueOrder<T(!new)>(a: seq<T>)
    ensures forall i, j :: 0 <= i < j < |Unique(a)| ==> IndexOf(a, Unique(a)[i]) < IndexOf(a, Unique(a)[j])
    decreases |a|
  {
    if a != [] {
      var init, last := a[..|a| - 1], a[|a| - 1];
      var u := Unique(init);
      UniqueOrder(init);
      if last in u {
        assert Unique(a) == u;
        forall i, j | 0 <= i < j < |u| ensures IndexOf(a, u[i]) < IndexOf(a, u[j]) {
          IndexOfInit(a, u[i]);
          IndexOfInit(a, u[j]);
        }
      } else {
        var r := u + [last];
        assert Unique(a) == r;
        assert IndexOf(a, last) == |a| - 1;
        forall i, j | 0 <= i < j < |r| ensures IndexOf(a, r[i]) < IndexOf(a, r[j]) {
          assert r[i] == u[i];
          IndexOfInit(a, u[i]);
          if j < |u| {
            assert r[j] == u[j];
            IndexOfInit(a, u[j]);
          }
        }
      }
    }
  }

  /** A duplicate-free sequence is its own `unique`. */
  lemma {:induction false} UniqueOfDistinct<T(!new)>(a: seq<T>)
    requires NoDuplicates(a)
    ensures Unique(a) == a
    decreases |a|
  {
    if a != [] {
      var init := a[..|a| - 1];
      UniqueOfDistinct(init);
      assert a[|a| - 1] !in init;
    }
  }

  /** `unique` is idempotent. */
  lemma UniqueIdempotent<T(!new)>(a: seq<T>)
    ensures Unique(Unique(a)) == Unique(a)
  {
    UniqueOfDistinct(Unique(a));
  }

  /** The order of first occurrences makes `unique` a subsequence of its input. */
  lemma {:induction false} UniqueIsSubsequence<T(!new)>(a: seq<T>)
    ensures IsSubsequence(Unique(a), a)
    decreases |a|
  {
    if a != [] {
      var init := a[..|a| - 1];
      UniqueIsSubsequence(init);
      var u := Unique(init);
      if a[|a| - 1] in u {
        SubsequenceExtend(u, init, a[|a| - 1]);
      } else {
        assert (u + [a[|a| - 1]])[..|u|] == u;
      }
    }
  }

  /** `unique([1, 2, 2, 3, 1])` is `[1, 2, 3]`. */
  lemma UniqueExample(a: seq<int>)
    requires a == [1, 2, 2, 3, 1]
    ensures Unique(a) == [1, 2, 3]
  {
    assert Unique(a[..1]) == [1] by { assert a[..1][..0] == []; }
    assert Unique(a[..2]) == [1, 2] by { assert a[..2][..1] == a[..1]; }
    assert Unique(a[..3]) == [1, 2] by { assert a[..3][..2] == a[..2]; }
    assert Unique(a[..4]) == [1, 2, 3] by { assert a[..4][..3] == a[..3]; }
    assert a[..5] == a;
  }

  /** A subsequence of `t` is a subsequence of `t` extended by one element. */
  lemma {:induction false} SubsequenceExtend<T(!new)>(s: seq<T>, t: seq<T>, x: T)
    requires IsSubsequence(s, t)
    ensures IsSubsequence(s, t + [x])
    decreases |t|, 1
  {
    if s != [] && s[|s| - 1] == x {
      // Matching the last element against `x` instead of against `t` keeps what is left
      // of `s` a subsequence of `t`.
      SubsequenceDropLast(s, t);
      assert (t + [x])[..|t|] == t;
    } else {
      assert (t + [x])[..|t|] == t;
    }
  }

  /** Dropping the last element of a subsequence keeps it a subsequence. */
  lemma {:induction false} SubsequenceDropLast<T(!new)>(s: seq<T>, t: seq<T>)
    requires s != [] && IsSubsequence(s, t)
    ensures IsSubsequence(s[..|s| - 1], t)
    decreases |t|, 0
  {
    var init := t[..|t| - 1];
    if s[|s| - 1] == t[|t| - 1] {
      SubsequenceExtend(s[..|s| - 1], init, t[|t| - 1]);
      assert init + [t[|t| - 1]] == t;
    } else {
      SubsequenceDropLast(s, init);
      SubsequenceExtend(s[..|s| - 1], init, t[|t| - 1]);
      assert init + [t[|t| - 1]] == t;
    }
  }

  /** `isEmpty(array)`: a defined array of length 0; a missing array is not empty. */
  predicate IsEmpty<T>(a: Optional<seq<T>>)
    ensures IsEmpty(a) <==> a == Defined([])
  {
    IsDefined(a) && |a.value| == 0
  }

  // ---------------------------------------------------------------------------------
  // without, withoutAll, intersection, difference
  // ---------------------------------------------------------------------------------

  /** `without(array, value)`: every occurrence of `value` removed, the rest in order. */
  function Without<T(==,!new)>(a: seq<T>, value: T): (r: seq<T>)
    ensures value !in r
    ensures IsSubsequence(r, a)
    ensures multiset(r) == multiset(a)[value := 0]
  {
    var r := Filter(a, item => item != value);
    FilterMultiset(a, item => item != value);
    FilterIsSubsequence(a, item => item != value);
    assert multiset(r) == multiset(a)[value := 0] by {
      forall x ensures multiset(r)[x] == multiset(a)[value := 0][x] {}
    }
    r
  }

  /** `withoutAll(array, values)`: every element that occurs in `values` removed. */
  function WithoutAll<T(==,!new)>(a: seq<T>, values: seq<T>): (r: seq<T>)
    ensures forall x :: x in r <==> x in a && x !in values
    ensures IsSubsequence(r, a)
    ensures forall x :: x !in values ==> multiset(r)[x] == multiset(a)[x]
  {
    FilterMultiset(a, item => item !in values);
    FilterIsSubsequence(a, item => item !in values);
    Filter(a, item => item !in values)
  }

  /** `intersection(a, b)`: the elements of `a` that occur in `b`, with `a`'s order and multiplicity. */
  function Intersection<T(==,!new)>(a: seq<T>, b: seq<T>): (r: seq<T>)
    ensures forall x :: x in r <==> x in a && x in b
    ensures IsSubsequence(r, a)
    ensures forall x :: x in b ==> multiset(r)[x] == multiset(a)[x]
  {
    FilterMultiset(a, item => item in b);
    FilterIsSubsequence(a, item => item in b);
    Filter(a, item => item in b)
  }

  /** `difference(a, b)`: the elements of `a` that do not occur in `b`, with `a`'s order and multiplicity. */
  function Difference<T(==,!new)>(a: seq<T>, b: seq<T>): (r: seq<T>)
    ensures forall x :: x in r <==> x in a && x !in b
    ensures IsSubsequence(r, a)
    ensures forall x :: x !in b ==> multiset(r)[x] == multiset(a)[x]
  {
    FilterMultiset(a, item => item !in b);
    FilterIsSubsequence(a, item => item !in b);
    Filter(a, item => item !in b)
  }

  /**
   * Intersection and difference split `a`: each element of `a` lands in exactly one of
   * them, so their lengths add up to `|a|`.
   */
  lemma IntersectionDifferenceSplit<T(!new)>(a: seq<T>, b: seq<T>)
    ensures multiset(Intersection(a, b)) + multiset(Difference(a, b)) == multiset(a)
    ensures |Intersection(a, b)| + |Difference(a, b)| == |a|
  {
    FilterSplit(a, item => item in b, item => item !in b);
  }

  /** `difference(a, b)` and `withoutAll(a, b)` are the same filter. */
  lemma DifferenceIsWithoutAll<T(!new)>(a: seq<T>, b: seq<T>)
    ensures Difference(a, b) == WithoutAll(a, b)
  {
    FilterSameKeep(a, item => item !in b, item => item !in b);
  }

  /** Filters with pointwise equal predicates agree. */
  lemma {:induction false} FilterSameKeep<T(!new)>(a: seq<T>, p: T -> bool, q: T -> bool)
    requires forall x :: p(x) == q(x)
    ensures Filter(a, p) == Filter(a, q)
    decreases |a|
  {
    if a != [] {
      FilterSameKeep(a[..|a| - 1], p, q);
      assert p(a[|a| - 1]) == q(a[|a| - 1]);
    }
  }

  // ---------------------------------------------------------------------------------
  // chunk
  // ---------------------------------------------------------------------------------

  /** Concatenation of a sequence of sequences. */
  function Flatten<T>(chunks: seq<seq<T>>): seq<T>
    decreases |chunks|
  {
    if chunks == [] then [] else Flatten(chunks[..|chunks| - 1]) + chunks[|chunks| - 1]
  }

  /** Flattening a sequence that starts with `w` starts with `w`. */
  lemma {:induction false} FlattenCons<T>(w: seq<T>, ws: seq<seq<T>>)
    ensures Flatten([w] + ws) == w + Flatten(ws)
    decreases |ws|
  {
    if ws == [] {
      assert [w] + ws == [w];
      assert [w][..0] == [];
    } else {
      var init := ws[..|ws| - 1];
      assert ([w] + ws)[..|ws|] == [w] + init;
      FlattenCons(w, init);
    }
  }

  /** `array.slice(start, end)` for `0 <= start`: the end is cut back to the length. */
  function Slice<T>(a: seq<T>, start: nat, end: nat): (r: seq<T>)
    requires start <= |a|
    ensures r == a[start..if end < |a| then (if end < start then start else end) else |a|]
  {
    if end < start then []
    else if end < |a| then a[start..end]
    else a[start..]
  }

  /**
   * `chunk(array, size)`: fails for `size <= 0`; otherwise consecutive slices of `size`
   * elements, the last one possibly shorter, that concatenate back to the input.
   */
  method Chunk<T>(a: seq<T>, size: int) returns (r: Result<seq<seq<T>>, string>)
    ensures r.Err? <==> size <= 0
    ensures r.Err? ==> r.error == ChunkSizeMessage
    ensures r.Ok? ==> Flatten(r.value) == a
    ensures r.Ok? ==> forall i :: 0 <= i < |r.value| - 1 ==> |r.value[i]| == size
    ensures r.Ok? && r.value != [] ==> 1 <= |r.value[|r.value| - 1]| <= size
    ensures r.Ok? ==> |r.value| == (|a| + size - 1) / size
  {
    if size <= 0 {
      return Err(ChunkSizeMessage);
    }
    var result: seq<seq<T>> := [];
    var i := 0;
    while i < |a|
      invariant Flatten(result) == a[..if i <= |a| then i else |a|]
      invariant forall k :: 0 <= k < |result| - 1 ==> |result[k]| == size
      invariant result != [] ==> 1 <= |result[|result| - 1]| <= size
      invariant result != [] && i <= |a| ==> |result[|result| - 1]| == size
      invariant result == [] ==> i == 0
    {
      var piece := Slice(a, i, i + size);
      assert a[..if i + size <= |a| then i + size else |a|] == a[..i] + piece;
      ghost var before := result;
      result := result + [piece];
      assert result[..|result| - 1] == before;
      assert Flatten(result) == Flatten(before) + piece;
      i := i + size;
    }
    ChunkShape(result, size, |a|);
    return Ok(result);
  }

  /**
   * Chunks of `size` elements but for a last one of 1 to `size` elements number the
   * rounded-up quotient of their total length by `size`.
   */
  lemma ChunkShape<T>(chunks: seq<seq<T>>, size: int, n: nat)
    requires size > 0 && |Flatten(chunks)| == n
    requires forall k :: 0 <= k < |chunks| - 1 ==> |chunks[k]| == size
    requires chunks != [] ==> 1 <= |chunks[|chunks| - 1]| <= size
    ensures |chunks| == (n + size - 1) / size
  {
    if chunks != [] {
      var init := chunks[..|chunks| - 1];
      FlattenFull(init, size);
    }
    ChunkCount(n, size, |chunks|);
  }

  /** Chunks of exactly `size` elements hold `|chunks| * size` elements. */
  lemma {:induction false} FlattenFull<T>(chunks: seq<seq<T>>, size: nat)
    requires forall k :: 0 <= k < |chunks| ==> |chunks[k]| == size
    ensures |Flatten(chunks)| == |chunks| * size
    decreases |chunks|
  {
    if chunks != [] {
      var init := chunks[..|chunks| - 1];
      FlattenFull(init, size);
      assert |Flatten(chunks)| == |Flatten(init)| + |chunks[|chunks| - 1]|;
      assert (|chunks| - 1) * size + size == |chunks| * size;
    }
  }

  /** `k` slices of `size` cover `n` elements exactly when `k` is the rounded-up quotient. */
  lemma ChunkCount(n: nat, size: int, k: nat)
    requires size > 0
    requires n <= k * size
    requires k == 0 || (k - 1) * size < n
    ensures k == (n + size - 1) / size
  {
    var q := (n + size - 1) / size;
    if k == 0 {
      assert n == 0;
    } else {
      assert (k - 1) * size <= n - 1;
      assert n + size - 1 < (k + 1) * size - 1 + 1;
      assert k * size <= n + size - 1;
      DivBetween(n + size - 1, size, k);
    }
  }

  /** Euclidean division recovers a quotient from bounds on the dividend. */
  lemma DivBetween(m: int, d: int, k: int)
    requires d > 0 && k * d <= m < (k + 1) * d
    ensures m / d == k
  {
    var q := m / d;
    assert q * d <= m < q * d + d;
    if q < k {
      MulLe(q + 1, k, d);
    } else if q > k {
      MulLe(k + 1, q, d);
    }
  }

  // ---------------------------------------------------------------------------------
  // groupBy
  // ---------------------------------------------------------------------------------

  /** The keys `keyFn` derives from the items. */
  function KeySet<T, K(==,!new)>(a: seq<T>, keyFn: T -> K): set<K>
  {
    set i | 0 <= i < |a| :: keyFn(a[i])
  }

  /** The items whose derived key is `k`, in input order. */
  function Group<T(==,!new), K(==,!new)>(a: seq<T>, keyFn: T -> K, k: K): seq<T>
  {
    Filter(a, item => keyFn(item) == k)
  }

  /** The dictionary `groupBy` is meant to build: each derived key maps to its group. */
  function Groups<T(==,!new), K(==,!new)>(a: seq<T>, keyFn: T -> K): (g: map<K, seq<T>>)
    ensures g.Keys == KeySet(a, keyFn)
    ensures forall k :: k in g ==> g[k] == Group(a, keyFn, k)
  {
    map k | k in KeySet(a, keyFn) :: Group(a, keyFn, k)
  }

  /** One more item adds its key to the key set. */
  lemma KeySetSnoc<T, K(!new)>(a: seq<T>, x: T, keyFn: T -> K)
    ensures KeySet(a + [x], keyFn) == KeySet(a, keyFn) + {keyFn(x)}
  {
    var b := a + [x];
    forall key | key in KeySet(b, keyFn) ensures key in KeySet(a, keyFn) + {keyFn(x)} {
      var i :| 0 <= i < |b| && keyFn(b[i]) == key;
      if i < |a| { assert b[i] == a[i]; }
    }
    forall key | key in KeySet(a, keyFn) ensures key in KeySet(b, keyFn) {
      var i :| 0 <= i < |a| && keyFn(a[i]) == key;
      assert b[i] == a[i];
    }
    assert b[|a|] == x;
  }

  /** One more item is appended to its own group and leaves the others alone. */
  lemma GroupSnoc<T(!new), K(!new)>(a: seq<T>, x: T, keyFn: T -> K, k: K)
    ensures Group(a + [x], keyFn, k) == Group(a, keyFn, k) + if keyFn(x) == k then [x] else []
  {
    assert (a + [x])[..|a|] == a;
  }

  /** A key that no item derives has an empty group. */
  lemma GroupEmpty<T(!new), K(!new)>(a: seq<T>, keyFn: T -> K, k: K)
    requires k !in KeySet(a, keyFn)
    ensures Group(a, keyFn, k) == []
  {
    forall i | 0 <= i < |a| ensures keyFn(a[i]) != k {
      assert keyFn(a[i]) in KeySet(a, keyFn);
    }
    FilterNone(a, item => keyFn(item) == k);
  }

  /** One more item extends its own group, creating it when needed, and nothing else. */
  lemma GroupsSnoc<T(!new), K(!new)>(a: seq<T>, x: T, keyFn: T -> K)
    ensures var g, k := Groups(a, keyFn), keyFn(x);
            Groups(a + [x], keyFn) == g[k := (if k in g then g[k] else []) + [x]]
  {
    var g, k := Groups(a, keyFn), keyFn(x);
    var g' := Groups(a + [x], keyFn);
    var h := g[k := (if k in g then g[k] else []) + [x]];
    KeySetSnoc(a, x, keyFn);
    assert g'.Keys == h.Keys;
    forall key | key in g' ensures g'[key] == h[key] {
      GroupSnoc(a, x, keyFn, key);
      if key == k && k !in g {
        GroupEmpty(a, keyFn, k);
      }
    }
  }

  /**
   * `groupBy(array, keyFn)`: folds the items into a dictionary, creating the group of a
   * key on its first item and appending to it after that.
   */
  method GroupBy<T(==,!new), K(==,!new)>(a: seq<T>, keyFn: T -> K) returns (acc: map<K, seq<T>>)
    ensures acc == Groups(a, keyFn)
  {
    acc := map[];
    var i := 0;
    while i < |a|
      invariant 0 <= i <= |a|
      invariant acc == Groups(a[..i], keyFn)
    {
      var item := a[i];
      var key := keyFn(item);
      ghost var before := acc;
      if key !in acc {
        acc := acc[key := []];
      }
      acc := acc[key := acc[key] + [item]];
      assert acc == before[key := (if key in before then before[key] else []) + [item]];
      GroupsSnoc(a[..i], item, keyFn);
      assert a[..i + 1] == a[..i] + [item];
      i := i + 1;
    }
    assert a[..i] == a;
  }

  /** Total length of the groups listed in `ks`. */
  function GroupSizes<T(==,!new), K(==,!new)>(a: seq<T>, keyFn: T -> K, ks: seq<K>): nat
    decreases |ks|
  {
    if ks == [] then 0
    else GroupSizes(a, keyFn, ks[..|ks| - 1]) + |Group(a, keyFn, ks[|ks| - 1])|
  }

  /** One more item adds one to the total exactly when its key is listed. */
  lemma {:induction false} GroupSizesSnoc<T(!new), K(!new)>(a: seq<T>, x: T, keyFn: T -> K, ks: seq<K>)
    requires NoDuplicates(ks)
    ensures GroupSizes(a + [x], keyFn, ks) == GroupSizes(a, keyFn, ks) + if keyFn(x) in ks then 1 else 0
    decreases |ks|
  {
    if ks != [] {
      var init := ks[..|ks| - 1];
      var k := ks[|ks| - 1];
      GroupSizesSnoc(a, x, keyFn, init);
      assert (a + [x])[..|a|] == a;
      assert keyFn(x) in ks <==> keyFn(x) in init || keyFn(x) == k;
      assert k !in init;
    }
  }

  /** Over any duplicate-free listing of the derived keys, the group sizes add up to `|a|`. */
  lemma {:induction false} GroupSizesSum<T(!new), K(!new)>(a: seq<T>, keyFn: T -> K, ks: seq<K>)
    requires NoDuplicates(ks)
    requires KeySet(a, keyFn) <= set k | k in ks
    ensures GroupSizes(a, keyFn, ks) == |a|
    decreases |a|
  {
    if a == [] {
      GroupSizesEmpty(keyFn, ks);
    } else {
      var init, x := a[..|a| - 1], a[|a| - 1];
      assert a == init + [x];
      assert KeySet(init, keyFn) <= KeySet(a, keyFn) by {
        forall key | key in KeySet(init, keyFn) ensures key in KeySet(a, keyFn) {
          var i :| 0 <= i < |init| && keyFn(init[i]) == key;
          assert a[i] == init[i];
        }
      }
      assert keyFn(a[|a| - 1]) in KeySet(a, keyFn);
      GroupSizesSum(init, keyFn, ks);
      GroupSizesSnoc(init, x, keyFn, ks);
    }
  }

  /** With no items, every group is empty. */
  lemma {:induction false} GroupSizesEmpty<T(!new), K(!new)>(keyFn: T -> K, ks: seq<K>)
    ensures GroupSizes([], keyFn, ks) == 0
    decreases |ks|
  {
    if ks != [] {
      GroupSizesEmpty(keyFn, ks[..|ks| - 1]);
    }
  }

  /** The groups `groupBy` returns, over any duplicate-free listing of its keys, hold `|a|` items. */
  lemma GroupBySizes<T(!new), K(!new)>(a: seq<T>, keyFn: T -> K, ks: seq<K>)
    requires NoDuplicates(ks)
    requires Groups(a, keyFn).Keys == set k | k in ks
    ensures GroupSizes(a, keyFn, ks) == |a|
  {
    GroupSizesSum(a, keyFn, ks);
  }

  // ---------------------------------------------------------------------------------
  // partition, zip
  // ---------------------------------------------------------------------------------

  /**
   * `partition(array, predicate)`: the items for which the predicate holds and the
   * others, both in input order.
   */
  method Partition<T(==,!new)>(a: seq<T>, test: T -> bool) returns (truthy: seq<T>, falsy: seq<T>)
    ensures truthy == Filter(a, test)
    ensures falsy == Filter(a, item => !test(item))
    ensures multiset(truthy) + multiset(falsy) == multiset(a)
    ensures |truthy| + |falsy| == |a|
  {
    truthy, falsy := [], [];
    var i := 0;
    while i < |a|
      invariant 0 <= i <= |a|
      invariant truthy == Filter(a[..i], test)
      invariant falsy == Filter(a[..i], item => !test(item))
    {
      var item := a[i];
      assert a[..i + 1][..i] == a[..i];
      if test(item) {
        truthy := truthy + [item];
      } else {
        falsy := falsy + [item];
      }
      i := i + 1;
    }
    assert a[..i] == a;
    FilterSplit(a, test, item => !test(item));
  }

  /** `zip(a, b)`: pairs at matching indexes, up to the shorter length. */
  method Zip<A, B>(a: seq<A>, b: seq<B>) returns (result: seq<(A, B)>)
    ensures |result| == if |a| <= |b| then |a| else |b|
    ensures forall i :: 0 <= i < |result| ==> result[i] == (a[i], b[i])
  {
    var length := if |a| <= |b| then |a| else |b|;
    result := [];
    var i := 0;
    while i < length
      invariant 0 <= i <= length
      invariant |result| == i
      invariant forall k :: 0 <= k < i ==> result[k] == (a[k], b[k])
    {
      result := result + [(a[i], b[i])];
      i := i + 1;
    }
  }

  // ---------------------------------------------------------------------------------
  // Proof helpers. These state no property of the library: each is one step of
  // sequence or arithmetic reasoning, kept as a lemma of its own to keep the proofs
  // that use it small and stable.
  // ---------------------------------------------------------------------------------

  /** A non-empty sequence is its prefix followed by its last element. */
  lemma InitLast<T>(a: seq<T>)
    requires a != []
    ensures a[..|a| - 1] + [a[|a| - 1]] == a
  {
  }

  /** Multiplying by a positive number keeps the order. */
  lemma MulLe(a: int, b: int, d: int)
    requires a <= b && d > 0
    ensures a * d <= b * d
  {
  }
}
