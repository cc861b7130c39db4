/** Sequence helpers shared by the whole model: options, distinctness, filters,
    Python's stable `sort(key=..., reverse=True)`, `max(..., key=...)`, slicing,
    order-preserving de-duplication and sums. */
module Util {

  datatype Option<T> = None | Some(value: T)

  /** Python's `d.get(key, default)` once the lookup is an option. */
  function Or<T>(o: Option<T>, d: T): T { if o.Some? then o.value else d }

  /** An outcome that may be a raised exception, named by `error`. */
  datatype Result<T> = Success(value: T) | Failure(error: string)

  /** No element occurs twice. */
  predicate Distinct<T(==)>(s: seq<T>) {
    forall i, j :: 0 <= i < j < |s| ==> s[i] != s[j]
  }

  /** Python's `s[:n]`. */
  function Take<T>(s: seq<T>, n: nat): (r: seq<T>)
    ensures |r| == if n < |s| then n else |s|
    ensures r == s[..|r|]
  {
    if n < |s| then s[..n] else s
  }

  function Min(a: nat, b: nat): nat { if a < b then a else b }

  /** `[x for x in s if p(x)]` */
  function Filter<T(==)>(s: seq<T>, p: T -> bool): (r: seq<T>)
    ensures |r| <= |s|
    ensures forall i :: 0 <= i < |r| ==> r[i] in s && p(r[i])
    ensures forall i :: 0 <= i < |s| && p(s[i]) ==> s[i] in r
  {
    if s == [] then [] else (if p(s[0]) then [s[0]] else []) + Filter(s[1..], p)
  }

  /** `[f(x) for x in s]` */
  function Map<T, U>(s: seq<T>, f: T -> U): (r: seq<U>)
    ensures |r| == |s|
    ensures forall i :: 0 <= i < |s| ==> r[i] == f(s[i])
  {
    seq(|s|, i requires 0 <= i < |s| => f(s[i]))
  }

  lemma MapAppend<T, U>(a: seq<T>, b: seq<T>, f: T -> U)
    ensures Map(a + b, f) == Map(a, f) + Map(b, f)
  {
  }

  lemma MapTake<T, U>(s: seq<T>, n: nat, f: T -> U)
    ensures Map(Take(s, n), f) == Take(Map(s, f), n)
  {
  }

  /** A permutation stays a permutation under `Map`. */
  lemma {:induction false} MapMultiset<T, U>(s: seq<T>, t: seq<T>, f: T -> U)
    requires multiset(s) == multiset(t)
    ensures multiset(Map(s, f)) == multiset(Map(t, f))
    decreases |s|
  {
    if s != [] {
      var x := s[0];
      assert x in multiset(t);
      var i :| 0 <= i < |t| && t[i] == x;
      var t' := t[..i] + t[i + 1..];
      RemoveAt(t, i);
      assert s == [x] + s[1..];
      assert multiset(s[1..]) == multiset(t');
      MapMultiset(s[1..], t', f);
      MapAppend([x], s[1..], f);
      MapRemoveAt(t, i, f);
      assert Map([x], f) == [f(x)];
      calc {
        multiset(Map(s, f));
        multiset(Map([x], f) + Map(s[1..], f));
        multiset{f(x)} + multiset(Map(s[1..], f));
        multiset{f(x)} + multiset(Map(t', f));
        multiset(Map(t, f));
      }
    }
  }

  lemma RemoveAt<T>(t: seq<T>, i: nat)
    requires i < |t|
    ensures multiset(t[..i] + t[i + 1..]) == multiset(t) - multiset{t[i]}
  {
    assert t == t[..i] + [t[i]] + t[i + 1..];
  }

  lemma MapRemoveAt<T, U>(t: seq<T>, i: nat, f: T -> U)
    requires i < |t|
    ensures multiset(Map(t, f)) == multiset(Map(t[..i] + t[i + 1..], f)) + multiset{f(t[i])}
  {
    assert t == t[..i] + [t[i]] + t[i + 1..];
    MapAppend(t[..i] + [t[i]], t[i + 1..], f);
    MapAppend(t[..i], [t[i]], f);
    MapAppend(t[..i], t[i + 1..], f);
  }

  lemma {:induction false} FilterAppend<T>(a: seq<T>, b: seq<T>, p: T -> bool)
    ensures Filter(a + b, p) == Filter(a, p) + Filter(b, p)
  {
    if a != [] {
      assert (a + b)[1..] == a[1..] + b;
      FilterAppend(a[1..], b, p);
    } else {
      assert a + b == b;
    }
  }

  lemma FilterSnoc<T>(a: seq<T>, x: T, p: T -> bool)
    ensures Filter(a + [x], p) == Filter(a, p) + (if p(x) then [x] else [])
  {
    FilterAppend(a, [x], p);
  }

  lemma {:induction false} FilterDistinct<T>(s: seq<T>, p: T -> bool)
    requires Distinct(s)
    ensures Distinct(Filter(s, p))
  {
    if s != [] {
      FilterDistinct(s[1..], p);
    }
  }

  // ---------------------------------------------------------------------------
  // Slicing facts, stated once for every element type: sequences of sequences
  // (lists of strings) make the solver's own extensionality reasoning costly.

  lemma AppendAssoc<T>(x: seq<T>, y: seq<T>, z: seq<T>)
    ensures x + (y + z) == (x + y) + z
  {
  }

  lemma AppendSlices<T>(a: seq<T>, b: seq<T>, n: nat)
    requires n <= |a|
    ensures (a + b)[..n] == a[..n]
    ensures (a + b)[n..] == a[n..] + b
  {
  }

  lemma AppendHalves<T>(a: seq<T>, b: seq<T>)
    ensures (a + b)[..|a|] == a
    ensures (a + b)[|a|..] == b
  {
  }

  lemma SplitAt<T>(s: seq<T>, k: nat)
    requires k <= |s|
    ensures s[..k] + s[k..] == s
  {
  }

  lemma InitLast<T>(s: seq<T>)
    requires s != []
    ensures s[..|s| - 1] + [s[|s| - 1]] == s
  {
  }

  lemma SliceSnoc<T>(s: seq<T>, k: nat, i: nat)
    requires k <= i < |s|
    ensures s[k..i + 1] == s[k..i] + [s[i]]
  {
  }

  lemma SliceCut<T>(s: seq<T>, k: nat, i: nat)
    requires k <= i <= |s|
    ensures s[..i] == s[..k] + s[k..i]
  {
  }

  // ---------------------------------------------------------------------------
  // Stable descending sort: Python's `list.sort(key=key, reverse=True)`.

  /** Non-increasing by `key`. */
  predicate SortedDesc<T>(s: seq<T>, key: T -> real) {
    forall i, j :: 0 <= i < j < |s| ==> key(s[j]) <= key(s[i])
  }

  /** The elements whose key equals `k`, in their order in `s`. */
  function KeyFilter<T>(s: seq<T>, key: T -> real, k: real): seq<T> {
    if s == [] then [] else (if key(s[0]) == k then [s[0]] else []) + KeyFilter(s[1..], key, k)
  }

  /** Puts `x` in front of the first element whose key is not larger. */
  function Insert<T>(x: T, s: seq<T>, key: T -> real): seq<T> {
    if s == [] then [x]
    else if key(s[0]) <= key(x) then [x] + s
    else [s[0]] + Insert(x, s[1..], key)
  }

  /** Insertion sort from the back, so that of two equal keys the earlier one
      ends up first: exactly the result of a stable sort in reverse order. */
  function SortDesc<T>(s: seq<T>, key: T -> real): seq<T> {
    if s == [] then [] else Insert(s[0], SortDesc(s[1..], key), key)
  }

  lemma {:induction false} InsertMultiset<T>(x: T, s: seq<T>, key: T -> real)
    ensures multiset(Insert(x, s, key)) == multiset(s) + multiset{x}
    ensures |Insert(x, s, key)| == |s| + 1
  {
    if s != [] && key(x) < key(s[0]) {
      InsertMultiset(x, s[1..], key);
      assert s == [s[0]] + s[1..];
    }
  }

  lemma {:induction false} InsertSorted<T>(x: T, s: seq<T>, key: T -> real)
    requires SortedDesc(s, key)
    ensures SortedDesc(Insert(x, s, key), key)
  {
    if s != [] && key(x) < key(s[0]) {
      InsertSorted(x, s[1..], key);
      InsertMultiset(x, s[1..], key);
      var t := Insert(x, s[1..], key);
      var r := [s[0]] + t;
      assert Insert(x, s, key) == r;
      forall j | 0 < j < |r| ensures key(r[j]) <= key(r[0]) {
        assert r[j] == t[j - 1];
        assert r[j] in multiset(t);
        if r[j] != x {
          assert r[j] in multiset(s[1..]);
          assert r[j] in s[1..];
        }
      }
    }
  }

  lemma {:induction false} InsertKeyFilter<T>(x: T, s: seq<T>, key: T -> real, k: real)
    ensures KeyFilter(Insert(x, s, key), key, k)
            == (if key(x) == k then [x] else []) + KeyFilter(s, key, k)
  {
    if s != [] && key(x) < key(s[0]) {
      InsertKeyFilter(x, s[1..], key, k);
      var r := Insert(x, s, key);
      assert r[1..] == Insert(x, s[1..], key);
    } else if s != [] {
      var r := Insert(x, s, key);
      assert r[1..] == s;
    }
  }

  /** The sort is a permutation, is sorted, and keeps the relative order of the
      elements of every key: the three halves of "stable sort, descending". */
  lemma SortDescFacts<T>(s: seq<T>, key: T -> real)
    ensures multiset(SortDesc(s, key)) == multiset(s)
    ensures |SortDesc(s, key)| == |s|
    ensures SortedDesc(SortDesc(s, key), key)
    ensures forall k :: KeyFilter(SortDesc(s, key), key, k) == KeyFilter(s, key, k)
  {
    SortDescPerm(s, key);
    SortDescSorted(s, key);
    SortDescStable(s, key);
  }

  /** The sort is a permutation. */
  lemma {:induction false} SortDescPerm<T>(s: seq<T>, key: T -> real)
    ensures multiset(SortDesc(s, key)) == multiset(s)
    ensures |SortDesc(s, key)| == |s|
  {
    if s != [] {
      SortDescPerm(s[1..], key);
      InsertMultiset(s[0], SortDesc(s[1..], key), key);
      assert s == [s[0]] + s[1..];
      assert multiset(s) == multiset{s[0]} + multiset(s[1..]);
    }
  }

  /** The sort is sorted. */
  lemma {:induction false} SortDescSorted<T>(s: seq<T>, key: T -> real)
    ensures SortedDesc(SortDesc(s, key), key)
  {
    if s != [] {
      SortDescSorted(s[1..], key);
      InsertSorted(s[0], SortDesc(s[1..], key), key);
    }
  }

  /** The sort keeps the order of equal keys. */
  lemma {:induction false} SortDescStable<T>(s: seq<T>, key: T -> real)
    ensures forall k :: KeyFilter(SortDesc(s, key), key, k) == KeyFilter(s, key, k)
  {
    if s != [] {
      SortDescStable(s[1..], key);
      forall k ensures KeyFilter(SortDesc(s, key), key, k) == KeyFilter(s, key, k) {
        InsertKeyFilter(s[0], SortDesc(s[1..], key), key, k);
      }
    }
  }

  lemma SortDescSameElements<T>(s: seq<T>, key: T -> real)
    ensures forall x :: x in SortDesc(s, key) <==> x in s
  {
    SortDescFacts(s, key);
    forall x ensures x in SortDesc(s, key) <==> x in s {
      assert x in SortDesc(s, key) <==> x in multiset(SortDesc(s, key));
      assert x in s <==> x in multiset(s);
    }
  }

  lemma DistinctMultiset<T>(s: seq<T>, t: seq<T>)
    requires Distinct(s) && multiset(s) == multiset(t)
    ensures Distinct(t)
  {
    forall i, j | 0 <= i < j < |t| ensures t[i] != t[j] {
      if t[i] == t[j] {
        var x := t[i];
        assert t == t[..i] + [x] + t[i+1..j] + [x] + t[j+1..];
        assert multiset(t)[x] >= 2;
        MultiplicityInDistinct(s, x);
      }
    }
  }

  lemma {:induction false} MultiplicityInDistinct<T>(s: seq<T>, x: T)
    requires Distinct(s)
    ensures multiset(s)[x] <= 1
  {
    if s != [] {
      assert s == [s[0]] + s[1..];
      MultiplicityInDistinct(s[1..], x);
      if s[0] == x {
        assert x !in s[1..];
        assert multiset(s[1..])[x] == 0;
      }
    }
  }

  lemma SortDescDistinct<T>(s: seq<T>, key: T -> real)
    requires Distinct(s)
    ensures Distinct(SortDesc(s, key))
  {
    SortDescFacts(s, key);
    DistinctMultiset(s, SortDesc(s, key));
  }

  /** `sorted(s, key=key, reverse=True)[:n]`: sorted, drawn from `s`, and no
      element left out has a larger key than one kept. */
  lemma TopFacts<T>(s: seq<T>, key: T -> real, n: nat)
    ensures |Take(SortDesc(s, key), n)| == Min(n, |s|)
    ensures SortedDesc(Take(SortDesc(s, key), n), key)
    ensures multiset(Take(SortDesc(s, key), n)) <= multiset(s)
    ensures forall x, i :: x in s && x !in Take(SortDesc(s, key), n) && 0 <= i < |Take(SortDesc(s, key), n)|
              ==> key(x) <= key(Take(SortDesc(s, key), n)[i])
  {
    SortDescFacts(s, key);
    PrefixOfSorted(s, SortDesc(s, key), key, n);
  }

  /** One instance of the last clause of `TopFacts`. */
  lemma KeyBelow<T>(s: seq<T>, key: T -> real, n: nat, x: T, i: nat)
    requires x in s && x !in Take(SortDesc(s, key), n) && i < |Take(SortDesc(s, key), n)|
    ensures key(x) <= key(Take(SortDesc(s, key), n)[i])
  {
    TopFacts(s, key, n);
  }

  lemma PrefixOfSorted<T>(s: seq<T>, t: seq<T>, key: T -> real, n: nat)
    requires multiset(t) == multiset(s) && SortedDesc(t, key)
    ensures SortedDesc(Take(t, n), key)
    ensures multiset(Take(t, n)) <= multiset(s)
    ensures forall x, i :: x in s && x !in Take(t, n) && 0 <= i < |Take(t, n)| ==> key(x) <= key(Take(t, n)[i])
  {
    var r := Take(t, n);
    assert t == r + t[|r|..];
    assert multiset(t) == multiset(r) + multiset(t[|r|..]);
    forall x, i | x in s && x !in r && 0 <= i < |r| ensures key(x) <= key(r[i]) {
      assert x in multiset(s);
      assert x in multiset(t);
      var j :| 0 <= j < |t| && t[j] == x;
      assert j >= |r|;
      assert r[i] == t[i];
    }
  }

  // ---------------------------------------------------------------------------
  // Python's `max(s, key=key)`: the FIRST element of maximal key.

  function ArgMax<T>(s: seq<T>, key: T -> real): (i: nat)
    requires |s| > 0
    ensures i < |s|
    ensures forall j :: 0 <= j < |s| ==> key(s[j]) <= key(s[i])
    ensures forall j :: 0 <= j < i ==> key(s[j]) < key(s[i])
  {
    if |s| == 1 then 0
    else
      var i := ArgMax(s[..|s| - 1], key);
      if key(s[i]) < key(s[|s| - 1]) then |s| - 1 else i
  }

  /** Appending an element moves the first maximum to it only when its key
      is strictly larger. */
  lemma ArgMaxSnoc<T>(s: seq<T>, x: T, key: T -> real)
    requires |s| > 0
    ensures ArgMax(s + [x], key) == if key(s[ArgMax(s, key)]) < key(x) then |s| else ArgMax(s, key)
  {
    assert (s + [x])[..|s|] == s;
  }

  /** The elements of `s` that pass `p`, in order. */
  function Keep<T>(s: seq<T>, p: T -> bool): seq<T> {
    if s == [] then [] else Keep(s[..|s| - 1], p) + (if p(s[|s| - 1]) then [s[|s| - 1]] else [])
  }

  lemma {:induction false} KeepNone<T>(s: seq<T>, p: T -> bool)
    requires Keep(s, p) == []
    ensures forall j :: 0 <= j < |s| ==> !p(s[j])
  {
    if s != [] {
      KeepNone(s[..|s| - 1], p);
      forall j | 0 <= j < |s| - 1 ensures !p(s[j]) {
        assert s[..|s| - 1][j] == s[j];
      }
    }
  }

  /** Position `i` of `s` holds the element `max` picks among those passing
      `p`: no larger key passing `p` anywhere, no equal one before it. */
  ghost predicate FirstBestAt<T>(s: seq<T>, p: T -> bool, key: T -> real, i: nat) {
    && Keep(s, p) != []
    && i < |s| && s[i] == Keep(s, p)[ArgMax(Keep(s, p), key)] && p(s[i])
    && (forall j :: 0 <= j < |s| && p(s[j]) ==> key(s[j]) <= key(s[i]))
    && (forall j :: 0 <= j < i && p(s[j]) ==> key(s[j]) < key(s[i]))
  }

  lemma {:induction false} FirstBestKept<T>(s: seq<T>, p: T -> bool, key: T -> real) returns (i: nat)
    requires Keep(s, p) != []
    ensures FirstBestAt(s, p, key, i)
  {
    var n := |s| - 1;
    var init := s[..n];
    if !p(s[n]) {
      assert Keep(s, p) == Keep(init, p);
      i := FirstBestKept(init, p, key);
      KeptSkip(s, p, key, i);
    } else if Keep(init, p) == [] {
      KeepNone(init, p);
      forall j | 0 <= j < n ensures !p(s[j]) {
        assert s[j] == init[j];
      }
      i := n;
      KeptLone(s, p, key);
    } else {
      var i0 := FirstBestKept(init, p, key);
      i := if key(s[i0]) < key(s[n]) then n else i0;
      KeptNew(s, p, key, i0);
    }
  }

  lemma KeptSkip<T>(s: seq<T>, p: T -> bool, key: T -> real, i: nat)
    requires |s| > 0 && !p(s[|s| - 1]) && FirstBestAt(s[..|s| - 1], p, key, i)
    ensures FirstBestAt(s, p, key, i)
  {
    var init := s[..|s| - 1];
    assert Keep(s, p) == Keep(init, p);
    assert s[i] == init[i];
    forall j | 0 <= j < |s| && p(s[j]) ensures key(s[j]) <= key(s[i]) {
      assert j < |s| - 1 && s[j] == init[j];
    }
    forall j | 0 <= j < i && p(s[j]) ensures key(s[j]) < key(s[i]) {
      assert s[j] == init[j];
    }
  }

  lemma KeptLone<T>(s: seq<T>, p: T -> bool, key: T -> real)
    requires |s| > 0 && p(s[|s| - 1]) && forall j :: 0 <= j < |s| - 1 ==> !p(s[j])
    ensures FirstBestAt(s, p, key, |s| - 1)
  {
    var init := s[..|s| - 1];
    forall j | 0 <= j < |init| ensures !p(init[j]) {
      assert s[j] == init[j];
    }
    KeepAll(init, p);
    assert Keep(s, p) == [s[|s| - 1]];
  }

  lemma KeptNew<T>(s: seq<T>, p: T -> bool, key: T -> real, i0: nat)
    requires |s| > 0 && p(s[|s| - 1]) && FirstBestAt(s[..|s| - 1], p, key, i0)
    ensures FirstBestAt(s, p, key, if key(s[i0]) < key(s[|s| - 1]) then |s| - 1 else i0)
  {
    var n := |s| - 1;
    var init := s[..n];
    var last := s[n];
    var m0 := Keep(init, p);
    var m := Keep(s, p);
    assert m == m0 + [last];
    ArgMaxSnoc(m0, last, key);
    var k0 := ArgMax(m0, key);
    assert s[i0] == init[i0] == m0[k0] == m[k0];
    if key(s[i0]) < key(last) {
      assert m[|m0|] == last;
      forall j | 0 <= j < n && p(s[j]) ensures key(s[j]) < key(last) {
        assert s[j] == init[j];
      }
    } else {
      forall j | 0 <= j < |s| && p(s[j]) ensures key(s[j]) <= key(s[i0]) {
        if j < n {
          assert s[j] == init[j];
        }
      }
      forall j | 0 <= j < i0 && p(s[j]) ensures key(s[j]) < key(s[i0]) {
        assert s[j] == init[j];
      }
    }
  }

  lemma {:induction false} KeepAll<T>(s: seq<T>, p: T -> bool)
    requires forall j :: 0 <= j < |s| ==> !p(s[j])
    ensures Keep(s, p) == []
  {
    if s != [] {
      var init := s[..|s| - 1];
      forall j | 0 <= j < |init| ensures !p(init[j]) {
        assert init[j] == s[j];
      }
      KeepAll(init, p);
    }
  }

  // ---------------------------------------------------------------------------
  // Insertion-ordered dictionaries: a Python dict built key by key keeps the
  // position of a key's first insertion and the value of its last.

  /** The keys of a list in first-occurrence order. */
  function Dedup<T(==)>(s: seq<T>): seq<T> {
    if s == [] then []
    else
      var d := Dedup(s[..|s| - 1]);
      if s[|s| - 1] in d then d else d + [s[|s| - 1]]
  }

  /** Every element once, and nothing else. */
  lemma {:induction false} DedupFacts<T>(s: seq<T>)
    ensures Distinct(Dedup(s))
    ensures forall x :: x in Dedup(s) <==> x in s
    ensures |Dedup(s)| <= |s|
  {
    if s != [] {
      var init := s[..|s| - 1];
      DedupFacts(init);
      assert s == init + [s[|s| - 1]];
    }
  }

  lemma DedupSnoc<T>(s: seq<T>, x: T)
    ensures Dedup(s + [x]) == if x in s then Dedup(s) else Dedup(s) + [x]
  {
    assert (s + [x])[..|s|] == s;
    DedupFacts(s);
  }

  lemma DistinctSnoc<T>(s: seq<T>, x: T)
    requires Distinct(s) && x !in s
    ensures Distinct(s + [x])
  {
    var t := s + [x];
    forall i, j | 0 <= i < j < |t| ensures t[i] != t[j] {
      if j == |s| {
        assert t[i] in s;
      }
    }
  }

  lemma DistinctAppend<T>(a: seq<T>, b: seq<T>)
    requires Distinct(a) && Distinct(b) && forall x :: x in a ==> x !in b
    ensures Distinct(a + b)
  {
    var t := a + b;
    forall i, j | 0 <= i < j < |t| ensures t[i] != t[j] {
      if i < |a| && j >= |a| {
        assert t[i] in a && t[j] == b[j - |a|];
      } else if i >= |a| {
        assert t[i] == b[i - |a|] && t[j] == b[j - |a|];
      }
    }
  }

  lemma {:induction false} DedupOfDistinct<T>(s: seq<T>)
    requires Distinct(s)
    ensures Dedup(s) == s
  {
    if s != [] {
      DedupOfDistinct(s[..|s| - 1]);
      DedupFacts(s[..|s| - 1]);
      assert s[|s| - 1] !in s[..|s| - 1];
      assert s[..|s| - 1] + [s[|s| - 1]] == s;
    }
  }

  // ---------------------------------------------------------------------------
  // Sums and bounds over reals.

  function Sum(s: seq<real>): real {
    if s == [] then 0.0 else Sum(s[..|s| - 1]) + s[|s| - 1]
  }

  /** A mean lies between any lower and upper bound of its terms. */
  lemma {:induction false} SumBounds(s: seq<real>, lo: real, hi: real)
    requires forall i :: 0 <= i < |s| ==> lo <= s[i] <= hi
    ensures |s| as real * lo <= Sum(s) <= |s| as real * hi
  {
    if s != [] {
      SumBounds(s[..|s| - 1], lo, hi);
      assert s[|s| - 1] == s[|s| - 1];
    }
  }

  function MinOf(s: seq<real>): (m: real)
    requires |s| > 0
    ensures m in s
    ensures forall i :: 0 <= i < |s| ==> m <= s[i]
  {
    if |s| == 1 then s[0]
    else
      var m := MinOf(s[..|s| - 1]);
      assert forall i :: 0 <= i < |s| - 1 ==> s[..|s| - 1][i] == s[i];
      if s[|s| - 1] < m then s[|s| - 1] else m
  }

  function MaxOf(s: seq<real>): (m: real)
    requires |s| > 0
    ensures m in s
    ensures forall i :: 0 <= i < |s| ==> s[i] <= m
  {
    if |s| == 1 then s[0]
    else
      var m := MaxOf(s[..|s| - 1]);
      assert forall i :: 0 <= i < |s| - 1 ==> s[..|s| - 1][i] == s[i];
      if m < s[|s| - 1] then s[|s| - 1] else m
  }
}
