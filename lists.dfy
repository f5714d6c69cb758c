/** The sequence operations the LINQ pipelines of the modelled code are built
    from: Where, Select, Concat, SelectMany, Distinct and OrderBy. */
module Lists {

  /** No element occurs twice. */
  predicate NoDup<T(==)>(s: seq<T>) {
    forall i, j | 0 <= i < j < |s| :: s[i] != s[j]
  }

  /** `a` is `b` with some elements removed and the rest in their order. */
  predicate IsSubseq<T(==)>(a: seq<T>, b: seq<T>)
    decreases |b|
  {
    if a == [] then true
    else if b == [] then false
    else (a[0] == b[0] && IsSubseq(a[1..], b[1..])) || IsSubseq(a, b[1..])
  }

  lemma {:induction false} SubseqRefl<T>(s: seq<T>)
    ensures IsSubseq(s, s)
  {
    if s != [] {
      SubseqRefl(s[1..]);
    }
  }

  lemma {:induction false} SubseqElems<T>(a: seq<T>, b: seq<T>)
    requires IsSubseq(a, b)
    ensures forall x :: x in a ==> x in b
    decreases |b|
  {
    if a != [] && b != [] {
      if a[0] == b[0] && IsSubseq(a[1..], b[1..]) {
        SubseqElems(a[1..], b[1..]);
        assert forall x :: x in a ==> x == a[0] || x in a[1..];
      } else {
        SubseqElems(a, b[1..]);
      }
    }
  }

  lemma {:induction false} SubseqConcat<T>(a1: seq<T>, b1: seq<T>, a2: seq<T>, b2: seq<T>)
    requires IsSubseq(a1, b1) && IsSubseq(a2, b2)
    ensures IsSubseq(a1 + a2, b1 + b2)
    decreases |b1|, |a1|
  {
    if a1 == [] {
      if b1 != [] {
        SubseqConcat(a1, b1[1..], a2, b2);
        assert (b1 + b2)[1..] == b1[1..] + b2;
        if a2 != [] {
          assert IsSubseq(a1 + a2, (b1 + b2)[1..]);
        }
      } else {
        assert a1 + a2 == a2 && b1 + b2 == b2;
      }
    } else {
      assert b1 != [];
      assert (a1 + a2)[0] == a1[0] && (b1 + b2)[0] == b1[0];
      assert (b1 + b2)[1..] == b1[1..] + b2;
      if a1[0] == b1[0] && IsSubseq(a1[1..], b1[1..]) {
        SubseqConcat(a1[1..], b1[1..], a2, b2);
        assert (a1 + a2)[1..] == a1[1..] + a2;
      } else {
        SubseqConcat(a1, b1[1..], a2, b2);
      }
    }
  }

  /** Enumerable.Where: the elements that satisfy `p`, in their order. */
  function Filter<T>(p: T -> bool, s: seq<T>): (r: seq<T>)
    ensures |r| <= |s|
    ensures forall x :: x in r ==> x in s && p(x)
    ensures forall x :: x in s && p(x) ==> x in r
  {
    if s == [] then []
    else (if p(s[0]) then [s[0]] else []) + Filter(p, s[1..])
  }

  lemma {:induction false} FilterSubseq<T>(p: T -> bool, s: seq<T>)
    ensures IsSubseq(Filter(p, s), s)
  {
    if s != [] {
      FilterSubseq(p, s[1..]);
      if p(s[0]) {
        assert Filter(p, s) == [s[0]] + Filter(p, s[1..]);
      } else {
        assert Filter(p, s) == Filter(p, s[1..]);
        if Filter(p, s) != [] {
          assert IsSubseq(Filter(p, s), s[1..]);
        }
      }
    }
  }

  lemma {:induction false} FilterConcat<T>(p: T -> bool, a: seq<T>, b: seq<T>)
    ensures Filter(p, a + b) == Filter(p, a) + Filter(p, b)
  {
    if a == [] {
      assert a + b == b;
    } else {
      assert (a + b)[0] == a[0] && (a + b)[1..] == a[1..] + b;
      FilterConcat(p, a[1..], b);
    }
  }

  /** Filtering with a condition no element meets leaves nothing; with one all meet, everything. */
  lemma {:induction false} FilterAll<T>(p: T -> bool, s: seq<T>)
    requires forall x :: x in s ==> p(x)
    ensures Filter(p, s) == s
  {
    if s != [] {
      FilterAll(p, s[1..]);
    }
  }

  /** Enumerable.Select. */
  function Map<T, U>(f: T -> U, s: seq<T>): (r: seq<U>)
    ensures |r| == |s|
    ensures forall i :: 0 <= i < |s| ==> r[i] == f(s[i])
  {
    if s == [] then [] else [f(s[0])] + Map(f, s[1..])
  }

  /** A sequence around position i: its prefix grows by s[i], and prefix and suffix make it up. */
  lemma SplitAt<T>(s: seq<T>, i: nat)
    requires i < |s|
    ensures s[..i + 1] == s[..i] + [s[i]]
    ensures s == s[..i + 1] + s[i + 1..]
  {
  }

  /** Indexing into three mapped sequences laid end to end. */
  lemma MapMap3At<T, M, U>(k: T -> M, f: M -> U, g: M -> U, h: M -> U, a: seq<T>, b: seq<T>, c: seq<T>, i: nat)
    requires i < |a| + |b| + |c|
    ensures var es := Map(f, Map(k, a)) + Map(g, Map(k, b)) + Map(h, Map(k, c));
            var x := (a + b + c)[i];
            |es| == |a + b + c| &&
            (i < |a| ==> x in a && es[i] == f(k(x))) &&
            (|a| <= i < |a| + |b| ==> x in b && es[i] == g(k(x))) &&
            (|a| + |b| <= i ==> x in c && es[i] == h(k(x)))
  {
    var x := (a + b + c)[i];
    if i < |a| {
      assert x == a[i];
    } else if i < |a| + |b| {
      assert x == b[i - |a|];
    } else {
      assert x == c[i - |a| - |b|];
    }
  }

  lemma MapConcat<T, U>(f: T -> U, a: seq<T>, b: seq<T>)
    ensures Map(f, a + b) == Map(f, a) + Map(f, b)
  {
    assert forall i :: 0 <= i < |a + b| ==> Map(f, a + b)[i] == (Map(f, a) + Map(f, b))[i];
  }

  /** Enumerable.SelectMany over a sequence of sequences. */
  function Flatten<T>(ss: seq<seq<T>>): seq<T> {
    if ss == [] then [] else ss[0] + Flatten(ss[1..])
  }

  lemma {:induction false} FlattenConcat<T>(a: seq<seq<T>>, b: seq<seq<T>>)
    ensures Flatten(a + b) == Flatten(a) + Flatten(b)
  {
    if a == [] {
      assert a + b == b;
    } else {
      assert (a + b)[0] == a[0] && (a + b)[1..] == a[1..] + b;
      FlattenConcat(a[1..], b);
    }
  }

  /** The index of the first occurrence of `x`. */
  function FirstIndex<T(==)>(s: seq<T>, x: T): (i: nat)
    requires x in s
    ensures i < |s| && s[i] == x
    ensures forall j :: 0 <= j < i ==> s[j] != x
  {
    if s[0] == x then 0 else 1 + FirstIndex(s[1..], x)
  }

  lemma FirstIndexUnique<T>(s: seq<T>, x: T, i: nat)
    requires i < |s| && s[i] == x
    requires forall j :: 0 <= j < i ==> s[j] != x
    ensures FirstIndex(s, x) == i
  {
  }

  /** Enumerable.Distinct: each element at its first occurrence, in the order
      the elements are first seen (the enumeration adds an element to its
      result the first time it meets it). */
  function Distinct<T(==)>(s: seq<T>): seq<T>
    decreases |s|
  {
    if s == [] then []
    else
      var p := Distinct(s[..|s| - 1]);
      if s[|s| - 1] in p then p else p + [s[|s| - 1]]
  }

  lemma {:induction false} DistinctElems<T>(s: seq<T>)
    ensures forall x :: x in Distinct(s) <==> x in s
    decreases |s|
  {
    if s != [] {
      var init := s[..|s| - 1];
      DistinctElems(init);
      assert s == init + [s[|s| - 1]];
    }
  }

  lemma {:induction false} DistinctNoDup<T>(s: seq<T>)
    ensures NoDup(Distinct(s))
    decreases |s|
  {
    if s != [] {
      DistinctNoDup(s[..|s| - 1]);
    }
  }

  lemma {:induction false} DistinctPrefix<T>(s: seq<T>, k: nat)
    requires k <= |s|
    ensures Distinct(s[..k]) <= Distinct(s)
    decreases |s|
  {
    if k < |s| {
      var init := s[..|s| - 1];
      assert init[..k] == s[..k];
      DistinctPrefix(init, k);
    } else {
      assert s[..k] == s;
    }
  }

  /** The first element of a non-empty sequence is the first element of its Distinct. */
  lemma DistinctHead<T>(s: seq<T>)
    requires s != []
    ensures Distinct(s) != [] && Distinct(s)[0] == s[0]
  {
    DistinctPrefix(s, 1);
    assert Distinct(s[..1]) == [s[0]] by {
      assert s[..1][..0] == [];
    }
  }

  lemma {:induction false} DistinctSubseq<T>(s: seq<T>)
    ensures IsSubseq(Distinct(s), s)
    decreases |s|
  {
    if s != [] {
      var init, last := s[..|s| - 1], s[|s| - 1];
      DistinctSubseq(init);
      assert s == init + [last];
      if last in Distinct(init) {
        SubseqConcat(Distinct(init), init, [], [last]);
        assert Distinct(init) + [] == Distinct(init);
      } else {
        SubseqRefl([last]);
        SubseqConcat(Distinct(init), init, [last], [last]);
      }
    }
  }

  /** `r` lists elements of `s` in the order of their first occurrence in `s`. */
  predicate FirstSeenOrder<T(==)>(r: seq<T>, s: seq<T>) {
    forall i, j | 0 <= i < j < |r| && r[i] in s && r[j] in s ::
      FirstIndex(s, r[i]) < FirstIndex(s, r[j])
  }

  lemma FirstIndexExtend<T>(init: seq<T>, last: T, x: T)
    requires x in init
    ensures FirstIndex(init + [last], x) == FirstIndex(init, x)
  {
    var k := FirstIndex(init, x);
    FirstIndexUnique(init + [last], x, k);
  }

  /** Distinct keeps first-seen order: an element that occurs first earlier comes earlier. */
  lemma {:induction false} DistinctFirstSeen<T>(s: seq<T>)
    ensures FirstSeenOrder(Distinct(s), s)
    decreases |s|
  {
    if s != [] {
      var init, last := s[..|s| - 1], s[|s| - 1];
      assert s == init + [last];
      var p := Distinct(init);
      DistinctFirstSeen(init);
      DistinctElems(init);
      var r := Distinct(s);
      forall i, j | 0 <= i < j < |r| && r[i] in s && r[j] in s
        ensures FirstIndex(s, r[i]) < FirstIndex(s, r[j])
      {
        assert r[i] == p[i] && p[i] in p;
        FirstIndexExtend(init, last, p[i]);
        if j < |p| {
          assert r[j] == p[j] && p[j] in p;
          FirstIndexExtend(init, last, p[j]);
        } else {
          assert r[j] == last && last !in init;
          FirstIndexUnique(s, last, |init|);
        }
      }
    }
  }

  /** Distinct of a sequence followed by elements it already holds adds nothing. */
  lemma {:induction false} DistinctAbsorbs<T>(a: seq<T>, b: seq<T>)
    requires forall x :: x in b ==> x in a
    ensures Distinct(a + b) == Distinct(a)
    decreases |b|
  {
    if b == [] {
      assert a + b == a;
    } else {
      var init := a + b[..|b| - 1];
      assert (a + b)[..|a + b| - 1] == init;
      assert b[..|b| - 1] <= b;
      DistinctAbsorbs(a, b[..|b| - 1]);
      DistinctElems(init);
      assert b[|b| - 1] in a;
    }
  }

  /** Distinct of a distinct sequence followed by one more element. */
  lemma DistinctSnoc<T>(a: seq<T>, x: T)
    ensures Distinct(a + [x]) == if x in a then Distinct(a) else Distinct(a) + [x]
  {
    assert (a + [x])[..|a + [x]| - 1] == a;
    DistinctElems(a);
  }

  /** An element that does not occur later stays in front. */
  lemma {:induction false} DistinctCons<T>(x: T, s: seq<T>)
    requires x !in s
    ensures Distinct([x] + s) == [x] + Distinct(s)
    decreases |s|
  {
    if s == [] {
      assert [x] + s == [x] && [x][..0] == [];
    } else {
      var init := s[..|s| - 1];
      assert ([x] + s)[..|[x] + s| - 1] == [x] + init;
      DistinctCons(x, init);
      DistinctElems(init);
    }
  }

  /** Appending keeps a sequence duplicate-free exactly when the element is new. */
  lemma NoDupSnoc<T>(s: seq<T>, x: T)
    ensures NoDup(s + [x]) <==> NoDup(s) && x !in s
  {
    var t := s + [x];
    if NoDup(t) {
      forall i, j | 0 <= i < j < |s| ensures s[i] != s[j] {
        assert s[i] == t[i] && s[j] == t[j];
      }
      forall i | 0 <= i < |s| ensures s[i] != x {
        assert s[i] == t[i] && x == t[|s|];
      }
    }
  }

  /** A concatenation is duplicate-free only when both parts are and they share nothing. */
  lemma NoDupConcat<T>(a: seq<T>, b: seq<T>)
    ensures NoDup(a + b) ==> NoDup(a) && NoDup(b) && forall x :: x in a ==> x !in b
  {
    var t := a + b;
    if NoDup(t) {
      forall i, j | 0 <= i < j < |a| ensures a[i] != a[j] {
        assert a[i] == t[i] && a[j] == t[j];
      }
      forall i, j | 0 <= i < j < |b| ensures b[i] != b[j] {
        assert b[i] == t[|a| + i] && b[j] == t[|a| + j];
      }
      forall i, j | 0 <= i < |a| && 0 <= j < |b| ensures a[i] != b[j] {
        assert a[i] == t[i] && b[j] == t[|a| + j];
      }
    }
  }

  /** A sequence without duplicates is its own Distinct. */
  lemma {:induction false} DistinctOfNoDup<T>(s: seq<T>)
    requires NoDup(s)
    ensures Distinct(s) == s
    decreases |s|
  {
    if s != [] {
      var init := s[..|s| - 1];
      DistinctOfNoDup(init);
      assert s == init + [s[|s| - 1]];
    }
  }

  /** `s` is ordered by `key`: keys never decrease. */
  predicate SortedBy<T>(key: T -> int, s: seq<T>) {
    forall i, j | 0 <= i < j < |s| :: key(s[i]) <= key(s[j])
  }

  /** Places `x` before the first element of larger key, so after every element of equal key. */
  function Insert<T>(key: T -> int, x: T, s: seq<T>): (r: seq<T>)
    ensures multiset(r) == multiset(s) + multiset{x}
  {
    if s == [] then [x]
    else if key(x) < key(s[0]) then [x] + s
    else
      assert s == [s[0]] + s[1..];
      [s[0]] + Insert(key, x, s[1..])
  }

  lemma {:induction false} InsertBound<T>(key: T -> int, x: T, s: seq<T>, k: int)
    requires k <= key(x) && forall i :: 0 <= i < |s| ==> k <= key(s[i])
    ensures forall i :: 0 <= i < |Insert(key, x, s)| ==> k <= key(Insert(key, x, s)[i])
  {
    if s != [] && key(x) >= key(s[0]) {
      InsertBound(key, x, s[1..], k);
    }
  }

  lemma {:induction false} InsertSorted<T>(key: T -> int, x: T, s: seq<T>)
    requires SortedBy(key, s)
    ensures SortedBy(key, Insert(key, x, s))
  {
    if s != [] && key(x) >= key(s[0]) {
      InsertSorted(key, x, s[1..]);
      InsertBound(key, x, s[1..], key(s[0]));
      var r := Insert(key, x, s[1..]);
      assert Insert(key, x, s) == [s[0]] + r;
    }
  }

  /** Enumerable.OrderBy: a stable sort by `key`. */
  function SortBy<T>(key: T -> int, s: seq<T>): (r: seq<T>)
    ensures multiset(r) == multiset(s)
    decreases |s|
  {
    if s == [] then []
    else
      assert s == s[..|s| - 1] + [s[|s| - 1]];
      Insert(key, s[|s| - 1], SortBy(key, s[..|s| - 1]))
  }

  lemma {:induction false} SortBySorted<T>(key: T -> int, s: seq<T>)
    ensures SortedBy(key, SortBy(key, s))
    decreases |s|
  {
    if s != [] {
      SortBySorted(key, s[..|s| - 1]);
      InsertSorted(key, s[|s| - 1], SortBy(key, s[..|s| - 1]));
    }
  }

  /** Two sequences with the same multiset: one has duplicates exactly when the other has. */
  lemma NoDupOfPermutation<T>(a: seq<T>, b: seq<T>)
    requires multiset(a) == multiset(b) && NoDup(a)
    ensures NoDup(b)
  {
    forall x ensures multiset(a)[x] <= 1 {
      NoDupCount(a, x);
    }
    forall i, j | 0 <= i < j < |b| ensures b[i] != b[j] {
      if b[i] == b[j] {
        CountAtLeastTwo(b, i, j);
        assert false;
      }
    }
  }

  lemma {:induction false} NoDupCount<T>(s: seq<T>, x: T)
    requires NoDup(s)
    ensures multiset(s)[x] <= 1
  {
    if s != [] {
      assert s == [s[0]] + s[1..];
      NoDupCount(s[1..], x);
      if s[0] == x {
        assert x !in s[1..];
      }
    }
  }

  lemma CountAtLeastTwo<T>(s: seq<T>, i: nat, j: nat)
    requires i < j < |s| && s[i] == s[j]
    ensures multiset(s)[s[i]] >= 2
  {
    var x := s[i];
    assert s == s[..i] + [x] + s[i + 1..j] + [x] + s[j + 1..];
  }
}
