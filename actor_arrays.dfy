/**
  * The removal operations the world applies to its actor collections: removing
  * the first occurrence of a value, and removing a list of values one after the other.
  */
module ActorArrays {

  /** No value occurs twice: each element is absent from the elements before it. */
  predicate Distinct<T(==)>(s: seq<T>)
  {
    s == [] || (Distinct(s[..|s| - 1]) && s[|s| - 1] !in s[..|s| - 1])
  }

  lemma DistinctSnoc<T>(s: seq<T>, v: T)
    ensures Distinct(s + [v]) <==> Distinct(s) && v !in s
  {
    assert (s + [v])[..|s|] == s;
  }

  /** In a sequence without repeats, elements at different positions differ. */
  lemma {:induction false} DistinctIndex<T>(s: seq<T>, i: nat, j: nat)
    requires Distinct(s) && i < j < |s|
    ensures s[i] != s[j]
  {
    var init := s[..|s| - 1];
    if j == |s| - 1 {
      assert s[i] == init[i];
    } else {
      DistinctIndex(init, i, j);
    }
  }

  /** A sequence whose elements at different positions differ has no repeats. */
  lemma {:induction false} IndexDistinct<T>(s: seq<T>)
    requires forall i, j :: 0 <= i < j < |s| ==> s[i] != s[j]
    ensures Distinct(s)
  {
    if s != [] {
      var init := s[..|s| - 1];
      forall i, j | 0 <= i < j < |init| ensures init[i] != init[j] {
        assert init[i] == s[i] && init[j] == s[j];
      }
      IndexDistinct(init);
      forall k | 0 <= k < |init| ensures init[k] != s[|s| - 1] {
        assert init[k] == s[k];
      }
    }
  }

  /** In a sequence without repeats, every element occurs once. */
  lemma {:induction false} DistinctCount<T>(s: seq<T>, v: T)
    requires Distinct(s)
    ensures multiset(s)[v] == if v in s then 1 else 0
  {
    if s != [] {
      var init, last := s[..|s| - 1], s[|s| - 1];
      assert s == init + [last];
      DistinctCount(init, v);
    }
  }

  lemma AppendAssoc<T>(a: seq<T>, b: seq<T>, c: seq<T>)
    ensures (a + b) + c == a + (b + c)
  {
  }

  /** Remove the first occurrence of `v`; the sequence is returned unchanged when `v` is absent. */
  function RemoveValue<T(==)>(s: seq<T>, v: T): (r: seq<T>)
    ensures v !in s ==> r == s
    ensures v in s ==> |r| == |s| - 1
  {
    if s == [] then []
    else if s[0] == v then s[1..]
    else [s[0]] + RemoveValue(s[1..], v)
  }

  /** Remove each of `vs`, in order, by RemoveValue. */
  function RemoveAll<T(==)>(s: seq<T>, vs: seq<T>): seq<T>
  {
    if vs == [] then s else RemoveValue(RemoveAll(s, vs[..|vs| - 1]), vs[|vs| - 1])
  }

  /** The elements of `s` not in `d`, in their order. */
  function Without<T(==)>(s: seq<T>, d: set<T>): seq<T>
  {
    if s == [] then [] else Without(s[..|s| - 1], d) + (if s[|s| - 1] in d then [] else [s[|s| - 1]])
  }

  /** The elements of `s` that are in `d`, in their order. */
  function Keep<T(==)>(s: seq<T>, d: set<T>): seq<T>
  {
    if s == [] then [] else Keep(s[..|s| - 1], d) + (if s[|s| - 1] in d then [s[|s| - 1]] else [])
  }

  /** Keep retains every occurrence of a value of d and none of any other value. */
  lemma {:induction false} KeepCount<T>(s: seq<T>, d: set<T>, v: T)
    ensures multiset(Keep(s, d))[v] == if v in d then multiset(s)[v] else 0
  {
    if s != [] {
      var init, last := s[..|s| - 1], s[|s| - 1];
      assert s == init + [last];
      KeepCount(init, d, v);
    }
  }

  lemma RemoveAllSnoc<T>(s: seq<T>, vs: seq<T>, v: T)
    ensures RemoveAll(s, vs + [v]) == RemoveValue(RemoveAll(s, vs), v)
  {
    assert (vs + [v])[..|vs|] == vs;
  }

  lemma KeepSnoc<T>(s: seq<T>, x: T, d: set<T>)
    ensures Keep(s + [x], d) == Keep(s, d) + (if x in d then [x] else [])
  {
    assert (s + [x])[..|s|] == s;
  }

  /** RemoveValue takes away exactly one copy of `v`, if there is one. */
  lemma {:induction false} RemoveValueMultiset<T>(s: seq<T>, v: T)
    ensures multiset(RemoveValue(s, v)) == multiset(s) - multiset{v}
  {
    if s != [] {
      assert s == [s[0]] + s[1..];
      if s[0] != v {
        RemoveValueMultiset(s[1..], v);
      }
    }
  }

  /** RemoveAll takes away one copy of each of `vs`, as far as there are copies. */
  lemma {:induction false} RemoveAllMultiset<T>(s: seq<T>, vs: seq<T>)
    ensures multiset(RemoveAll(s, vs)) == multiset(s) - multiset(vs)
    decreases |vs|
  {
    if vs != [] {
      var init, last := vs[..|vs| - 1], vs[|vs| - 1];
      assert vs == init + [last];
      RemoveAllMultiset(s, init);
      RemoveValueMultiset(RemoveAll(s, init), last);
    }
  }

  /** RemoveValue keeps the order of what stays. */
  lemma {:induction false} RemoveValueSplit<T>(a: seq<T>, v: T, b: seq<T>)
    requires v !in a
    ensures RemoveValue(a + [v] + b, v) == a + b
  {
    if a != [] {
      assert (a + [v] + b)[1..] == a[1..] + [v] + b;
      RemoveValueSplit(a[1..], v, b);
      assert [a[0]] + (a[1..] + b) == a + b;
    } else {
      assert [v] + b == a + [v] + b;
    }
  }

  /** Splitting d off: an element is either kept or dropped. */
  lemma {:induction false} KeepWithoutPartition<T>(s: seq<T>, d: set<T>)
    ensures multiset(Keep(s, d)) + multiset(Without(s, d)) == multiset(s)
    ensures forall x :: x in Keep(s, d) ==> x in s && x in d
    ensures forall x :: x in Without(s, d) <==> x in s && x !in d
  {
    if s != [] {
      var init, last := s[..|s| - 1], s[|s| - 1];
      assert s == init + [last];
      KeepWithoutPartition(init, d);
    }
  }

  /** Removing a list of values one by one from a sequence with no repeats is dropping them all at once. */
  lemma {:induction false} RemoveAllDistinct<T>(s: seq<T>, vs: seq<T>)
    requires Distinct(s)
    ensures RemoveAll(s, vs) == Without(s, set v | v in vs)
    decreases |vs|
  {
    if vs == [] {
      WithoutNothing(s);
      assert (set v | v in vs) == {};
    } else {
      var init, last := vs[..|vs| - 1], vs[|vs| - 1];
      var before := set v | v in init;
      RemoveAllDistinct(s, init);
      WithoutDistinct(s, before);
      RemoveValueDistinct(Without(s, before), last);
      WithoutTwice(s, before, {last});
      assert vs == init + [last];
      ElementsSnoc(vs, init, last);
    }
  }

  lemma ElementsSnoc<T>(vs: seq<T>, init: seq<T>, last: T)
    requires vs == init + [last]
    ensures (set v | v in vs) == (set v | v in init) + {last}
  {
  }

  /** In a sequence with no repeats, RemoveValue drops the value. */
  lemma {:induction false} RemoveValueDistinct<T>(s: seq<T>, v: T)
    requires Distinct(s)
    ensures RemoveValue(s, v) == Without(s, {v})
  {
    if s != [] {
      var t := s[1..];
      assert s == [s[0]] + t;
      WithoutAppend([s[0]], t, {v});
      assert Without([s[0]], {v}) == (if s[0] == v then [] else [s[0]]) by {
        assert [s[0]][..0] == [];
      }
      if s[0] == v {
        assert forall x :: x in t ==> x !in {v} by {
          forall x | x in t ensures x != v {
            var k :| 0 <= k < |t| && t[k] == x;
            DistinctIndex(s, 0, k + 1);
          }
        }
        WithoutAbsent(t, {v});
      } else {
        forall i, j | 0 <= i < j < |t| ensures t[i] != t[j] {
          DistinctIndex(s, i + 1, j + 1);
        }
        IndexDistinct(t);
        RemoveValueDistinct(t, v);
      }
    }
  }

  lemma {:induction false} WithoutAppend<T>(a: seq<T>, b: seq<T>, d: set<T>)
    ensures Without(a + b, d) == Without(a, d) + Without(b, d)
    decreases |b|
  {
    if b == [] {
      assert a + b == a;
    } else {
      var init, last := b[..|b| - 1], b[|b| - 1];
      assert (a + b)[..|a + b| - 1] == a + init;
      assert (a + b)[|a + b| - 1] == last;
      WithoutAppend(a, init, d);
    }
  }

  lemma {:induction false} WithoutNothing<T>(s: seq<T>)
    ensures Without(s, {}) == s
  {
    if s != [] {
      WithoutNothing(s[..|s| - 1]);
    }
  }

  lemma {:induction false} WithoutDistinct<T>(s: seq<T>, d: set<T>)
    requires Distinct(s)
    ensures Distinct(Without(s, d))
  {
    if s != [] {
      var init, last := s[..|s| - 1], s[|s| - 1];
      WithoutDistinct(init, d);
      if last !in d {
        assert last !in init;
        KeepWithoutPartition(init, d);
        assert last !in Without(init, d);
        DistinctSnoc(Without(init, d), last);
        assert Without(s, d) == Without(init, d) + [last];
      } else {
        assert Without(s, d) == Without(init, d) + [];
        assert Without(init, d) + [] == Without(init, d);
      }
    }
  }

  /** In a sequence without repeats, removing the element at k is the same as dropping its value. */
  lemma {:induction false} WithoutSplitDistinct<T>(r: seq<T>, k: nat)
    requires k < |r| && Distinct(r)
    ensures r[..k] + r[k + 1..] == Without(r, {r[k]})
  {
    if |r| == k + 1 {
      assert r[..k] + r[k + 1..] == r[..|r| - 1];
      assert r[k] !in r[..|r| - 1];
      WithoutAbsent(r[..|r| - 1], {r[k]});
    } else {
      var init := r[..|r| - 1];
      assert init[..k] == r[..k] && init[k] == r[k];
      DistinctIndex(r, k, |r| - 1);
      WithoutSplitDistinct(init, k);
      assert init[k + 1..] + [r[|r| - 1]] == r[k + 1..];
    }
  }

  lemma {:induction false} WithoutAbsent<T>(s: seq<T>, d: set<T>)
    requires forall x :: x in s ==> x !in d
    ensures Without(s, d) == s
  {
    if s != [] {
      var init := s[..|s| - 1];
      assert forall x :: x in init ==> x in s;
      WithoutAbsent(init, d);
    }
  }

  lemma {:induction false} WithoutTwice<T>(s: seq<T>, a: set<T>, b: set<T>)
    ensures Without(Without(s, a), b) == Without(s, a + b)
  {
    if s != [] {
      var init, last := s[..|s| - 1], s[|s| - 1];
      WithoutTwice(init, a, b);
      var w := Without(init, a);
      assert Without(s, a) == w + (if last in a then [] else [last]);
      assert Without(s, a + b) == Without(init, a + b) + (if last in a + b then [] else [last]);
      if last !in a {
        var w' := w + [last];
        assert w'[..|w'| - 1] == w && w'[|w'| - 1] == last;
        assert Without(w', b) == Without(w, b) + (if last in b then [] else [last]);
        assert Without(w, b) == Without(init, a + b);
        assert (last in a + b) == (last in b);
        assert Without(Without(s, a), b) == Without(w', b);
      } else {
        assert Without(s, a) == w;
        assert last in a + b;
        assert Without(s, a + b) == Without(init, a + b) + [];
      }
    }
  }

  /** Without only looks at the elements of the sequence that are in the set. */
  lemma {:induction false} WithoutAgree<T>(s: seq<T>, a: set<T>, b: set<T>)
    requires forall x :: x in s ==> (x in a <==> x in b)
    ensures Without(s, a) == Without(s, b)
  {
    if s != [] {
      var init := s[..|s| - 1];
      assert forall x :: x in init ==> x in s;
      WithoutAgree(init, a, b);
    }
  }

  /**
    * Removing, one by one, the elements of a sequence without repeats that lie in `d`
    * leaves exactly the others, in their order.
    */
  lemma RemoveKept<T>(s: seq<T>, d: set<T>)
    requires Distinct(s)
    ensures RemoveAll(s, Keep(s, d)) == Without(s, d)
    ensures forall x :: x in RemoveAll(s, Keep(s, d)) <==> x in s && x !in d
    ensures Distinct(RemoveAll(s, Keep(s, d)))
  {
    RemoveAllDistinct(s, Keep(s, d));
    WithoutDistinct(s, d);
    KeepWithoutPartition(s, d);
    forall x | x in s ensures x in (set v | v in Keep(s, d)) <==> x in d {
      if x in d {
        assert x !in Without(s, d);
        assert multiset(s)[x] > 0;
        assert multiset(Without(s, d))[x] == 0;
        assert x in multiset(Keep(s, d));
      }
    }
    WithoutAgree(s, (set v | v in Keep(s, d)), d);
  }
}
