/** Options, duplicate-free sequences, filters and insertion-ordered dictionaries. */
module Basics {

  datatype Option<+T> = None | Some(value: T)

  /** Ids of chats, messages, folders, users and the like are strings. */
  type Id = string

  /** `dict.get`. */
  function Find<K, V>(m: map<K, V>, k: K): (r: Option<V>) {
    if k in m then Some(m[k]) else None
  }

  ghost predicate NoDup<T>(s: seq<T>) {
    forall i, j :: 0 <= i < j < |s| ==> s[i] != s[j]
  }

  function Elems<T>(s: seq<T>): (r: set<T>) {
    set x | x in s
  }

  /** The members of `s` that lie in `keep`, in order. */
  function Within<T(==,!new)>(s: seq<T>, keep: set<T>): (r: seq<T>)
    ensures forall x :: x in r <==> x in s && x in keep
    ensures |r| <= |s|
  {
    if s == [] then [] else
    if s[0] in keep then [s[0]] + Within(s[1..], keep) else Within(s[1..], keep)
  }

  /** The members of `s` that lie outside `drop`, in order. */
  function Without<T(==,!new)>(s: seq<T>, drop: set<T>): (r: seq<T>)
    ensures forall x :: x in r <==> x in s && x !in drop
  {
    if s == [] then [] else
    if s[0] in drop then Without(s[1..], drop) else [s[0]] + Without(s[1..], drop)
  }

  /** `a` stands somewhere before `b`. */
  ghost predicate Before<T(!new)>(s: seq<T>, a: T, b: T) {
    exists i, j :: 0 <= i < j < |s| && s[i] == a && s[j] == b
  }

  lemma BeforeMeansIn<T(!new)>(s: seq<T>, a: T, b: T)
    ensures Before(s, a, b) ==> a in s && b in s
  {
  }

  lemma BeforeStep<T(!new)>(s: seq<T>, a: T, b: T)
    requires s != []
    ensures Before(s, a, b) <==> (s[0] == a && b in s[1..]) || Before(s[1..], a, b)
  {
    if Before(s, a, b) {
      var i, j :| 0 <= i < j < |s| && s[i] == a && s[j] == b;
      assert s[1..][j - 1] == b;
      if i > 0 {
        assert s[1..][i - 1] == a;
      }
    }
    if s[0] == a && b in s[1..] {
      var j :| 0 <= j < |s[1..]| && s[1..][j] == b;
      assert s[j + 1] == b;
    } else if Before(s[1..], a, b) {
      var i, j :| 0 <= i < j < |s[1..]| && s[1..][i] == a && s[1..][j] == b;
      assert s[i + 1] == a && s[j + 1] == b;
    }
  }

  /** Filtering keeps the order. */
  lemma {:induction false} WithinBefore<T(!new)>(s: seq<T>, keep: set<T>, a: T, b: T)
    ensures Before(Within(s, keep), a, b) <==> a in keep && b in keep && Before(s, a, b)
  {
    if s != [] {
      BeforeStep(s, a, b);
      WithinBefore(s[1..], keep, a, b);
      if s[0] in keep {
        assert Within(s, keep)[1..] == Within(s[1..], keep);
        BeforeStep(Within(s, keep), a, b);
      }
    }
  }

  lemma {:induction false} WithoutBefore<T(!new)>(s: seq<T>, drop: set<T>, a: T, b: T)
    ensures Before(Without(s, drop), a, b) <==> a !in drop && b !in drop && Before(s, a, b)
  {
    if s != [] {
      BeforeStep(s, a, b);
      WithoutBefore(s[1..], drop, a, b);
      if s[0] !in drop {
        assert Without(s, drop)[1..] == Without(s[1..], drop);
        BeforeStep(Without(s, drop), a, b);
      }
    }
  }

  lemma ConcatBefore<T(!new)>(s: seq<T>, t: seq<T>, a: T, b: T)
    ensures Before(s + t, a, b) <==> Before(s, a, b) || Before(t, a, b) || (a in s && b in t)
  {
    var u := s + t;
    if Before(u, a, b) {
      var i, j :| 0 <= i < j < |u| && u[i] == a && u[j] == b;
      if j < |s| {
        assert s[i] == a && s[j] == b;
      } else if i >= |s| {
        assert t[i - |s|] == a && t[j - |s|] == b;
      } else {
        assert s[i] == a && t[j - |s|] == b;
      }
    }
    if Before(s, a, b) {
      var i, j :| 0 <= i < j < |s| && s[i] == a && s[j] == b;
      assert u[i] == a && u[j] == b;
    } else if Before(t, a, b) {
      var i, j :| 0 <= i < j < |t| && t[i] == a && t[j] == b;
      assert u[i + |s|] == a && u[j + |s|] == b;
    } else if a in s && b in t {
      var i :| 0 <= i < |s| && s[i] == a;
      var j :| 0 <= j < |t| && t[j] == b;
      assert u[i] == a && u[j + |s|] == b;
    }
  }

  lemma {:induction false} WithinNoDup<T(!new)>(s: seq<T>, keep: set<T>)
    requires NoDup(s)
    ensures NoDup(Within(s, keep))
  {
    if s == [] {
    } else {
      WithinNoDup(s[1..], keep);
    }
  }

  lemma {:induction false} WithoutNoDup<T(!new)>(s: seq<T>, drop: set<T>)
    requires NoDup(s)
    ensures NoDup(Without(s, drop))
  {
    if s == [] {
    } else {
      WithoutNoDup(s[1..], drop);
    }
  }

  lemma ConcatNoDup<T(!new)>(s: seq<T>, t: seq<T>)
    requires NoDup(s) && NoDup(t) && (forall x :: x in s ==> x !in t)
    ensures NoDup(s + t)
  {
    forall i, j | 0 <= i < j < |s + t| ensures (s + t)[i] != (s + t)[j] {
      if i < |s| <= j {
        assert (s + t)[i] in s && (s + t)[j] in t;
      }
    }
  }

  lemma {:induction false} WithinAll<T(!new)>(s: seq<T>, keep: set<T>)
    requires forall x :: x in s ==> x in keep
    ensures Within(s, keep) == s
  {
    if s == [] {
    } else {
      WithinAll(s[1..], keep);
    }
  }

  lemma {:induction false} WithinNone<T(!new)>(s: seq<T>, keep: set<T>)
    requires forall x :: x in s ==> x !in keep
    ensures Within(s, keep) == []
  {
    if s == [] {
    } else {
      WithinNone(s[1..], keep);
    }
  }

  lemma {:induction false} WithoutNone<T(!new)>(s: seq<T>, drop: set<T>)
    requires forall x :: x in s ==> x !in drop
    ensures Without(s, drop) == s
  {
    if s == [] {
    } else {
      WithoutNone(s[1..], drop);
    }
  }

  lemma {:induction false} WithoutAll<T(!new)>(s: seq<T>, drop: set<T>)
    requires forall x :: x in s ==> x in drop
    ensures Without(s, drop) == []
  {
    if s == [] {
    } else {
      WithoutAll(s[1..], drop);
    }
  }

  lemma {:induction false} WithinConcat<T(!new)>(s: seq<T>, t: seq<T>, keep: set<T>)
    ensures Within(s + t, keep) == Within(s, keep) + Within(t, keep)
  {
    if s == [] {
      assert s + t == t;
    } else {
      assert (s + t)[1..] == s[1..] + t;
      WithinConcat(s[1..], t, keep);
    }
  }

  lemma {:induction false} WithoutConcat<T(!new)>(s: seq<T>, t: seq<T>, drop: set<T>)
    ensures Without(s + t, drop) == Without(s, drop) + Without(t, drop)
  {
    if s == [] {
      assert s + t == t;
    } else {
      assert (s + t)[1..] == s[1..] + t;
      WithoutConcat(s[1..], t, drop);
    }
  }

  lemma {:induction false} WithoutTwice<T(!new)>(s: seq<T>, a: set<T>, b: set<T>)
    ensures Without(Without(s, a), b) == Without(s, a + b)
  {
    if s == [] {
    } else {
      WithoutTwice(s[1..], a, b);
    }
  }

  /** Two filters that keep the same members of `s` agree on it. */
  lemma {:induction false} WithinSame<T(!new)>(s: seq<T>, a: set<T>, b: set<T>)
    requires forall x :: x in s ==> (x in a <==> x in b)
    ensures Within(s, a) == Within(s, b)
  {
    if s == [] {
    } else {
      WithinSame(s[1..], a, b);
    }
  }

  lemma {:induction false} NoDupSize<T(!new)>(s: seq<T>)
    requires NoDup(s)
    ensures |Elems(s)| == |s|
  {
    if s == [] {
      assert Elems(s) == {};
    } else {
      NoDupSize(s[1..]);
      assert Elems(s) == Elems(s[1..]) + {s[0]};
      assert s[0] !in Elems(s[1..]) by {
        forall i | 0 <= i < |s[1..]| ensures s[1..][i] != s[0] { assert s[1..][i] == s[i + 1]; }
      }
    }
  }

  /** Duplicate-free sequences over the same elements are permutations of each other. */
  lemma {:induction false} SameElemsPermutation<T(!new)>(s: seq<T>, t: seq<T>)
    requires NoDup(s) && NoDup(t)
    requires forall x :: x in s <==> x in t
    ensures multiset(s) == multiset(t)
  {
    NoDupMultiset(s);
    NoDupMultiset(t);
    assert multiset(s) == multiset(t);
  }

  lemma {:induction false} NoDupMultiset<T(!new)>(s: seq<T>)
    requires NoDup(s)
    ensures forall x :: multiset(s)[x] == if x in s then 1 else 0
  {
    if s == [] {
    } else {
      NoDupMultiset(s[1..]);
      assert s == [s[0]] + s[1..];
      assert multiset(s) == multiset{s[0]} + multiset(s[1..]);
      assert s[0] !in s[1..] by {
        forall i | 0 <= i < |s[1..]| ensures s[1..][i] != s[0] { assert s[1..][i] == s[i + 1]; }
      }
    }
  }

  lemma SubsetSize<T(!new)>(a: set<T>, b: set<T>)
    requires a <= b
    ensures |a| <= |b|
  {
    assert b == a + (b - a);
  }

  /** An insertion-ordered dictionary: assigning to a present key keeps its position. */
  datatype Dict<K(==,!new), +V> = Dict(keys: seq<K>, at: map<K, V>) {
    ghost predicate Valid() {
      && NoDup(keys)
      && (forall k :: k in keys <==> k in at)
    }

    function Put(k: K, v: V): (r: Dict<K, V>)
    {
      Dict(if k in at then keys else keys + [k], at[k := v])
    }

    /** Removes the given keys where present. */
    function Pop(gone: set<K>): (r: Dict<K, V>)
    {
      Dict(Without(keys, gone), at - gone)
    }
  }

  lemma PutValid<K(!new), V>(d: Dict<K, V>, k: K, v: V)
    requires d.Valid()
    ensures d.Put(k, v).Valid()
  {
    if k !in d.at {
      ConcatNoDup(d.keys, [k]);
    }
  }

  lemma PopValid<K(!new), V>(d: Dict<K, V>, gone: set<K>)
    requires d.Valid()
    ensures d.Pop(gone).Valid()
  {
    WithoutNoDup(d.keys, gone);
  }

  lemma PopTwice<K(!new), V>(d: Dict<K, V>, a: set<K>, b: set<K>)
    ensures d.Pop(a).Pop(b) == d.Pop(a + b)
  {
    WithoutTwice(d.keys, a, b);
    assert d.at - a - b == d.at - (a + b);
  }

  lemma PopNothing<K(!new), V>(d: Dict<K, V>)
    ensures d.Pop({}) == d
  {
    WithoutNone(d.keys, {});
    assert d.at - {} == d.at;
  }

  /** `{**d, **e}`. */
  function Merge<K(==,!new), V>(d: Dict<K, V>, e: Dict<K, V>): (r: Dict<K, V>) {
    Dict(d.keys + Without(e.keys, d.at.Keys), d.at + e.at)
  }

  /** The merged keys: those of `d` in order, then the new ones of `e` in order. */
  lemma MergeBefore<K(!new), V>(d: Dict<K, V>, e: Dict<K, V>, a: K, b: K)
    requires d.Valid() && e.Valid()
    ensures Before(Merge(d, e).keys, a, b) <==>
            if a in d.at then Before(d.keys, a, b) || (b !in d.at && b in e.at)
            else b !in d.at && Before(e.keys, a, b)
  {
    ConcatBefore(d.keys, Without(e.keys, d.at.Keys), a, b);
    WithoutBefore(e.keys, d.at.Keys, a, b);
    BeforeMeansIn(d.keys, a, b);
    BeforeMeansIn(e.keys, a, b);
  }

  lemma MergeValid<K(!new), V>(d: Dict<K, V>, e: Dict<K, V>)
    requires d.Valid() && e.Valid()
    ensures Merge(d, e).Valid()
  {
    WithoutNoDup(e.keys, d.at.Keys);
    ConcatNoDup(d.keys, Without(e.keys, d.at.Keys));
  }
}
