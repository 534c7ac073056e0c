/**
 The standard library's stable sort, as a function: keys ascending, equal keys in their original order. Beside it the
 stable merge of two sorted sequences, which lets a sort of a concatenation be taken apart.
 */
module StableSort {

  datatype Keyed<T> = Keyed(key: int, value: T)

  predicate Sorted<T>(s: seq<Keyed<T>>) {
    forall i, j :: 0 <= i < j < |s| ==> s[i].key <= s[j].key
  }

  function Insert<T>(x: Keyed<T>, s: seq<Keyed<T>>): seq<Keyed<T>> {
    if s == [] || x.key <= s[0].key then [x] + s else [s[0]] + Insert(x, s[1..])
  }

  function Sort<T>(s: seq<Keyed<T>>): seq<Keyed<T>> {
    if s == [] then [] else Insert(s[0], Sort(s[1..]))
  }

  /** The elements with one key, in order. */
  function WithKey<T>(s: seq<Keyed<T>>, key: int): seq<Keyed<T>> {
    if s == [] then [] else (if s[0].key == key then [s[0]] else []) + WithKey(s[1..], key)
  }

  lemma SortedCons<T>(x: Keyed<T>, s: seq<Keyed<T>>)
    requires Sorted(s) && (s == [] || x.key <= s[0].key)
    ensures Sorted([x] + s)
  {
  }

  lemma {:induction false} InsertSorted<T>(x: Keyed<T>, s: seq<Keyed<T>>)
    requires Sorted(s)
    ensures Sorted(Insert(x, s))
    ensures Insert(x, s)[0] == if s == [] || x.key <= s[0].key then x else s[0]
  {
    if s == [] || x.key <= s[0].key {
      SortedCons(x, s);
    } else {
      InsertSorted(x, s[1..]);
      SortedCons(s[0], Insert(x, s[1..]));
    }
  }

  lemma {:induction false} InsertPermutes<T>(x: Keyed<T>, s: seq<Keyed<T>>)
    ensures multiset(Insert(x, s)) == multiset{x} + multiset(s)
  {
    if s != [] && s[0].key < x.key {
      InsertPermutes(x, s[1..]);
      assert s == [s[0]] + s[1..];
    }
  }

  lemma {:induction false} InsertStable<T>(x: Keyed<T>, s: seq<Keyed<T>>, key: int)
    ensures WithKey(Insert(x, s), key) == (if x.key == key then [x] else []) + WithKey(s, key)
  {
    hide WithKey;
    WithKeyCons(x, s, key);
    if s != [] && s[0].key < x.key {
      InsertStable(x, s[1..], key);
      WithKeyCons(s[0], Insert(x, s[1..]), key);
      WithKeyCons(s[0], s[1..], key);
      assert s == [s[0]] + s[1..];
    }
  }

  lemma WithKeyCons<T>(x: Keyed<T>, s: seq<Keyed<T>>, key: int)
    ensures WithKey([x] + s, key) == (if x.key == key then [x] else []) + WithKey(s, key)
  {
    assert ([x] + s)[1..] == s;
  }

  /** `Sort` sorts, permutes, and is stable: the elements of each key keep their order. */
  lemma {:induction false} SortIsStable<T>(s: seq<Keyed<T>>, key: int)
    ensures Sorted(Sort(s)) && multiset(Sort(s)) == multiset(s)
    ensures WithKey(Sort(s), key) == WithKey(s, key)
  {
    hide Insert;
    if s != [] {
      SortIsStable(s[1..], key);
      InsertSorted(s[0], Sort(s[1..]));
      InsertPermutes(s[0], Sort(s[1..]));
      InsertStable(s[0], Sort(s[1..]), key);
      assert s == [s[0]] + s[1..];
    }
  }

  /** Stable merge: on equal keys the left sequence goes first. */
  function Merge<T>(a: seq<Keyed<T>>, b: seq<Keyed<T>>): (r: seq<Keyed<T>>)
    ensures |r| == |a| + |b|
    decreases |a| + |b|
  {
    if a == [] then b
    else if b == [] then a
    else if a[0].key <= b[0].key then [a[0]] + Merge(a[1..], b)
    else [b[0]] + Merge(a, b[1..])
  }

  lemma {:induction false} InsertIntoMerge<T>(x: Keyed<T>, a: seq<Keyed<T>>, b: seq<Keyed<T>>)
    requires Sorted(a) && Sorted(b)
    ensures Insert(x, Merge(a, b)) == Merge(Insert(x, a), b)
    decreases |a| + |b|
  {
    var xa := Insert(x, a);
    if a == [] {
      assert xa == [x];
      InsertAsMerge(x, b);
    } else if b == [] {
    } else if a[0].key <= b[0].key {
      var m := Merge(a[1..], b);
      assert Merge(a, b)[1..] == m;
      if x.key <= a[0].key {
        assert xa[1..] == a;
      } else {
        InsertIntoMerge(x, a[1..], b);
        assert xa[1..] == Insert(x, a[1..]);
      }
    } else {
      var m := Merge(a, b[1..]);
      assert Merge(a, b)[1..] == m;
      if x.key <= b[0].key {
        assert xa == [x] + a;
        assert xa[1..] == a;
      } else {
        InsertIntoMerge(x, a, b[1..]);
        assert xa[0].key > b[0].key;
      }
    }
  }

  lemma {:induction false} InsertAsMerge<T>(x: Keyed<T>, b: seq<Keyed<T>>)
    ensures Insert(x, b) == Merge([x], b)
    decreases |b|
  {
    if b != [] && b[0].key < x.key {
      InsertAsMerge(x, b[1..]);
    } else {
      assert [x][1..] == [];
    }
  }

  /** Sorting a concatenation is merging the sorted halves. */
  lemma {:induction false} SortConcat<T>(a: seq<Keyed<T>>, b: seq<Keyed<T>>)
    ensures Sort(a + b) == Merge(Sort(a), Sort(b))
    decreases |a|
  {
    if a == [] {
      assert a + b == b;
    } else {
      assert (a + b)[1..] == a[1..] + b;
      SortConcat(a[1..], b);
      SortIsStable(a[1..], 0);
      SortIsStable(b, 0);
      InsertIntoMerge(a[0], Sort(a[1..]), Sort(b));
    }
  }

  lemma {:induction false} SortOfSorted<T>(s: seq<Keyed<T>>)
    requires Sorted(s)
    ensures Sort(s) == s
  {
    if s != [] {
      SortOfSorted(s[1..]);
      assert s == [s[0]] + s[1..];
    }
  }

  function Take<T>(s: seq<T>, k: nat): (r: seq<T>)
    ensures |r| == if k <= |s| then k else |s|
  {
    if k <= |s| then s[..k] else s
  }

  /** The first `k` elements of a merge come from the first `k` elements of each side. */
  lemma {:induction false} TakeMerge<T>(a: seq<Keyed<T>>, b: seq<Keyed<T>>, k: nat, ka: nat, kb: nat)
    requires k <= ka && k <= kb
    ensures Take(Merge(a, b), k) == Take(Merge(Take(a, ka), Take(b, kb)), k)
    decreases |a| + |b|
  {
    if k > 0 && a != [] && b != [] {
      TakeRest(a, ka);
      TakeRest(b, kb);
      hide Take, Merge;
      var ta, tb := Take(a, ka), Take(b, kb);
      MergeStep(a, b);
      MergeStep(ta, tb);
      if a[0].key <= b[0].key {
        TakeMerge(a[1..], b, k - 1, ka - 1, kb);
        TakeCons(a[0], Merge(a[1..], b), k);
        TakeCons(a[0], Merge(ta[1..], tb), k);
      } else {
        TakeMerge(a, b[1..], k - 1, ka, kb - 1);
        TakeCons(b[0], Merge(a, b[1..]), k);
        TakeCons(b[0], Merge(ta, tb[1..]), k);
      }
    }
  }

  lemma MergeStep<T>(a: seq<Keyed<T>>, b: seq<Keyed<T>>)
    requires a != [] && b != []
    ensures Merge(a, b) == if a[0].key <= b[0].key then [a[0]] + Merge(a[1..], b) else [b[0]] + Merge(a, b[1..])
  {
  }

  lemma TakeRest<T>(s: seq<T>, k: nat)
    requires s != [] && k > 0
    ensures Take(s, k) != [] && Take(s, k)[0] == s[0] && Take(s, k)[1..] == Take(s[1..], k - 1)
  {
  }

  lemma TakeCons<T>(x: T, s: seq<T>, k: nat)
    requires k > 0
    ensures Take([x] + s, k) == [x] + Take(s, k - 1)
  {
  }

  lemma SortedTake<T>(s: seq<Keyed<T>>, k: nat)
    requires Sorted(s)
    ensures Sorted(Take(s, k))
  {
  }

  /** A strictly sorted sequence is the sort of every one of its permutations. */
  lemma {:induction false} SortOfPermutation<T>(s: seq<Keyed<T>>, t: seq<Keyed<T>>)
    requires multiset(s) == multiset(t)
    requires forall i, j :: 0 <= i < j < |t| ==> t[i].key < t[j].key
    ensures Sort(s) == t
  {
    SortIsStable(s, 0);
    SameElements(Sort(s), t);
  }

  lemma {:induction false} SameElements<T>(s: seq<Keyed<T>>, t: seq<Keyed<T>>)
    requires Sorted(s) && multiset(s) == multiset(t)
    requires forall i, j :: 0 <= i < j < |t| ==> t[i].key < t[j].key
    ensures s == t
    decreases |t|
  {
    assert |s| == |multiset(s)| == |multiset(t)| == |t|;
    if t != [] {
      LeastFirst(s, t);
      SameRest(s, t);
      SameElements(s[1..], t[1..]);
      assert s == [s[0]] + s[1..] && t == [t[0]] + t[1..];
    }
  }

  lemma LeastFirst<T>(s: seq<Keyed<T>>, t: seq<Keyed<T>>)
    requires s != [] && t != [] && Sorted(s) && multiset(s) == multiset(t)
    requires forall i, j :: 0 <= i < j < |t| ==> t[i].key < t[j].key
    ensures s[0] == t[0]
  {
    assert s[0] in multiset(t) && t[0] in multiset(s);
    var i :| 0 <= i < |t| && t[i] == s[0];
    var j :| 0 <= j < |s| && s[j] == t[0];
  }

  lemma SameRest<T>(s: seq<Keyed<T>>, t: seq<Keyed<T>>)
    requires s != [] && t != [] && multiset(s) == multiset(t) && s[0] == t[0]
    ensures multiset(s[1..]) == multiset(t[1..])
  {
    assert s == [s[0]] + s[1..] && t == [t[0]] + t[1..];
    assert multiset(s[1..]) == multiset(s) - multiset{s[0]};
    assert multiset(t[1..]) == multiset(t) - multiset{t[0]};
  }
}
