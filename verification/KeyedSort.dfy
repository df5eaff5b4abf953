/** Lexicographic byte order and sorting by an encoded key. */
module KeyedSort {
  import opened Types

  predicate LexLess(a: Bytes, b: Bytes)
  {
    if b == [] then false
    else if a == [] then true
    else if a[0] != b[0] then a[0] < b[0]
    else LexLess(a[1..], b[1..])
  }

  lemma {:induction false} LexTrichotomy(a: Bytes, b: Bytes)
    ensures a == b || LexLess(a, b) || LexLess(b, a)
    ensures !(LexLess(a, b) && LexLess(b, a))
    ensures a == b ==> !LexLess(a, b)
  {
    if a != [] && b != [] {
      LexTrichotomy(a[1..], b[1..]);
      assert a == [a[0]] + a[1..] && b == [b[0]] + b[1..];
    }
  }

  lemma {:induction false} LexTransitive(a: Bytes, b: Bytes, c: Bytes)
    requires LexLess(a, b) && LexLess(b, c)
    ensures LexLess(a, c)
  {
    if a != [] && a[0] == b[0] && b[0] == c[0] {
      LexTransitive(a[1..], b[1..], c[1..]);
    }
  }

  /** Byte by byte: `a` is a proper prefix of `b`, or has the smaller byte where they first differ. */
  ghost predicate ByteBefore(a: Bytes, b: Bytes)
  {
    exists k :: 0 <= k <= |a| && k < |b| && a[..k] == b[..k] && (k < |a| ==> a[k] < b[k])
  }

  /** The recursive comparison is that order. */
  lemma {:induction false} LexLessExactly(a: Bytes, b: Bytes)
    ensures LexLess(a, b) <==> ByteBefore(a, b)
  {
    if a == [] || b == [] || a[0] != b[0] {
      if LexLess(a, b) {
        assert a[..0] == b[..0];
      }
    } else {
      LexLessExactly(a[1..], b[1..]);
      if LexLess(a, b) {
        var k :| 0 <= k <= |a[1..]| && k < |b[1..]| && a[1..][..k] == b[1..][..k]
          && (k < |a[1..]| ==> a[1..][k] < b[1..][k]);
        assert a[..k + 1] == [a[0]] + a[1..][..k] && b[..k + 1] == [b[0]] + b[1..][..k];
      }
      if ByteBefore(a, b) {
        var k :| 0 <= k <= |a| && k < |b| && a[..k] == b[..k] && (k < |a| ==> a[k] < b[k]);
        assert k > 0 && a[1..][..k - 1] == a[..k][1..] && b[1..][..k - 1] == b[..k][1..];
      }
    }
  }

  /** An encoded key with what it stands for. */
  datatype Keyed<+T> = Keyed(key: Bytes, value: T)

  ghost predicate Sorted<T>(ps: seq<Keyed<T>>)
  {
    forall i, j | 0 <= i < j < |ps| :: !LexLess(ps[j].key, ps[i].key)
  }

  ghost predicate StrictlySorted<T>(ps: seq<Keyed<T>>)
  {
    forall i, j | 0 <= i < j < |ps| :: LexLess(ps[i].key, ps[j].key)
  }

  function Insert<T>(p: Keyed<T>, ps: seq<Keyed<T>>): (r: seq<Keyed<T>>)
    ensures |r| == |ps| + 1
  {
    if ps == [] || !LexLess(ps[0].key, p.key) then [p] + ps else [ps[0]] + Insert(p, ps[1..])
  }

  /** Insertion sort: the order `sort_unstable_by` produces when no two keys are equal. */
  function Sort<T>(ps: seq<Keyed<T>>): (r: seq<Keyed<T>>)
    ensures |r| == |ps|
  {
    if ps == [] then [] else Insert(ps[0], Sort(ps[1..]))
  }

  ghost predicate DistinctKeys<T>(ps: seq<Keyed<T>>)
  {
    forall i, j | 0 <= i < j < |ps| :: ps[i].key != ps[j].key
  }

  ghost predicate HasKey<T>(ps: seq<Keyed<T>>, k: Bytes)
  {
    exists p :: p in ps && p.key == k
  }

  lemma {:induction false} DistinctHead<T>(ps: seq<Keyed<T>>)
    requires ps != []
    ensures DistinctKeys(ps) <==> DistinctKeys(ps[1..]) && !HasKey(ps[1..], ps[0].key)
  {
    if DistinctKeys(ps[1..]) && !HasKey(ps[1..], ps[0].key) {
      forall i, j | 0 <= i < j < |ps|
        ensures ps[i].key != ps[j].key
      {
        assert ps[1..][j - 1] in ps[1..];
        if i > 0 { assert ps[1..][i - 1] == ps[i]; }
      }
    }
    if HasKey(ps[1..], ps[0].key) {
      RepeatedHead(ps);
    }
  }

  lemma {:induction false} RepeatedHead<T>(ps: seq<Keyed<T>>)
    requires ps != [] && HasKey(ps[1..], ps[0].key)
    ensures !DistinctKeys(ps)
  {
    var p :| p in ps[1..] && p.key == ps[0].key;
    var k :| 0 <= k < |ps[1..]| && ps[1..][k] == p;
    assert ps[k + 1] == p;
  }

  lemma {:induction false} InsertElements<T>(p: Keyed<T>, ps: seq<Keyed<T>>)
    ensures forall x :: x in Insert(p, ps) <==> x == p || x in ps
    ensures forall k :: HasKey(Insert(p, ps), k) <==> k == p.key || HasKey(ps, k)
  {
    if ps != [] && LexLess(ps[0].key, p.key) {
      InsertElements(p, ps[1..]);
      assert forall x :: x in ps <==> x == ps[0] || x in ps[1..];
    }
    assert p in Insert(p, ps);
    forall k
      ensures HasKey(Insert(p, ps), k) <==> k == p.key || HasKey(ps, k)
    {
      if HasKey(ps, k) {
        var x :| x in ps && x.key == k;
        assert x in Insert(p, ps);
      }
      if HasKey(Insert(p, ps), k) {
        var x :| x in Insert(p, ps) && x.key == k;
        assert x == p || x in ps;
      }
    }
  }

  lemma {:induction false} InsertElement<T>(p: Keyed<T>, ps: seq<Keyed<T>>, x: Keyed<T>)
    requires x in Insert(p, ps)
    ensures x == p || x in ps
  {
    InsertElements(p, ps);
  }

  lemma {:induction false} InsertSorted<T>(p: Keyed<T>, ps: seq<Keyed<T>>)
    requires Sorted(ps)
    ensures Sorted(Insert(p, ps))
  {
    if ps == [] {
    } else if !LexLess(ps[0].key, p.key) {
      forall j | 0 <= j < |ps|
        ensures !LexLess(ps[j].key, p.key)
      {
        LexTrichotomy(ps[0].key, ps[j].key);
        if LexLess(ps[j].key, p.key) && LexLess(ps[0].key, ps[j].key) { LexTransitive(ps[0].key, ps[j].key, p.key); }
      }
    } else {
      InsertSorted(p, ps[1..]);
      InsertElements(p, ps[1..]);
      LexTrichotomy(ps[0].key, p.key);
      var rest := Insert(p, ps[1..]);
      forall j | 0 <= j < |rest|
        ensures !LexLess(rest[j].key, ps[0].key)
      {
        var x := rest[j];
        InsertElement(p, ps[1..], x);
        if x != p {
          var i :| 0 <= i < |ps[1..]| && ps[1..][i] == x;
          assert ps[i + 1] == x;
        }
      }
    }
  }

  lemma {:induction false} InsertDistinct<T>(p: Keyed<T>, ps: seq<Keyed<T>>)
    ensures DistinctKeys(Insert(p, ps)) <==> DistinctKeys(ps) && !HasKey(ps, p.key)
  {
    var r := Insert(p, ps);
    DistinctHead(r);
    if ps == [] || !LexLess(ps[0].key, p.key) {
      assert r[1..] == ps;
    } else {
      InsertDistinct(p, ps[1..]);
      InsertElements(p, ps[1..]);
      DistinctHead(ps);
      assert r[1..] == Insert(p, ps[1..]);
      LexTrichotomy(ps[0].key, p.key);
      HasKeyHead(ps, p.key);
    }
  }

  lemma {:induction false} HasKeyHead<T>(ps: seq<Keyed<T>>, k: Bytes)
    requires ps != []
    ensures HasKey(ps, k) <==> ps[0].key == k || HasKey(ps[1..], k)
  {
    assert ps[0] in ps;
    assert forall x :: x in ps <==> x == ps[0] || x in ps[1..];
    if HasKey(ps[1..], k) {
      var p :| p in ps[1..] && p.key == k;
      assert p in ps;
    }
  }

  lemma {:induction false} SortElements<T>(ps: seq<Keyed<T>>)
    ensures forall x :: x in Sort(ps) <==> x in ps
  {
    if ps != [] {
      SortElements(ps[1..]);
      InsertElements(ps[0], Sort(ps[1..]));
      assert forall x :: x in ps <==> x == ps[0] || x in ps[1..];
    }
  }

  lemma {:induction false} SortSorted<T>(ps: seq<Keyed<T>>)
    ensures Sorted(Sort(ps))
  {
    if ps != [] {
      SortSorted(ps[1..]);
      InsertSorted(ps[0], Sort(ps[1..]));
    }
  }

  lemma {:induction false} SortDistinct<T>(ps: seq<Keyed<T>>)
    ensures forall k :: HasKey(Sort(ps), k) <==> HasKey(ps, k)
    ensures DistinctKeys(Sort(ps)) <==> DistinctKeys(ps)
  {
    if ps != [] {
      SortDistinct(ps[1..]);
      InsertElements(ps[0], Sort(ps[1..]));
      InsertDistinct(ps[0], Sort(ps[1..]));
      DistinctHead(ps);
      forall k
        ensures HasKey(Sort(ps), k) <==> HasKey(ps, k)
      {
        HasKeyHead(ps, k);
      }
    }
  }

  /** In a sorted list, equal keys stand next to each other. */
  lemma {:induction false} SortedStrictly<T>(ps: seq<Keyed<T>>)
    requires Sorted(ps)
    ensures DistinctKeys(ps) ==> StrictlySorted(ps)
    ensures (forall i | 0 <= i < |ps| - 1 :: ps[i].key != ps[i + 1].key) ==> DistinctKeys(ps)
  {
    forall i, j | 0 <= i < j < |ps| && ps[i].key != ps[j].key
      ensures LexLess(ps[i].key, ps[j].key)
    {
      LexTrichotomy(ps[i].key, ps[j].key);
    }
    if forall i | 0 <= i < |ps| - 1 :: ps[i].key != ps[i + 1].key {
      forall i, j | 0 <= i < j < |ps|
        ensures ps[i].key != ps[j].key
      {
        LexTrichotomy(ps[i].key, ps[i + 1].key);
      }
    }
  }

  /** Strictly sorted lists with the same elements are equal: any correct sort gives this one. */
  lemma {:induction false} StrictlySortedUnique<T>(a: seq<Keyed<T>>, b: seq<Keyed<T>>)
    requires StrictlySorted(a) && StrictlySorted(b) && forall x :: x in a <==> x in b
    ensures a == b
  {
    SameElementsBothEmpty(a, b);
    if a != [] {
      assert a[0] in a && b[0] in b;
      HeadIsLeast(a, b[0]);
      HeadIsLeast(b, a[0]);
      LexTrichotomy(a[0].key, b[0].key);
      TailElements(a);
      TailElements(b);
      StrictlySortedUnique(a[1..], b[1..]);
    }
  }

  lemma {:induction false} SameElementsBothEmpty<T>(a: seq<Keyed<T>>, b: seq<Keyed<T>>)
    requires forall x :: x in a <==> x in b
    ensures a == [] <==> b == []
  {
    if a != [] { assert a[0] in b; }
    if b != [] { assert b[0] in a; }
  }

  lemma {:induction false} HeadIsLeast<T>(a: seq<Keyed<T>>, p: Keyed<T>)
    requires StrictlySorted(a) && p in a
    ensures p == a[0] || LexLess(a[0].key, p.key)
  {
    var i :| 0 <= i < |a| && a[i] == p;
  }

  lemma {:induction false} TailElements<T>(a: seq<Keyed<T>>)
    requires StrictlySorted(a) && a != []
    ensures forall x :: x in a[1..] <==> x in a && x != a[0]
  {
    LexTrichotomy(a[0].key, a[0].key);
    forall i | 0 < i < |a|
      ensures a[i] != a[0]
    {
      assert LexLess(a[0].key, a[i].key);
    }
  }

  lemma {:induction false} InsertMultiset<T>(p: Keyed<T>, ps: seq<Keyed<T>>)
    ensures multiset(Insert(p, ps)) == multiset(ps) + multiset{p}
  {
    if ps != [] && LexLess(ps[0].key, p.key) {
      InsertMultiset(p, ps[1..]);
      assert ps == [ps[0]] + ps[1..];
    }
  }

  /** Sorting rearranges, into byte order. */
  lemma {:induction false} SortMultiset<T>(ps: seq<Keyed<T>>)
    ensures multiset(Sort(ps)) == multiset(ps)
  {
    if ps != [] {
      SortMultiset(ps[1..]);
      InsertMultiset(ps[0], Sort(ps[1..]));
      assert ps == [ps[0]] + ps[1..];
    }
  }

  ghost predicate InByteOrder<T>(ps: seq<Keyed<T>>)
  {
    forall i, j | 0 <= i < j < |ps| :: ps[i].key == ps[j].key || ByteBefore(ps[i].key, ps[j].key)
  }

  lemma {:induction false} SortInByteOrder<T>(ps: seq<Keyed<T>>)
    ensures InByteOrder(Sort(ps))
  {
    hide LexLess, ByteBefore, Sort;
    var sorted := Sort(ps);
    SortSorted(ps);
    forall i, j | 0 <= i < j < |sorted|
      ensures sorted[i].key == sorted[j].key || ByteBefore(sorted[i].key, sorted[j].key)
    {
      LexTrichotomy(sorted[i].key, sorted[j].key);
      LexLessExactly(sorted[i].key, sorted[j].key);
    }
  }
}
