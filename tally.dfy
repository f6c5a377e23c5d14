/** The counting idioms the components share: a `reduce` into an insertion-ordered
    record of counts, `Array.from(new Set(xs))`, the stable descending
    `Array.prototype.sort((a, b) => b.n - a.n)`, and "first entry of that sort". */
module Tally {
  import opened Optional

  /** Number of occurrences of x in xs. */
  function Count<T(==,!new)>(xs: seq<T>, x: T): nat
  {
    multiset(xs)[x]
  }

  predicate Distinct<T(==,!new)>(s: seq<T>)
  {
    forall i, j :: 0 <= i < j < |s| ==> s[i] != s[j]
  }

  /** `xs.indexOf(x)` for an x that occurs: the position of its first occurrence. */
  function IndexOf<T(==,!new)>(xs: seq<T>, x: T): (i: nat)
    requires x in xs
    ensures i < |xs| && xs[i] == x && x !in xs[..i]
  {
    if xs[0] == x then 0
    else
      var i := 1 + IndexOf(xs[1..], x);
      assert xs[..i] == [xs[0]] + xs[1..][..i - 1];
      i
  }

  lemma {:induction false} IndexOfPrefix<T(!new)>(a: seq<T>, b: seq<T>, x: T)
    requires x in a
    ensures IndexOf(a + b, x) == IndexOf(a, x)
  {
    if a[0] != x {
      assert (a + b)[1..] == a[1..] + b;
      IndexOfPrefix(a[1..], b, x);
    }
  }

  lemma {:induction false} DistinctCount<T(!new)>(keys: seq<T>, x: T)
    requires Distinct(keys)
    ensures Count(keys, x) == if x in keys then 1 else 0
  {
    if keys != [] {
      assert keys == [keys[0]] + keys[1..];
      assert Distinct(keys[1..]);
      DistinctCount(keys[1..], x);
      assert keys[0] == x ==> x !in keys[1..];
    }
  }

  /** `Array.from(new Set(xs))`: every distinct element once, in the order in which
      a Set built by successive `add`s keeps it. */
  function FirstSeen<T(==,!new)>(xs: seq<T>): (r: seq<T>)
    ensures Distinct(r)
    ensures forall x :: x in r <==> x in xs
  {
    if xs == [] then []
    else
      assert xs == xs[..|xs| - 1] + [xs[|xs| - 1]];
      AddKey(FirstSeen(xs[..|xs| - 1]), xs[|xs| - 1])
  }

  /** `set.add(x)` on a Set read back in insertion order. */
  function AddKey<T(==,!new)>(keys: seq<T>, x: T): (r: seq<T>)
    ensures Distinct(keys) ==> Distinct(r)
    ensures forall y :: y in r <==> y in keys || y == x
  {
    if x in keys then keys else keys + [x]
  }

  lemma AddKeyCons<T(!new)>(k: T, tail: seq<T>, x: T)
    requires k != x
    ensures AddKey([k] + tail, x) == [k] + AddKey(tail, x)
  {
  }

  /** The order FirstSeen keeps is the order of first appearance in xs. */
  lemma {:induction false} FirstSeenOrder<T(!new)>(xs: seq<T>)
    ensures forall i, j :: 0 <= i < j < |FirstSeen(xs)| ==>
              IndexOf(xs, FirstSeen(xs)[i]) < IndexOf(xs, FirstSeen(xs)[j])
  {
    if xs != [] {
      var q := xs[..|xs| - 1];
      var x := xs[|xs| - 1];
      assert xs == q + [x];
      FirstSeenOrder(q);
      var p := FirstSeen(q);
      var r := FirstSeen(xs);
      forall y | y in p
        ensures IndexOf(xs, y) == IndexOf(q, y) < |q|
      {
        IndexOfPrefix(q, [x], y);
      }
      if x !in p {
        assert IndexOf(xs, x) == |q|;
        forall i, j | 0 <= i < j < |r|
          ensures IndexOf(xs, r[i]) < IndexOf(xs, r[j])
        {
          assert r[i] == p[i];
          if j < |p| {
            assert r[j] == p[j];
          }
        }
      }
    }
  }

  /** One key of an insertion-ordered record of counts. */
  datatype Entry<T> = Entry(key: T, count: nat)

  function EntryCount<T>(e: Entry<T>): int
  {
    e.count
  }

  /** The sum of the counts of a record. */
  function Total<T>(es: seq<Entry<T>>): nat
  {
    if es == [] then 0 else es[0].count + Total(es[1..])
  }

  /** `acc[x] = (acc[x] || 0) + 1`: raise the count of an existing key where it
      stands, or append the key with count 1. */
  function Bump<T(==,!new)>(acc: seq<Entry<T>>, x: T): (r: seq<Entry<T>>)
    ensures Total(r) == Total(acc) + 1
  {
    if acc == [] then [Entry(x, 1)]
    else if acc[0].key == x then [Entry(x, acc[0].count + 1)] + acc[1..]
    else [acc[0]] + Bump(acc[1..], x)
  }

  /** `xs.reduce((acc, x) => { acc[x] = (acc[x] || 0) + 1; return acc }, {})`,
      the record read back in its key order (the keys here are never
      integer-like, so JavaScript keeps them in insertion order). */
  function Tally<T(==,!new)>(xs: seq<T>): (r: seq<Entry<T>>)
    ensures Total(r) == |xs|
  {
    if xs == [] then [] else Bump(Tally(xs[..|xs| - 1]), xs[|xs| - 1])
  }

  /** The record that holds, for each of `keys` in turn, how often it occurs in xs. */
  function CountsOver<T(==,!new)>(xs: seq<T>, keys: seq<T>): (r: seq<Entry<T>>)
    ensures |r| == |keys|
  {
    if keys == [] then [] else [Entry(keys[0], Count(xs, keys[0]))] + CountsOver(xs, keys[1..])
  }

  lemma {:induction false} CountsOverAt<T(!new)>(xs: seq<T>, keys: seq<T>, i: nat)
    requires i < |keys|
    ensures CountsOver(xs, keys)[i] == Entry(keys[i], Count(xs, keys[i]))
  {
    if i > 0 {
      CountsOverAt(xs, keys[1..], i - 1);
    }
  }

  lemma {:induction false} BumpCounts<T(!new)>(xs: seq<T>, keys: seq<T>, x: T)
    requires Distinct(keys)
    requires x in keys || x !in xs
    ensures Bump(CountsOver(xs, keys), x) == CountsOver(xs + [x], AddKey(keys, x))
    decreases |keys|
  {
    if keys == [] {
      CountSnoc(xs, x, x);
    } else if keys[0] == x {
      BumpFirstKey(xs, keys, x);
    } else {
      var tail := keys[1..];
      assert Distinct(tail);
      BumpCounts(xs, tail, x);
      assert keys == [keys[0]] + tail;
      AddKeyCons(keys[0], tail, x);
      CountSnoc(xs, x, keys[0]);
    }
  }

  lemma {:induction false} BumpFirstKey<T(!new)>(xs: seq<T>, keys: seq<T>, x: T)
    requires Distinct(keys) && keys != [] && keys[0] == x
    ensures Bump(CountsOver(xs, keys), x) == CountsOver(xs + [x], keys)
  {
    CountSnoc(xs, x, x);
    UnchangedCounts(xs, keys[1..], x);
  }

  lemma {:induction false} UnchangedCounts<T(!new)>(xs: seq<T>, keys: seq<T>, x: T)
    requires x !in keys
    ensures CountsOver(xs + [x], keys) == CountsOver(xs, keys)
  {
    if keys != [] {
      CountSnoc(xs, x, keys[0]);
      UnchangedCounts(xs, keys[1..], x);
    }
  }

  lemma CountSnoc<T(!new)>(xs: seq<T>, x: T, y: T)
    ensures Count(xs + [x], y) == Count(xs, y) + if y == x then 1 else 0
  {
    assert multiset(xs + [x]) == multiset(xs) + multiset{x};
  }

  /** The reduce builds exactly one entry per distinct element, in order of first
      appearance, holding that element's number of occurrences. */
  lemma {:induction false} TallyMeaning<T(!new)>(xs: seq<T>)
    ensures Tally(xs) == CountsOver(xs, FirstSeen(xs))
  {
    if xs != [] {
      var q := xs[..|xs| - 1];
      var x := xs[|xs| - 1];
      assert xs == q + [x];
      TallyMeaning(q);
      BumpCounts(q, FirstSeen(q), x);
    }
  }

  lemma {:induction false} CountsOverSnoc<T(!new)>(xs: seq<T>, keys: seq<T>, x: T)
    ensures Total(CountsOver(xs + [x], keys)) == Total(CountsOver(xs, keys)) + Count(keys, x)
    decreases |keys|
  {
    if keys != [] {
      CountSnoc(xs, x, keys[0]);
      assert keys == [keys[0]] + keys[1..];
      CountsOverSnoc(xs, keys[1..], x);
    }
  }

  /** Counting xs against any duplicate-free list of keys that covers every
      element accounts for every element exactly once. */
  lemma {:induction false} CountsOverTotal<T(!new)>(xs: seq<T>, keys: seq<T>)
    requires Distinct(keys)
    requires forall x :: x in xs ==> x in keys
    ensures Total(CountsOver(xs, keys)) == |xs|
  {
    if xs == [] {
      ZeroCounts(keys);
    } else {
      var q := xs[..|xs| - 1];
      var x := xs[|xs| - 1];
      assert xs == q + [x];
      CountsOverTotal(q, keys);
      CountsOverSnoc(q, keys, x);
      DistinctCount(keys, x);
    }
  }

  lemma {:induction false} ZeroCounts<T(!new)>(keys: seq<T>)
    ensures Total(CountsOver([], keys)) == 0
  {
    if keys != [] {
      ZeroCounts(keys[1..]);
    }
  }

  predicate SortedDesc<T>(s: seq<T>, key: T -> int)
  {
    forall i, j :: 0 <= i < j < |s| ==> key(s[i]) >= key(s[j])
  }

  /** Insertion of x in front of every element whose key is not larger. */
  function Insert<T(==,!new)>(x: T, s: seq<T>, key: T -> int): (r: seq<T>)
    ensures multiset(r) == multiset(s) + multiset{x}
    ensures |r| == |s| + 1
  {
    if s == [] || key(x) >= key(s[0]) then [x] + s
    else
      assert s == [s[0]] + s[1..];
      [s[0]] + Insert(x, s[1..], key)
  }

  lemma {:induction false} InsertSorted<T(!new)>(x: T, s: seq<T>, key: T -> int)
    requires SortedDesc(s, key)
    ensures SortedDesc(Insert(x, s, key), key)
  {
    if s != [] && key(x) < key(s[0]) {
      var t := Insert(x, s[1..], key);
      InsertSorted(x, s[1..], key);
      forall y | y in t ensures key(y) <= key(s[0]) {
        assert y in multiset(t);
        if y != x {
          var j :| 0 <= j < |s[1..]| && s[1..][j] == y;
          assert s[j + 1] == y;
        }
      }
      var r := Insert(x, s, key);
      assert r == [s[0]] + t;
      forall i, j | 0 <= i < j < |r| ensures key(r[i]) >= key(r[j]) {
        assert r[j] == t[j - 1];
        if i > 0 {
          assert r[i] == t[i - 1];
        } else {
          assert r[j] in t;
        }
      }
    }
  }

  /** `s.sort((a, b) => key(b) - key(a))`: ECMAScript's sort is stable, which
      insertion from the back gives: an element goes in front of all that tie with it. */
  function SortDesc<T(==,!new)>(s: seq<T>, key: T -> int): (r: seq<T>)
    ensures multiset(r) == multiset(s)
    ensures |r| == |s|
    ensures SortedDesc(r, key)
  {
    if s == [] then []
    else
      assert s == [s[0]] + s[1..];
      InsertSorted(s[0], SortDesc(s[1..], key), key);
      Insert(s[0], SortDesc(s[1..], key), key)
  }

  /** The elements of s whose key is v, in order. */
  function WithKey<T>(s: seq<T>, key: T -> int, v: int): seq<T>
  {
    if s == [] then []
    else (if key(s[0]) == v then [s[0]] else []) + WithKey(s[1..], key, v)
  }

  lemma {:induction false} InsertWithKey<T(!new)>(x: T, s: seq<T>, key: T -> int, v: int)
    ensures WithKey(Insert(x, s, key), key, v) == (if key(x) == v then [x] else []) + WithKey(s, key, v)
  {
    var r := Insert(x, s, key);
    if s == [] || key(x) >= key(s[0]) {
      assert r == [x] + s;
      assert r[1..] == s;
    } else {
      var t := Insert(x, s[1..], key);
      assert r == [s[0]] + t;
      assert r[1..] == t;
      InsertWithKey(x, s[1..], key, v);
      var head := if key(s[0]) == v then [s[0]] else [];
      var mid := if key(x) == v then [x] else [];
      assert WithKey(r, key, v) == head + WithKey(t, key, v);
      assert WithKey(s, key, v) == head + WithKey(s[1..], key, v);
      assert head == [] || mid == [];
    }
  }

  /** Stability: the elements that tie on any key keep their relative order. */
  lemma {:induction false} SortKeepsTies<T(!new)>(s: seq<T>, key: T -> int, v: int)
    ensures WithKey(SortDesc(s, key), key, v) == WithKey(s, key, v)
  {
    if s != [] {
      SortKeepsTies(s[1..], key, v);
      InsertWithKey(s[0], SortDesc(s[1..], key), key, v);
    }
  }

  /** The first element of the sorted sequence is the earliest element of s with
      the largest key. */
  lemma {:induction false} SortHead<T(!new)>(s: seq<T>, key: T -> int) returns (i: nat)
    requires s != []
    ensures i < |s| && SortDesc(s, key)[0] == s[i]
    ensures forall j :: 0 <= j < |s| ==> key(s[j]) <= key(s[i])
    ensures forall j :: 0 <= j < i ==> key(s[j]) < key(s[i])
  {
    var u := s[1..];
    assert s == [s[0]] + u;
    assert SortDesc(s, key) == Insert(s[0], SortDesc(u, key), key);
    if u == [] {
      i := 0;
    } else {
      var k := SortHead(u, key);
      i := InsertFront(s[0], u, SortDesc(u, key), k, key);
    }
  }

  /** Inserting x into a sequence t whose head is the earliest largest element
      u[k] of u puts in front the earliest largest element of [x] + u. */
  lemma InsertFront<T(!new)>(x: T, u: seq<T>, t: seq<T>, k: nat, key: T -> int) returns (i: nat)
    requires k < |u| && t != [] && t[0] == u[k]
    requires forall j :: 0 <= j < |u| ==> key(u[j]) <= key(u[k])
    requires forall j :: 0 <= j < k ==> key(u[j]) < key(u[k])
    ensures i <= |u| && Insert(x, t, key)[0] == ([x] + u)[i]
    ensures forall j :: 0 <= j <= |u| ==> key(([x] + u)[j]) <= key(([x] + u)[i])
    ensures forall j :: 0 <= j < i ==> key(([x] + u)[j]) < key(([x] + u)[i])
  {
    InsertHead(x, t, key);
    var s := [x] + u;
    i := if key(x) >= key(u[k]) then 0 else k + 1;
    forall j | 0 <= j <= |u| ensures key(s[j]) <= key(s[i]) {
      if j > 0 {
        assert s[j] == u[j - 1];
      }
    }
    forall j | 0 <= j < i ensures key(s[j]) < key(s[i]) {
      if j > 0 {
        assert s[j] == u[j - 1];
      }
    }
  }

  lemma InsertHead<T(!new)>(x: T, t: seq<T>, key: T -> int)
    ensures Insert(x, t, key)[0] == if t == [] || key(x) >= key(t[0]) then x else t[0]
  {
  }

  /** `Object.entries(tally).sort((a, b) => b[1] - a[1])[0]?.[0]`: the element with
      the most occurrences, None for an empty list. */
  function MostFrequent<T(==,!new)>(xs: seq<T>): Option<T>
  {
    var t := Tally(xs);
    if t == [] then None else Some(SortDesc(t, EntryCount)[0].key)
  }

  /** MostFrequent picks an element of largest count, and of those the one that
      appears first in xs; it is None exactly for the empty list. */
  lemma MostFrequentIsFirstMax<T(!new)>(xs: seq<T>)
    ensures MostFrequent(xs).None? <==> xs == []
    ensures MostFrequent(xs).Some? ==>
              var y := MostFrequent(xs).value;
              && y in xs
              && (forall z :: Count(xs, z) <= Count(xs, y))
              && (forall z :: z in xs && Count(xs, z) == Count(xs, y) ==> IndexOf(xs, y) <= IndexOf(xs, z))
  {
    var t := Tally(xs);
    var keys := FirstSeen(xs);
    TallyMeaning(xs);
    if xs != [] {
      assert xs[0] in keys;
      var i := SortHead(t, EntryCount);
      var y := t[i].key;
      CountsOverAt(xs, keys, i);
      assert y == keys[i];
      FirstSeenOrder(xs);
      forall z ensures Count(xs, z) <= Count(xs, y) {
        if z in xs {
          var k :| 0 <= k < |keys| && keys[k] == z;
          CountsOverAt(xs, keys, k);
          CountsOverAt(xs, keys, i);
          assert EntryCount(t[k]) <= EntryCount(t[i]);
        }
      }
      forall z | z in xs && Count(xs, z) == Count(xs, y)
        ensures IndexOf(xs, y) <= IndexOf(xs, z)
      {
        var k :| 0 <= k < |keys| && keys[k] == z;
        CountsOverAt(xs, keys, k);
        CountsOverAt(xs, keys, i);
        assert EntryCount(t[k]) == EntryCount(t[i]);
        assert !(k < i);
      }
    }
  }
}
