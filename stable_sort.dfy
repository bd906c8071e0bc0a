/** Python's list.sort(key=...) as leastConstrainingValue uses it: a stable
    sort of (value, key) pairs by key. It is modelled as insertion sort, which
    places each pair after every earlier pair whose key is not larger. */
module StableSort {

  /** A value tagged with its sort key. */
  type Keyed = (int, nat)

  predicate SortedByKey(s: seq<Keyed>)
  {
    forall i, j :: 0 <= i < j < |s| ==> s[i].1 <= s[j].1
  }

  /** The pairs of s whose key is c, in their order in s. */
  function WithKey(s: seq<Keyed>, c: nat): seq<Keyed>
  {
    if s == [] then [] else (if s[0].1 == c then [s[0]] else []) + WithKey(s[1..], c)
  }

  /** Inserts x into s just before the first pair with a larger key. */
  function Insert(x: Keyed, s: seq<Keyed>): seq<Keyed>
  {
    if s == [] then [x]
    else if x.1 < s[0].1 then [x] + s
    else [s[0]] + Insert(x, s[1..])
  }

  function SortByKey(s: seq<Keyed>): seq<Keyed>
  {
    if s == [] then [] else Insert(s[|s| - 1], SortByKey(s[..|s| - 1]))
  }

  lemma {:induction false} WithKeyAppend(a: seq<Keyed>, b: seq<Keyed>, c: nat)
    ensures WithKey(a + b, c) == WithKey(a, c) + WithKey(b, c)
  {
    if a == [] {
      assert a + b == b;
    } else {
      var head := if a[0].1 == c then [a[0]] else [];
      assert (a + b)[0] == a[0];
      assert (a + b)[1..] == a[1..] + b;
      assert WithKey(a + b, c) == head + WithKey(a[1..] + b, c);
      WithKeyAppend(a[1..], b, c);
      assert WithKey(a, c) == head + WithKey(a[1..], c);
    }
  }

  lemma WithKeySingle(x: Keyed, c: nat)
    ensures WithKey([x], c) == if x.1 == c then [x] else []
  {
    assert [x][1..] == [];
  }

  lemma {:induction false} WithKeyAbove(s: seq<Keyed>, c: nat)
    requires forall i :: 0 <= i < |s| ==> s[i].1 > c
    ensures WithKey(s, c) == []
  {
    if s != [] {
      WithKeyAbove(s[1..], c);
    }
  }

  lemma {:induction false} InsertMultiset(x: Keyed, s: seq<Keyed>)
    ensures multiset(Insert(x, s)) == multiset(s) + multiset{x}
  {
    if s != [] && x.1 >= s[0].1 {
      InsertMultiset(x, s[1..]);
      assert s == [s[0]] + s[1..];
    }
  }

  lemma {:induction false} InsertMembers(x: Keyed, s: seq<Keyed>)
    ensures forall y :: y in Insert(x, s) <==> y == x || y in s
  {
    if s != [] && x.1 >= s[0].1 {
      InsertMembers(x, s[1..]);
      assert s == [s[0]] + s[1..];
    }
  }

  lemma {:induction false} InsertSorted(x: Keyed, s: seq<Keyed>)
    requires SortedByKey(s)
    ensures SortedByKey(Insert(x, s))
  {
    if s != [] && x.1 >= s[0].1 {
      InsertSorted(x, s[1..]);
      InsertMembers(x, s[1..]);
      var r := Insert(x, s[1..]);
      assert Insert(x, s) == [s[0]] + r;
      forall j | 0 <= j < |r| ensures s[0].1 <= r[j].1 {
        assert r[j] in r;
        if r[j] != x {
          var q :| 0 <= q < |s[1..]| && s[1..][q] == r[j];
          assert s[q + 1] == r[j];
        }
      }
    }
  }

  lemma {:induction false} InsertWithKey(x: Keyed, s: seq<Keyed>, c: nat)
    requires SortedByKey(s)
    ensures WithKey(Insert(x, s), c) == WithKey(s, c) + (if x.1 == c then [x] else [])
  {
    if s == [] {
    } else if x.1 < s[0].1 {
      assert ([x] + s)[1..] == s;
      if x.1 == c {
        WithKeyAbove(s, c);
      }
    } else {
      InsertWithKey(x, s[1..], c);
      assert ([s[0]] + Insert(x, s[1..]))[1..] == Insert(x, s[1..]);
    }
  }

  lemma {:induction false} SortSorted(s: seq<Keyed>)
    ensures SortedByKey(SortByKey(s))
  {
    if s != [] {
      SortSorted(s[..|s| - 1]);
      InsertSorted(s[|s| - 1], SortByKey(s[..|s| - 1]));
    }
  }

  lemma {:induction false} SortMultiset(s: seq<Keyed>)
    ensures multiset(SortByKey(s)) == multiset(s)
  {
    if s != [] {
      var init, last := s[..|s| - 1], s[|s| - 1];
      SortMultiset(init);
      InsertMultiset(last, SortByKey(init));
      assert s == init + [last];
    }
  }

  lemma {:induction false} SortWithKey(s: seq<Keyed>, c: nat)
    ensures WithKey(SortByKey(s), c) == WithKey(s, c)
  {
    if s != [] {
      var init, last := s[..|s| - 1], s[|s| - 1];
      SortWithKey(init, c);
      SortSorted(init);
      InsertWithKey(last, SortByKey(init), c);
      assert s == init + [last];
      WithKeyAppend(init, [last], c);
      WithKeySingle(last, c);
    }
  }

  /** SortByKey is a stable sort: its result is ordered by key, and for every
      key the pairs with that key appear in their original order (which also
      makes the result a permutation of the input). */
  lemma SortIsStable(s: seq<Keyed>)
    ensures SortedByKey(SortByKey(s))
    ensures multiset(SortByKey(s)) == multiset(s)
    ensures forall c :: WithKey(SortByKey(s), c) == WithKey(s, c)
  {
    SortSorted(s);
    SortMultiset(s);
    forall c ensures WithKey(SortByKey(s), c) == WithKey(s, c) {
      SortWithKey(s, c);
    }
  }
}
