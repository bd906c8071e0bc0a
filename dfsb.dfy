/** The read-only parts of the backtracking engines (dfsb.py): the neighbour
    sets, the consistency check, and the two DFS-B++ ordering heuristics. Each
    is a method with the source's loops, proved against the property it
    promises. A partial assignment is a map from variable to colour; the
    domains are a map from variable to the list of colours still viable. */
module Dfsb {
  import opened Graph
  import opened Wrappers
  import opened StableSort

  // ---------------------------------------------------------------------------
  // Neighbour sets

  /** nb maps each variable 0..n-1 to the set of variables it shares a
      constraint with. */
  ghost predicate IsNeighborSets(n: nat, edges: seq<Edge>, nb: map<int, set<int>>)
  {
    && (forall v :: v in nb <==> 0 <= v < n)
    && (forall a, b :: a in nb ==> (b in nb[a] <==> Adjacent(edges, a, b)))
  }

  /** Builds the neighbour map: one empty set per variable, then both
      endpoints of each constraint are added to each other's set. The result is
      symmetric because Adjacent is. */
  method BuildNeighborSets(n: nat, edges: seq<Edge>) returns (nb: map<int, set<int>>)
    requires EdgesInRange(n, edges)
    ensures IsNeighborSets(n, edges, nb)
    ensures forall a, b :: a in nb && b in nb[a] ==> 0 <= b < n && a in nb[b]
  {
    nb := map[];
    var v := 0;
    while v < n
      invariant 0 <= v <= n
      invariant forall u :: u in nb <==> 0 <= u < v
      invariant forall u :: u in nb ==> nb[u] == {}
    {
      nb := nb[v := {}];
      v := v + 1;
    }
    var i := 0;
    while i < |edges|
      invariant 0 <= i <= |edges|
      invariant forall v :: v in nb <==> 0 <= v < n
      invariant forall a, b :: a in nb ==> (b in nb[a] <==> Adjacent(edges[..i], a, b))
    {
      var (a, b) := edges[i];
      nb := nb[a := nb[a] + {b}];
      nb := nb[b := nb[b] + {a}];
      forall x, y | x in nb ensures y in nb[x] <==> Adjacent(edges[..i + 1], x, y) {
        assert edges[..i + 1][i] == edges[i];
        if Adjacent(edges[..i], x, y) {
          var j :| 0 <= j < i && Joins(edges[..i][j], x, y);
          assert edges[..i + 1][j] == edges[..i][j];
        }
        if Adjacent(edges[..i + 1], x, y) && !Joins(edges[i], x, y) {
          var j :| 0 <= j < i + 1 && Joins(edges[..i + 1][j], x, y);
          assert edges[..i][j] == edges[..i + 1][j];
        }
      }
      i := i + 1;
    }
    assert edges[..i] == edges;
  }

  // ---------------------------------------------------------------------------
  // Consistency check

  /** The colour of variable x when variable v is read as colour c; None when x
      is unassigned. */
  function Reading(asg: map<int, int>, v: int, c: int, x: int): Option<int>
  {
    if x == v then Some(c) else if x in asg then Some(asg[x]) else None
  }

  /** Constraint e has both endpoints coloured, reading v as c, with the same
      colour. */
  predicate Clashes(e: Edge, v: int, c: int, asg: map<int, int>)
  {
    var x, y := Reading(asg, v, c, e.0), Reading(asg, v, c, e.1);
    x.Some? && y.Some? && x.value == y.value
  }

  /** No constraint clashes when v is read as c. */
  predicate Consistent(edges: seq<Edge>, v: int, c: int, asg: map<int, int>)
  {
    forall i :: 0 <= i < |edges| ==> !Clashes(edges[i], v, c, asg)
  }

  /** consistent(var, val, assignment): scans the constraints in order and
      answers false at the first one that clashes. */
  method IsConsistent(edges: seq<Edge>, v: int, c: int, asg: map<int, int>) returns (ok: bool)
    ensures ok <==> Consistent(edges, v, c, asg)
    ensures !ok <==> exists i :: 0 <= i < |edges| && Clashes(edges[i], v, c, asg)
  {
    var i := 0;
    while i < |edges|
      invariant 0 <= i <= |edges|
      invariant forall j :: 0 <= j < i ==> !Clashes(edges[j], v, c, asg)
    {
      var (a, b) := edges[i];
      var x := if a != v then (if a in asg then Some(asg[a]) else None) else Some(c);
      var y := if b != v then (if b in asg then Some(asg[b]) else None) else Some(c);
      if x.Some? && y.Some? && x.value == y.value {
        return false;
      }
      i := i + 1;
    }
    return true;
  }

  /** A self-loop (v, v) makes every colour for v inconsistent. */
  lemma SelfLoopInconsistent(edges: seq<Edge>, v: int, c: int, asg: map<int, int>)
    requires (v, v) in edges
    ensures !Consistent(edges, v, c, asg)
  {
    var i :| 0 <= i < |edges| && edges[i] == (v, v);
    assert Clashes(edges[i], v, c, asg);
  }

  /** Extending a proper partial assignment with v := c keeps it proper exactly
      when the consistency check accepts c for v. */
  lemma {:induction false} ConsistentIffProperExtension(edges: seq<Edge>, v: int, c: int, asg: map<int, int>)
    requires Proper(edges, asg)
    requires v !in asg
    ensures Consistent(edges, v, c, asg) <==> Proper(edges, asg[v := c])
  {
    var ext := asg[v := c];
    if Consistent(edges, v, c, asg) {
      forall i | 0 <= i < |edges| && edges[i].0 in ext && edges[i].1 in ext
        ensures ext[edges[i].0] != ext[edges[i].1]
      {
        assert !Clashes(edges[i], v, c, asg);
        assert Reading(asg, v, c, edges[i].0) == Some(ext[edges[i].0]);
        assert Reading(asg, v, c, edges[i].1) == Some(ext[edges[i].1]);
      }
    }
    if Proper(edges, ext) {
      forall i | 0 <= i < |edges| ensures !Clashes(edges[i], v, c, asg) {
        var e := edges[i];
        if Reading(asg, v, c, e.0).Some? && Reading(asg, v, c, e.1).Some? {
          assert Reading(asg, v, c, e.0) == Some(ext[e.0]);
          assert Reading(asg, v, c, e.1) == Some(ext[e.1]);
        }
      }
    }
  }

  /** Any colouring that a solution extends is proper. */
  lemma ProperRestrict(edges: seq<Edge>, col: map<int, int>, asg: map<int, int>)
    requires Proper(edges, col)
    requires Extends(col, asg)
    ensures Proper(edges, asg)
  {
    forall i | 0 <= i < |edges| && edges[i].0 in asg && edges[i].1 in asg
      ensures asg[edges[i].0] != asg[edges[i].1]
    {
      var a, b := edges[i].0, edges[i].1;
      assert a in col && col[a] == asg[a];
      assert b in col && col[b] == asg[b];
    }
  }

  // ---------------------------------------------------------------------------
  // Most-constrained-variable selection

  /** The first loop of mostConstrainedVariable: the unassigned variables in
      ascending order. */
  method UnassignedVars(n: nat, asg: map<int, int>) returns (unassigned: seq<int>)
    ensures forall j :: 0 <= j < |unassigned| ==> 0 <= unassigned[j] < n && unassigned[j] !in asg
    ensures forall i, j :: 0 <= i < j < |unassigned| ==> unassigned[i] < unassigned[j]
    ensures forall u :: 0 <= u < n && u !in asg ==> u in unassigned
  {
    unassigned := [];
    var v := 0;
    while v < n
      invariant 0 <= v <= n
      invariant forall j :: 0 <= j < |unassigned| ==> 0 <= unassigned[j] < v && unassigned[j] !in asg
      invariant forall i, j :: 0 <= i < j < |unassigned| ==> unassigned[i] < unassigned[j]
      invariant forall u :: 0 <= u < v && u !in asg ==> u in unassigned
    {
      if v !in asg {
        unassigned := unassigned + [v];
      }
      v := v + 1;
    }
  }

  /** mostConstrainedVariable: None exactly when every variable is assigned;
      otherwise an unassigned variable with the smallest domain, the lowest
      such index winning ties. */
  method MostConstrainedVariable(n: nat, asg: map<int, int>, domains: map<int, seq<int>>)
    returns (r: Option<int>)
    requires forall v :: 0 <= v < n ==> v in domains
    ensures r.None? <==> forall v :: 0 <= v < n ==> v in asg
    ensures r.Some? ==> 0 <= r.value < n && r.value !in asg
    ensures r.Some? ==> forall u :: 0 <= u < n && u !in asg ==>
      |domains[r.value]| <= |domains[u]| && (u < r.value ==> |domains[r.value]| < |domains[u]|)
  {
    var unassigned := UnassignedVars(n, asg);
    if |unassigned| == 0 {
      return None;
    }
    var mcv := unassigned[0];
    ghost var at := 0;
    var smallest := |domains[unassigned[0]]|;
    var t := 0;
    while t < |unassigned|
      invariant 0 <= t <= |unassigned|
      invariant 0 <= at < |unassigned| && (t == 0 ==> at == 0) && (t > 0 ==> at < t) && mcv == unassigned[at]
      invariant smallest == |domains[mcv]|
      invariant forall j :: 0 <= j < t ==> smallest <= |domains[unassigned[j]]|
      invariant forall j :: 0 <= j < at ==> smallest < |domains[unassigned[j]]|
    {
      var u := unassigned[t];
      if |domains[u]| < smallest {
        smallest := |domains[u]|;
        mcv := u;
        at := t;
      }
      t := t + 1;
    }
    r := Some(mcv);
    forall u | 0 <= u < n && u !in asg
      ensures |domains[mcv]| <= |domains[u]| && (u < mcv ==> |domains[mcv]| < |domains[u]|)
    {
      var j :| 0 <= j < |unassigned| && unassigned[j] == u;
      if u < mcv {
        assert j < at;
      }
    }
  }

  // ---------------------------------------------------------------------------
  // Least-constraining-value ordering

  /** The unassigned variables among nbs whose domain still holds colour c:
      those that choosing c would constrain. */
  function Constrained(nbs: set<int>, asg: map<int, int>, domains: map<int, seq<int>>, c: int): set<int>
  {
    set u | u in nbs && u !in asg && u in domains && c in domains[u]
  }

  function ConstraintCount(nbs: set<int>, asg: map<int, int>, domains: map<int, seq<int>>, c: int): nat
  {
    |Constrained(nbs, asg, domains, c)|
  }

  /** The colours of s whose constraint count is m, in their order in s. */
  function ValuesWithCount(s: seq<int>, nbs: set<int>, asg: map<int, int>, domains: map<int, seq<int>>, m: nat): seq<int>
  {
    if s == [] then []
    else
      (if ConstraintCount(nbs, asg, domains, s[0]) == m then [s[0]] else [])
      + ValuesWithCount(s[1..], nbs, asg, domains, m)
  }

  function Firsts(s: seq<Keyed>): (r: seq<int>)
    ensures |r| == |s| && forall i :: 0 <= i < |s| ==> r[i] == s[i].0
  {
    if s == [] then [] else [s[0].0] + Firsts(s[1..])
  }

  /** Each pair holds a colour and that colour's constraint count. */
  ghost predicate Tagged(p: seq<Keyed>, nbs: set<int>, asg: map<int, int>, domains: map<int, seq<int>>)
  {
    forall i :: 0 <= i < |p| ==> p[i].1 == ConstraintCount(nbs, asg, domains, p[i].0)
  }

  lemma {:induction false} FilterTagged(p: seq<Keyed>, nbs: set<int>, asg: map<int, int>, domains: map<int, seq<int>>, m: nat)
    requires Tagged(p, nbs, asg, domains)
    ensures ValuesWithCount(Firsts(p), nbs, asg, domains, m) == Firsts(WithKey(p, m))
  {
    if p != [] {
      FilterTagged(p[1..], nbs, asg, domains, m);
      assert Firsts(p)[1..] == Firsts(p[1..]);
    }
  }

  lemma {:induction false} FilterKeepsOccurrences(s: seq<int>, nbs: set<int>, asg: map<int, int>, domains: map<int, seq<int>>, x: int)
    ensures multiset(ValuesWithCount(s, nbs, asg, domains, ConstraintCount(nbs, asg, domains, x)))[x] == multiset(s)[x]
  {
    if s != [] {
      var m := ConstraintCount(nbs, asg, domains, x);
      FilterKeepsOccurrences(s[1..], nbs, asg, domains, x);
      var head := if ConstraintCount(nbs, asg, domains, s[0]) == m then [s[0]] else [];
      assert ValuesWithCount(s, nbs, asg, domains, m) == head + ValuesWithCount(s[1..], nbs, asg, domains, m);
      assert multiset(s)[x] == multiset([s[0]])[x] + multiset(s[1..])[x] by {
        assert s == [s[0]] + s[1..];
      }
      assert multiset(head)[x] == multiset([s[0]])[x];
    }
  }

  /** Sorting keeps every pair's tag. */
  lemma SortKeepsTags(counts: seq<Keyed>, nbs: set<int>, asg: map<int, int>, domains: map<int, seq<int>>)
    requires Tagged(counts, nbs, asg, domains)
    ensures Tagged(SortByKey(counts), nbs, asg, domains)
  {
    var sorted := SortByKey(counts);
    SortIsStable(counts);
    forall i | 0 <= i < |sorted| ensures sorted[i].1 == ConstraintCount(nbs, asg, domains, sorted[i].0) {
      assert sorted[i] in multiset(counts);
    }
  }

  /** Two colour lists that agree on every count class are permutations of
      each other. */
  lemma SameClassesPermutation(s: seq<int>, t: seq<int>, nbs: set<int>, asg: map<int, int>, domains: map<int, seq<int>>)
    requires forall m :: ValuesWithCount(s, nbs, asg, domains, m) == ValuesWithCount(t, nbs, asg, domains, m)
    ensures multiset(s) == multiset(t)
  {
    forall x ensures multiset(s)[x] == multiset(t)[x] {
      FilterKeepsOccurrences(s, nbs, asg, domains, x);
      FilterKeepsOccurrences(t, nbs, asg, domains, x);
    }
  }

  /** The ordering that leastConstrainingValue returns, from the (value,
      count) pairs it builds: sorted by count, stable for equal counts, and a
      permutation of the domain. */
  lemma LcvOrdering(dv: seq<int>, counts: seq<Keyed>, nbs: set<int>, asg: map<int, int>, domains: map<int, seq<int>>)
    requires |counts| == |dv|
    requires forall j :: 0 <= j < |dv| ==> counts[j] == (dv[j], ConstraintCount(nbs, asg, domains, dv[j]))
    ensures forall i, j :: 0 <= i < j < |Firsts(SortByKey(counts))| ==>
      ConstraintCount(nbs, asg, domains, Firsts(SortByKey(counts))[i]) <= ConstraintCount(nbs, asg, domains, Firsts(SortByKey(counts))[j])
    ensures forall m :: ValuesWithCount(Firsts(SortByKey(counts)), nbs, asg, domains, m) == ValuesWithCount(dv, nbs, asg, domains, m)
  {
    var sorted := SortByKey(counts);
    SortIsStable(counts);
    SortKeepsTags(counts, nbs, asg, domains);
    assert Firsts(counts) == dv;
    forall m ensures ValuesWithCount(Firsts(sorted), nbs, asg, domains, m) == ValuesWithCount(dv, nbs, asg, domains, m) {
      FilterTagged(sorted, nbs, asg, domains, m);
      FilterTagged(counts, nbs, asg, domains, m);
    }
  }

  lemma ConstrainedStep(seen: set<int>, u: int, asg: map<int, int>, domains: map<int, seq<int>>, c: int)
    requires u !in seen
    ensures |Constrained(seen + {u}, asg, domains, c)| ==
      |Constrained(seen, asg, domains, c)| + (if u !in asg && u in domains && c in domains[u] then 1 else 0)
  {
    if u !in asg && u in domains && c in domains[u] {
      assert Constrained(seen + {u}, asg, domains, c) == Constrained(seen, asg, domains, c) + {u};
    } else {
      assert Constrained(seen + {u}, asg, domains, c) == Constrained(seen, asg, domains, c);
    }
  }

  lemma NonEmptyHasElement(s: set<int>)
    requires |s| > 0
    ensures exists x :: x in s
  {
    if forall x :: x !in s {
      assert false;
    }
  }

  /** The inner loop of leastConstrainingValue: walks the neighbour set and
      counts the unassigned neighbours whose domain still holds c. */
  method CountConstrained(nbs: set<int>, asg: map<int, int>, domains: map<int, seq<int>>, c: int)
    returns (num: nat)
    requires forall u :: u in nbs ==> u in domains
    ensures num == |Constrained(nbs, asg, domains, c)|
  {
    num := 0;
    var rest := nbs;
    ghost var seen: set<int> := {};
    while |rest| > 0
      invariant rest + seen == nbs && rest !! seen
      invariant num == |Constrained(seen, asg, domains, c)|
      decreases |rest|
    {
      NonEmptyHasElement(rest);
      var u :| u in rest;
      ConstrainedStep(seen, u, asg, domains, c);
      if u !in asg && c in domains[u] {
        num := num + 1;
      }
      rest := rest - {u};
      seen := seen + {u};
    }
    assert seen == nbs;
  }

  /** leastConstrainingValue: counts, for each colour of v's domain, the
      unassigned neighbours whose domain still holds it, then sorts the colours
      by that count with a stable sort. */
  method LeastConstrainingValue(nb: map<int, set<int>>, v: int, asg: map<int, int>, domains: map<int, seq<int>>)
    returns (order: seq<int>)
    requires v in domains && v in nb
    requires forall u :: u in nb[v] ==> u in domains
    ensures multiset(order) == multiset(domains[v])
    ensures forall i, j :: 0 <= i < j < |order| ==>
      ConstraintCount(nb[v], asg, domains, order[i]) <= ConstraintCount(nb[v], asg, domains, order[j])
    ensures forall m :: ValuesWithCount(order, nb[v], asg, domains, m) == ValuesWithCount(domains[v], nb[v], asg, domains, m)
  {
    var dv := domains[v];
    var counts: seq<Keyed> := [];
    var i := 0;
    while i < |dv|
      invariant 0 <= i <= |dv| && |counts| == i
      invariant forall j :: 0 <= j < i ==> counts[j] == (dv[j], ConstraintCount(nb[v], asg, domains, dv[j]))
    {
      var c := dv[i];
      var num := CountConstrained(nb[v], asg, domains, c);
      counts := counts + [(c, num)];
      i := i + 1;
    }
    var sorted := SortByKey(counts);
    order := [];
    var t := 0;
    while t < |sorted|
      invariant 0 <= t <= |sorted| && |order| == t
      invariant forall j :: 0 <= j < t ==> order[j] == sorted[j].0
    {
      order := order + [sorted[t].0];
      t := t + 1;
    }
    assert order == Firsts(sorted);
    LcvOrdering(dv, counts, nb[v], asg, domains);
    SameClassesPermutation(order, dv, nb[v], asg, domains);
  }
}
