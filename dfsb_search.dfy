/** The two backtracking searches of dfsb.py over a problem object that owns
    the partial assignment and the domains, both updated in place as the
    source's dictionaries are: plain DFS-B (variables in index order, colours
    in increasing order) and DFS-B++ (most constrained variable, least
    constraining value, forward checking with domain restoration). */
module DfsbSearch {
  import opened Graph
  import opened Wrappers
  import opened StableSort
  import opened Dfsb

  // ---------------------------------------------------------------------------
  // Counting assigned variables

  /** The variables 0..n-1 as a set. */
  function Below(n: nat): (r: set<int>)
    ensures forall v :: v in r <==> 0 <= v < n
  {
    if n == 0 then {} else Below(n - 1) + {n - 1}
  }

  /** A set of variables among 0..n-1 has at most n members, and exactly n
      when it holds all of them. */
  lemma {:induction false} CountBelow(s: set<int>, n: nat)
    requires forall v :: v in s ==> 0 <= v < n
    ensures |s| <= n
    ensures |s| == n <==> forall v :: 0 <= v < n ==> v in s
  {
    if n == 0 {
      var e: set<int> := {};
      assert s == e by {
        assert forall v :: v in s <==> v in e;
      }
    } else {
      var t := s - {n - 1};
      CountBelow(t, n - 1);
      if n - 1 in s {
        assert s == t + {n - 1} by {
          assert forall v :: v in s <==> v in t + {n - 1};
        }
      } else {
        assert s == t by {
          assert forall v :: v in s <==> v in t;
        }
      }
    }
  }

  /** len(assignment) == N holds exactly when every variable is assigned. */
  lemma AssignedCount(asg: map<int, int>, n: nat)
    requires forall v :: v in asg ==> 0 <= v < n
    ensures |asg| <= n
    ensures |asg| == n <==> forall v :: 0 <= v < n ==> v in asg
  {
    assert |asg| == |asg.Keys|;
    CountBelow(asg.Keys, n);
  }

  // ---------------------------------------------------------------------------
  // Domain lists

  /** list(range(K)): every colour once, in increasing order. */
  function AllColours(k: nat): (r: seq<int>)
    ensures |r| == k && forall i :: 0 <= i < k ==> r[i] == i
  {
    seq(k, i => i)
  }

  /** s with every occurrence of c taken out. */
  function Without(s: seq<int>, c: int): seq<int>
  {
    if s == [] then [] else (if s[0] == c then [] else [s[0]]) + Without(s[1..], c)
  }

  /** Without keeps exactly the entries other than c. */
  lemma {:induction false} WithoutMembers(s: seq<int>, c: int)
    ensures forall x :: x in Without(s, c) <==> x in s && x != c
  {
    if s != [] {
      WithoutMembers(s[1..], c);
      assert s == [s[0]] + s[1..];
    }
  }

  /** list.remove(c): drops the first occurrence of c. */
  function RemoveFirst(s: seq<int>, c: int): seq<int>
  {
    if s == [] then [] else if s[0] == c then s[1..] else [s[0]] + RemoveFirst(s[1..], c)
  }

  predicate NoDup(s: seq<int>)
  {
    forall i, j :: 0 <= i < j < |s| ==> s[i] != s[j]
  }

  lemma {:induction false} RemoveFirstSkips(p: seq<int>, c: int, q: seq<int>)
    requires c !in p
    ensures RemoveFirst(p + [c] + q, c) == p + q
  {
    if p == [] {
      assert p + [c] + q == [c] + q;
      assert ([c] + q)[1..] == q;
    } else {
      var s := p + [c] + q;
      assert s[0] == p[0] && s[0] != c;
      assert s[1..] == p[1..] + [c] + q;
      RemoveFirstSkips(p[1..], c, q);
      assert RemoveFirst(s, c) == [p[0]] + RemoveFirst(s[1..], c);
      assert p + q == [p[0]] + (p[1..] + q);
    }
  }

  lemma {:induction false} WithoutAppend(p: seq<int>, q: seq<int>, c: int)
    ensures Without(p + q, c) == Without(p, c) + Without(q, c)
  {
    if p == [] {
      assert p + q == q;
    } else {
      var s := p + q;
      var h := if p[0] == c then [] else [p[0]];
      assert s[0] == p[0] && s[1..] == p[1..] + q;
      assert Without(s, c) == h + Without(p[1..] + q, c);
      WithoutAppend(p[1..], q, c);
      assert Without(p, c) == h + Without(p[1..], c);
    }
  }

  lemma {:induction false} WithoutAbsent(s: seq<int>, c: int)
    requires c !in s
    ensures Without(s, c) == s
  {
    if s != [] {
      WithoutAbsent(s[1..], c);
      assert s == [s[0]] + s[1..];
    }
  }

  lemma {:induction false} WithoutNoDup(s: seq<int>, c: int)
    requires NoDup(s)
    ensures NoDup(Without(s, c))
  {
    if s != [] {
      assert NoDup(s[1..]) by {
        forall i, j | 0 <= i < j < |s[1..]| ensures s[1..][i] != s[1..][j] {
          assert s[1..][i] == s[i + 1] && s[1..][j] == s[j + 1];
        }
      }
      WithoutNoDup(s[1..], c);
      WithoutMembers(s[1..], c);
      assert s[0] !in s[1..];
    }
  }

  /** Taking c out of a list without repetitions drops at most one entry. */
  lemma {:induction false} WithoutNoDupLength(s: seq<int>, c: int)
    requires NoDup(s)
    ensures |Without(s, c)| >= |s| - 1
  {
    if s != [] {
      assert NoDup(s[1..]) by {
        forall i, j | 0 <= i < j < |s[1..]| ensures s[1..][i] != s[1..][j] {
          assert s[1..][i] == s[i + 1] && s[1..][j] == s[j + 1];
        }
      }
      if s[0] == c {
        assert c !in s[1..];
        WithoutAbsent(s[1..], c);
      } else {
        WithoutNoDupLength(s[1..], c);
      }
    }
  }

  lemma SliceAt(cur: seq<int>, t: nat)
    requires t < |cur|
    ensures cur[t..] == [cur[t]] + cur[t + 1..]
  {
    assert forall q :: 0 <= q < |cur[t..]| ==> cur[t..][q] == ([cur[t]] + cur[t + 1..])[q];
  }

  lemma WithoutStep(cur: seq<int>, t: nat, a: int)
    requires t < |cur|
    ensures Without(cur[..t + 1], a) == if cur[t] == a then Without(cur[..t], a) else Without(cur[..t], a) + [cur[t]]
  {
    var g := cur[t];
    WithoutAppend(cur[..t], [g], a);
    assert Without([g], a) == if g == a then [] else [g] by {
      assert [g][1..] == [];
    }
    assert cur[..t + 1] == cur[..t] + [g];
  }

  /** One step of the removal loop of forwardChecking over cur, where done
      is what the earlier steps kept: the step either removes the first
      occurrence of a, which is cur[t], or keeps cur[t]. */
  lemma PruneStep(cur: seq<int>, t: nat, a: int, done: seq<int>)
    requires t < |cur| && done == Without(cur[..t], a)
    ensures Without(cur[..t + 1], a) == if cur[t] == a then done else done + [cur[t]]
    ensures cur[t] == a ==> RemoveFirst(done + cur[t..], a) == done + cur[t + 1..]
    ensures cur[t] != a ==> done + cur[t..] == (done + [cur[t]]) + cur[t + 1..]
    ensures cur[t] == a && done + cur[t + 1..] == [] ==> a in cur && Without(cur, a) == []
  {
    SliceAt(cur, t);
    WithoutStep(cur, t, a);
    assert done + cur[t..] == done + [cur[t]] + cur[t + 1..];
    if cur[t] == a {
      WithoutMembers(cur[..t], a);
      RemoveFirstSkips(done, a, cur[t + 1..]);
      if done + cur[t + 1..] == [] {
        assert cur[..t + 1] == cur;
      }
    }
  }

  /** At the end of the walk over cur, done is cur without a, and it is not
      empty unless cur was. */
  lemma PruneEnd(cur: seq<int>, a: int, done: seq<int>)
    requires done == Without(cur[..|cur|], a)
    requires |cur| > 0 ==> done != []
    ensures done == Without(cur, a)
    ensures !(a in cur && Without(cur, a) == [])
  {
    assert cur[..|cur|] == cur;
  }

  /** The domains of the variables 0..n-1, holding colours in [0, k) only. */
  ghost predicate DomainsInRange(n: nat, k: nat, doms: map<int, seq<int>>)
  {
    && (forall v :: v in doms <==> 0 <= v < n)
    && (forall v, c :: v in doms && c in doms[v] ==> 0 <= c < k)
  }

  /** v is unassigned and its domain is no longer than any other unassigned
      variable's: what mostConstrainedVariable picks. */
  ghost predicate Fewest(n: nat, asg: map<int, int>, doms: map<int, seq<int>>, v: int)
  {
    v in doms && forall u :: 0 <= u < n && u !in asg ==> u in doms && |doms[v]| <= |doms[u]|
  }

  /** Each domain of after holds only colours of the same domain in before. */
  ghost predicate Shrunk(before: map<int, seq<int>>, after: map<int, seq<int>>)
  {
    && (forall v :: v in after <==> v in before)
    && (forall v, c :: v in after && c in after[v] ==> v in before && c in before[v])
  }

  lemma ShrunkTrans(a: map<int, seq<int>>, b: map<int, seq<int>>, c: map<int, seq<int>>)
    requires Shrunk(a, b) && Shrunk(b, c)
    ensures Shrunk(a, c)
  {
  }

  // ---------------------------------------------------------------------------
  // Exact domains: the invariant that makes DFS-B++ complete

  /** Constraint e ties u to an assigned variable whose colour is c. */
  predicate BlocksAt(e: Edge, asg: map<int, int>, u: int, c: int)
  {
    (e.0 == u && e.1 in asg && asg[e.1] == c) || (e.1 == u && e.0 in asg && asg[e.0] == c)
  }

  /** Some assigned neighbour of u has colour c. */
  predicate Blocked(edges: seq<Edge>, asg: map<int, int>, u: int, c: int)
  {
    exists i :: 0 <= i < |edges| && BlocksAt(edges[i], asg, u, c)
  }

  /** The domain of every unassigned variable holds, once each, exactly the
      colours that no assigned neighbour has taken. The initial domains satisfy
      it, and forward checking from a fresh assignment preserves it. */
  ghost predicate DomainsExact(n: nat, k: nat, edges: seq<Edge>, asg: map<int, int>, doms: map<int, seq<int>>)
  {
    forall u :: 0 <= u < n && u !in asg ==>
      && u in doms
      && NoDup(doms[u])
      && (forall c :: c in doms[u] <==> 0 <= c < k && !Blocked(edges, asg, u, c))
  }

  // ---------------------------------------------------------------------------
  // Forward checking, specified

  /** The variable that forward checking from xi prunes through constraint e:
      e's other endpoint, when that one is unassigned. */
  function Reached(e: Edge, xi: int, asg: map<int, int>): Option<int>
  {
    if e.0 == xi && e.1 !in asg then Some(e.1)
    else if e.1 == xi && e.0 !in asg then Some(e.0)
    else None
  }

  ghost predicate ReachedBefore(edges: seq<Edge>, m: nat, xi: int, asg: map<int, int>, u: int)
    requires m <= |edges|
  {
    exists j :: 0 <= j < m && Reached(edges[j], xi, asg) == Some(u)
  }

  /** Constraint m-1 reaches u, or an earlier one does. */
  lemma ReachedBeforeStep(edges: seq<Edge>, m: nat, xi: int, asg: map<int, int>, u: int)
    requires 0 < m <= |edges|
    ensures ReachedBefore(edges, m, xi, asg, u) <==>
      ReachedBefore(edges, m - 1, xi, asg, u) || Reached(edges[m - 1], xi, asg) == Some(u)
  {
    if ReachedBefore(edges, m, xi, asg, u) && Reached(edges[m - 1], xi, asg) != Some(u) {
      var j :| 0 <= j < m && Reached(edges[j], xi, asg) == Some(u);
      assert j != m - 1;
    }
    if ReachedBefore(edges, m - 1, xi, asg, u) {
      var j :| 0 <= j < m - 1 && Reached(edges[j], xi, asg) == Some(u);
      assert 0 <= j < m;
    }
  }

  /** The domains once forward checking has walked edges[..m]: each constraint
      that reaches an unassigned variable takes colour a out of its domain. */
  ghost function PrunedThrough(edges: seq<Edge>, xi: int, a: int, asg: map<int, int>,
                               doms: map<int, seq<int>>, m: nat): (r: map<int, seq<int>>)
    requires m <= |edges|
    ensures forall u :: u in r <==> u in doms
  {
    if m == 0 then doms
    else
      var p := PrunedThrough(edges, xi, a, asg, doms, m - 1);
      var r := Reached(edges[m - 1], xi, asg);
      if r.Some? && r.value in doms then p[r.value := Without(doms[r.value], a)] else p
  }

  /** After edges[..m], a is gone from exactly the variables some constraint
      of edges[..m] reaches, and nothing else has changed. */
  lemma {:induction false} PrunedAt(edges: seq<Edge>, xi: int, a: int, asg: map<int, int>, doms: map<int, seq<int>>, m: nat)
    requires m <= |edges|
    ensures var p := PrunedThrough(edges, xi, a, asg, doms, m);
      && (forall u :: u in p <==> u in doms)
      && (forall u :: u in doms ==> p[u] == if ReachedBefore(edges, m, xi, asg, u) then Without(doms[u], a) else doms[u])
  {
    if m > 0 {
      PrunedAt(edges, xi, a, asg, doms, m - 1);
      var r := Reached(edges[m - 1], xi, asg);
      var prev := PrunedThrough(edges, xi, a, asg, doms, m - 1);
      var p := PrunedThrough(edges, xi, a, asg, doms, m);
      forall u | u in doms
        ensures p[u] == if ReachedBefore(edges, m, xi, asg, u) then Without(doms[u], a) else doms[u]
      {
        ReachedBeforeStep(edges, m, xi, asg, u);
        if r != Some(u) {
          assert p[u] == prev[u];
        }
      }
    }
  }

  /** Taking a out of the domain of the variable that constraint i reaches
      leaves that domain empty. */
  ghost predicate Empties(edges: seq<Edge>, i: nat, xi: int, a: int, asg: map<int, int>, doms: map<int, seq<int>>)
    requires i < |edges|
  {
    var r := Reached(edges[i], xi, asg);
    r.Some? && r.value in doms && a in doms[r.value] && Without(doms[r.value], a) == []
  }

  /** No constraint empties a domain: the forward check of xi := a runs to
      the end. */
  ghost predicate NoEmpties(edges: seq<Edge>, xi: int, a: int, asg: map<int, int>, doms: map<int, seq<int>>)
  {
    forall i :: 0 <= i < |edges| ==> !Empties(edges, i, xi, a, asg, doms)
  }

  /** after is what a forward check of xi := a that emptied a domain leaves:
      the domains pruned up to and including the first constraint that
      empties one. */
  ghost predicate DeadEndPrune(edges: seq<Edge>, xi: int, a: int, asg: map<int, int>,
                               before: map<int, seq<int>>, after: map<int, seq<int>>)
  {
    exists i :: 0 <= i < |edges| && Empties(edges, i, xi, a, asg, before) &&
      (forall j :: 0 <= j < i ==> !Empties(edges, j, xi, a, asg, before)) &&
      after == PrunedThrough(edges, xi, a, asg, before, i + 1)
  }

  /** The domains a dead-end forward check leaves are determined by the
      entry domains: there is only one first constraint that empties one. */
  lemma DeadEndPruneUnique(edges: seq<Edge>, xi: int, a: int, asg: map<int, int>,
                           before: map<int, seq<int>>, after1: map<int, seq<int>>, after2: map<int, seq<int>>)
    requires DeadEndPrune(edges, xi, a, asg, before, after1)
    requires DeadEndPrune(edges, xi, a, asg, before, after2)
    ensures after1 == after2
  {
    var i1 :| 0 <= i1 < |edges| && Empties(edges, i1, xi, a, asg, before) &&
      (forall j :: 0 <= j < i1 ==> !Empties(edges, j, xi, a, asg, before)) &&
      after1 == PrunedThrough(edges, xi, a, asg, before, i1 + 1);
    var i2 :| 0 <= i2 < |edges| && Empties(edges, i2, xi, a, asg, before) &&
      (forall j :: 0 <= j < i2 ==> !Empties(edges, j, xi, a, asg, before)) &&
      after2 == PrunedThrough(edges, xi, a, asg, before, i2 + 1);
    assert !(i1 < i2) && !(i2 < i1);
  }

  /** A dead-end prune always changes the domains: the domain that empties
      held a before. */
  lemma DeadEndChanges(edges: seq<Edge>, xi: int, a: int, asg: map<int, int>,
                       before: map<int, seq<int>>, after: map<int, seq<int>>)
    requires DeadEndPrune(edges, xi, a, asg, before, after)
    ensures after != before
  {
    var i :| 0 <= i < |edges| && Empties(edges, i, xi, a, asg, before) &&
      (forall j :: 0 <= j < i ==> !Empties(edges, j, xi, a, asg, before)) &&
      after == PrunedThrough(edges, xi, a, asg, before, i + 1);
    var u := Reached(edges[i], xi, asg).value;
    PrunedAt(edges, xi, a, asg, before, i + 1);
    assert ReachedBefore(edges, i + 1, xi, asg, u);
    assert after[u] == [] && a in before[u];
  }

  /** Forward checking stopped by the first constraint i that empties a
      domain leaves the dead-end prune, whose domains still lie in range and
      have only lost colours. */
  lemma DeadEndAt(n: nat, k: nat, edges: seq<Edge>, xi: int, a: int, asg: map<int, int>,
                  doms: map<int, seq<int>>, i: nat, after: map<int, seq<int>>)
    requires i < |edges| && DomainsInRange(n, k, doms)
    requires Empties(edges, i, xi, a, asg, doms)
    requires forall j :: 0 <= j < i ==> !Empties(edges, j, xi, a, asg, doms)
    requires after == PrunedThrough(edges, xi, a, asg, doms, i + 1)
    ensures DeadEndPrune(edges, xi, a, asg, doms, after)
    ensures Shrunk(doms, after) && DomainsInRange(n, k, after)
  {
    PrunedInRange(n, k, edges, xi, a, asg, doms, i + 1);
  }

  /** Forward checking only ever removes colours. */
  lemma PrunedInRange(n: nat, k: nat, edges: seq<Edge>, xi: int, a: int, asg: map<int, int>, doms: map<int, seq<int>>, m: nat)
    requires m <= |edges|
    requires DomainsInRange(n, k, doms)
    ensures Shrunk(doms, PrunedThrough(edges, xi, a, asg, doms, m))
    ensures DomainsInRange(n, k, PrunedThrough(edges, xi, a, asg, doms, m))
  {
    PrunedAt(edges, xi, a, asg, doms, m);
    forall u | u in doms {
      WithoutMembers(doms[u], a);
    }
  }

  /** With xi assigned and u not, constraint e reaches u exactly when it ties u
      to xi. */
  lemma ReachedIffAdjacent(edges: seq<Edge>, xi: int, asg: map<int, int>, u: int)
    requires xi in asg && u !in asg
    ensures ReachedBefore(edges, |edges|, xi, asg, u) <==> Adjacent(edges, xi, u)
  {
    if Adjacent(edges, xi, u) {
      var i :| 0 <= i < |edges| && Joins(edges[i], xi, u);
      assert Reached(edges[i], xi, asg) == Some(u);
    }
    if ReachedBefore(edges, |edges|, xi, asg, u) {
      var i :| 0 <= i < |edges| && Reached(edges[i], xi, asg) == Some(u);
      assert Joins(edges[i], xi, u);
    }
  }

  /** One step of the constraint walk of forwardChecking, at constraint i,
      when no earlier step has emptied a domain: if constraint i reaches an
      unassigned variable u, a is pruned from u's domain, and the step empties
      that domain exactly when Empties names it; otherwise nothing changes.
      Either way the domains move on to those after edges[..i+1]. */
  lemma PruneOutcome(edges: seq<Edge>, xi: int, a: int, asg: map<int, int>, doms: map<int, seq<int>>, i: nat,
                     before: map<int, seq<int>>, after: map<int, seq<int>>, emptied: bool)
    requires i < |edges|
    requires Reached(edges[i], xi, asg).Some? ==> Reached(edges[i], xi, asg).value in doms
    requires before == PrunedThrough(edges, xi, a, asg, doms, i)
    requires forall j :: 0 <= j < i ==> !Empties(edges, j, xi, a, asg, doms)
    requires var r := Reached(edges[i], xi, asg);
      && (r.None? ==> after == before && !emptied)
      && (r.Some? ==> after == before[r.value := Without(before[r.value], a)])
      && (r.Some? ==> (emptied <==> a in before[r.value] && Without(before[r.value], a) == []))
    ensures after == PrunedThrough(edges, xi, a, asg, doms, i + 1)
    ensures emptied ==> Empties(edges, i, xi, a, asg, doms)
    ensures !emptied ==> forall j :: 0 <= j < i + 1 ==> !Empties(edges, j, xi, a, asg, doms)
  {
    PrunedAt(edges, xi, a, asg, doms, i);
    var r := Reached(edges[i], xi, asg);
    if r.Some? {
      var u := r.value;
      var entry := doms[u];
      WithoutMembers(entry, a);
      WithoutAbsent(Without(entry, a), a);
      if ReachedBefore(edges, i, xi, asg, u) {
        var j :| 0 <= j < i && Reached(edges[j], xi, asg) == Some(u);
        assert before[u] == Without(entry, a);
        assert !Empties(edges, j, xi, a, asg, doms);
      } else {
        assert before[u] == entry;
      }
    }
    assert emptied <==> Empties(edges, i, xi, a, asg, doms);
    if !emptied {
      forall j | 0 <= j < i + 1 ensures !Empties(edges, j, xi, a, asg, doms) {
        if j < i {
          assert !Empties(edges, j, xi, a, asg, doms);
        }
      }
    }
  }

  /** What forwardChecking does when no domain empties: a is gone from the
      domain of every unassigned neighbour of xi, and every other domain,
      those of assigned variables included, is untouched. */
  lemma PrunedEffect(edges: seq<Edge>, xi: int, a: int, asg: map<int, int>, doms: map<int, seq<int>>, u: int)
    requires xi in asg && u in doms
    ensures var p := PrunedThrough(edges, xi, a, asg, doms, |edges|);
      && (u !in asg && Adjacent(edges, xi, u) ==> forall x :: x in p[u] <==> x in doms[u] && x != a)
      && (u in asg || !Adjacent(edges, xi, u) ==> p[u] == doms[u])
  {
    PrunedAt(edges, xi, a, asg, doms, |edges|);
    if u !in asg {
      ReachedIffAdjacent(edges, xi, asg, u);
      WithoutMembers(doms[u], a);
    } else {
      forall j | 0 <= j < |edges| ensures Reached(edges[j], xi, asg) != Some(u) {
      }
    }
  }

  // ---------------------------------------------------------------------------
  // Lemmas behind DFS-B++ completeness

  /** A solution that extends asg gives every unassigned variable a colour its
      exact domain still holds. */
  lemma SolutionInDomain(n: nat, k: nat, edges: seq<Edge>, asg: map<int, int>, doms: map<int, seq<int>>,
                         sol: map<int, int>, u: int)
    requires EdgesInRange(n, edges)
    requires DomainsExact(n, k, edges, asg, doms)
    requires IsSolution(n, k, edges, sol) && Extends(sol, asg)
    requires 0 <= u < n && u !in asg
    ensures sol[u] in doms[u]
  {
    forall i | 0 <= i < |edges| ensures !BlocksAt(edges[i], asg, u, sol[u]) {
      var e := edges[i];
      assert e.0 in sol && e.1 in sol;
      assert sol[e.0] != sol[e.1];
    }
  }

  /** If some solution extends asg, one of the values to try for v leads to a
      solvable extension. */
  lemma SolvableSomeValue(n: nat, k: nat, edges: seq<Edge>, asg: map<int, int>, doms: map<int, seq<int>>,
                          v: int, values: seq<int>)
    requires EdgesInRange(n, edges)
    requires DomainsExact(n, k, edges, asg, doms)
    requires 0 <= v < n && v !in asg
    requires multiset(values) == multiset(doms[v])
    ensures Solvable(n, k, edges, asg) ==>
      exists j :: 0 <= j < |values| && Solvable(n, k, edges, asg[v := values[j]])
  {
    if Solvable(n, k, edges, asg) {
      var sol :| IsSolution(n, k, edges, sol) && Extends(sol, asg);
      SolutionInDomain(n, k, edges, asg, doms, sol, v);
      assert sol[v] in multiset(values);
      var j :| 0 <= j < |values| && values[j] == sol[v];
      assert Extends(sol, asg[v := values[j]]);
    }
  }

  /** Some solution extends asg with v coloured c. */
  ghost predicate SolvableWith(n: nat, k: nat, edges: seq<Edge>, asg: map<int, int>, v: int, c: int)
  {
    Solvable(n, k, edges, asg[v := c])
  }

  /** If some solution extends asg, some colour for v leads to a solvable
      extension. */
  lemma SolvableSomeColour(n: nat, k: nat, edges: seq<Edge>, asg: map<int, int>, v: int)
    requires 0 <= v < n
    ensures Solvable(n, k, edges, asg) ==> exists j :: 0 <= j < k && SolvableWith(n, k, edges, asg, v, j)
  {
    if Solvable(n, k, edges, asg) {
      var sol :| IsSolution(n, k, edges, sol) && Extends(sol, asg);
      assert Extends(sol, asg[v := sol[v]]);
      assert SolvableWith(n, k, edges, asg, v, sol[v]);
    }
  }

  /** A value the consistency check rejects leads nowhere. */
  lemma SolvableConsistent(n: nat, k: nat, edges: seq<Edge>, asg: map<int, int>, v: int, c: int)
    requires Proper(edges, asg)
    requires v !in asg
    ensures Solvable(n, k, edges, asg[v := c]) ==> Consistent(edges, v, c, asg)
  {
    if Solvable(n, k, edges, asg[v := c]) {
      var sol :| IsSolution(n, k, edges, sol) && Extends(sol, asg[v := c]);
      ProperRestrict(edges, sol, asg[v := c]);
      ConsistentIffProperExtension(edges, v, c, asg);
    }
  }

  /** A value whose forward check empties a neighbour's exact domain leads
      nowhere. */
  lemma SolvableNoEmpties(n: nat, k: nat, edges: seq<Edge>, asg: map<int, int>, doms: map<int, seq<int>>,
                          v: int, c: int, ext: map<int, int>)
    requires EdgesInRange(n, edges)
    requires DomainsExact(n, k, edges, asg, doms)
    requires 0 <= v < n && v !in asg && ext == asg[v := c]
    ensures Solvable(n, k, edges, ext) ==>
      forall i :: 0 <= i < |edges| ==> !Empties(edges, i, v, c, ext, doms)
  {
    if Solvable(n, k, edges, ext) {
      var sol :| IsSolution(n, k, edges, sol) && Extends(sol, ext);
      assert Extends(sol, asg) by {
        forall x | x in asg ensures x in sol && sol[x] == asg[x] {
          assert x in ext && ext[x] == asg[x];
        }
      }
      forall i | 0 <= i < |edges| ensures !Empties(edges, i, v, c, ext, doms) {
        var r := Reached(edges[i], v, ext);
        if r.Some? {
          var w := r.value;
          assert w !in asg && w != v && 0 <= w < n;
          SolutionInDomain(n, k, edges, asg, doms, sol, w);
          var e := edges[i];
          assert e.0 in sol && e.1 in sol && sol[e.0] != sol[e.1];
          assert sol[v] == c;
          WithoutMembers(doms[w], c);
          assert sol[w] in Without(doms[w], c);
        }
      }
    }
  }

  /** A forward check can only empty an exact domain when the chosen variable
      (one with the smallest domain) has at most one value left. So after such
      a failure there is no later value of that variable that could see the
      domains the failure left half pruned. */
  lemma EmptiesNeedsSingleton(n: nat, k: nat, edges: seq<Edge>, asg: map<int, int>, doms: map<int, seq<int>>,
                              v: int, c: int, ext: map<int, int>, i: nat)
    requires EdgesInRange(n, edges)
    requires DomainsExact(n, k, edges, asg, doms)
    requires 0 <= v < n && v !in asg && v in doms && ext == asg[v := c]
    requires Fewest(n, asg, doms, v)
    requires i < |edges| && Empties(edges, i, v, c, ext, doms)
    ensures |doms[v]| <= 1
  {
    var w := Reached(edges[i], v, ext).value;
    assert w !in asg && 0 <= w < n;
    WithoutNoDupLength(doms[w], c);
  }

  /** A forward check that empties a domain, from exact domains in which v's
      is the fewest: v := c leads nowhere, and v had at most one value. */
  lemma DeadEnd(n: nat, k: nat, edges: seq<Edge>, asg: map<int, int>, doms: map<int, seq<int>>,
                v: int, c: int, ext: map<int, int>, after: map<int, seq<int>>)
    requires EdgesInRange(n, edges)
    requires DomainsExact(n, k, edges, asg, doms)
    requires 0 <= v < n && v !in asg && ext == asg[v := c]
    requires Fewest(n, asg, doms, v)
    requires DeadEndPrune(edges, v, c, ext, doms, after)
    ensures !SolvableWith(n, k, edges, asg, v, c) && |doms[v]| <= 1
  {
    var i :| 0 <= i < |edges| && Empties(edges, i, v, c, ext, doms);
    SolvableNoEmpties(n, k, edges, asg, doms, v, c, ext);
    EmptiesNeedsSingleton(n, k, edges, asg, doms, v, c, ext, i);
  }

  /** Blocked colours after assigning v := c: the old ones, and c for the
      neighbours of v. */
  lemma BlockedAfterAssign(edges: seq<Edge>, asg: map<int, int>, v: int, c: int, u: int, x: int)
    requires u != v && v !in asg
    ensures Blocked(edges, asg[v := c], u, x) <==> Blocked(edges, asg, u, x) || (x == c && Adjacent(edges, v, u))
  {
    var ext := asg[v := c];
    if Blocked(edges, ext, u, x) {
      var i :| 0 <= i < |edges| && BlocksAt(edges[i], ext, u, x);
      var e := edges[i];
      if (e.0 == u && e.1 == v) || (e.1 == u && e.0 == v) {
        assert Joins(e, v, u);
      } else {
        assert BlocksAt(e, asg, u, x);
      }
    }
    if Blocked(edges, asg, u, x) {
      var i :| 0 <= i < |edges| && BlocksAt(edges[i], asg, u, x);
      assert BlocksAt(edges[i], ext, u, x);
    }
    if x == c && Adjacent(edges, v, u) {
      var i :| 0 <= i < |edges| && Joins(edges[i], v, u);
      assert BlocksAt(edges[i], ext, u, x);
    }
  }

  /** Forward checking from v := c over exact domains gives exact domains for
      the extended assignment. */
  lemma PrunedExact(n: nat, k: nat, edges: seq<Edge>, asg: map<int, int>, doms: map<int, seq<int>>, v: int, c: int)
    requires DomainsExact(n, k, edges, asg, doms)
    requires v !in asg
    ensures DomainsExact(n, k, edges, asg[v := c], PrunedThrough(edges, v, c, asg[v := c], doms, |edges|))
  {
    var ext := asg[v := c];
    var p := PrunedThrough(edges, v, c, ext, doms, |edges|);
    PrunedAt(edges, v, c, ext, doms, |edges|);
    forall u | 0 <= u < n && u !in ext
      ensures u in p && NoDup(p[u]) && forall x :: x in p[u] <==> 0 <= x < k && !Blocked(edges, ext, u, x)
    {
      ReachedIffAdjacent(edges, v, ext, u);
      forall x ensures Blocked(edges, ext, u, x) <==> Blocked(edges, asg, u, x) || (x == c && Adjacent(edges, v, u)) {
        BlockedAfterAssign(edges, asg, v, c, u, x);
      }
      if Adjacent(edges, v, u) {
        WithoutNoDup(doms[u], c);
        WithoutMembers(doms[u], c);
      }
    }
  }

  // ---------------------------------------------------------------------------
  // Lexicographic order of DFS-B's answers

  /** Deleting a key just added gives the dictionary back (the `del
      assignment[var]` that undoes `assignment[var] = val`). */
  lemma UndoAssign(m: map<int, int>, x: int, y: int)
    requires x !in m
    ensures m[x := y] - {x} == m
  {
    var r := m[x := y] - {x};
    forall u ensures u in r <==> u in m {
    }
    forall u | u in r ensures r[u] == m[u] {
    }
  }

  /** Colours 0..c for v all lead nowhere once c does too. */
  lemma ColoursFailed(n: nat, k: nat, edges: seq<Edge>, asg: map<int, int>, v: int, c: int)
    requires forall j :: 0 <= j < c ==> !SolvableWith(n, k, edges, asg, v, j)
    requires !SolvableWith(n, k, edges, asg, v, c)
    ensures forall j :: 0 <= j < c + 1 ==> !SolvableWith(n, k, edges, asg, v, j)
  {
    forall j | 0 <= j < c + 1 ensures !SolvableWith(n, k, edges, asg, v, j) {
      if j < c {
      }
    }
  }

  /** The values values[0..i] for v all lead nowhere once values[i] does too. */
  lemma ValuesFailed(n: nat, k: nat, edges: seq<Edge>, asg: map<int, int>, v: int, values: seq<int>, i: nat)
    requires i < |values|
    requires forall j :: 0 <= j < i ==> !SolvableWith(n, k, edges, asg, v, values[j])
    requires !SolvableWith(n, k, edges, asg, v, values[i])
    ensures forall j :: 0 <= j < i + 1 ==> !SolvableWith(n, k, edges, asg, v, values[j])
  {
    forall j | 0 <= j < i + 1 ensures !SolvableWith(n, k, edges, asg, v, values[j]) {
      if j < i {
      }
    }
  }

  /** A complete proper assignment is a solution and comes first among the
      solutions extending it (there is only itself). */
  lemma CompleteIsLeast(n: nat, k: nat, edges: seq<Edge>, asg: map<int, int>)
    requires forall u :: u in asg <==> 0 <= u < n
    ensures forall sol :: IsSolution(n, k, edges, sol) && Extends(sol, asg) ==> LexLeq(n, asg, sol)
  {
    forall sol | IsSolution(n, k, edges, sol) && Extends(sol, asg)
      ensures LexLeq(n, asg, sol)
    {
      assert forall d :: 0 <= d < n ==> asg[d] == sol[d];
    }
  }

  /** Every colour below c for v leads nowhere and r comes first among the
      solutions extending ext = asg[v := c]: then r comes first among all
      solutions extending asg. */
  lemma LexAfterFailures(n: nat, k: nat, edges: seq<Edge>, asg: map<int, int>, v: int, c: int,
                         ext: map<int, int>, r: map<int, int>)
    requires forall u :: u in asg <==> 0 <= u < v
    requires 0 <= v < n && ext == asg[v := c]
    requires IsSolution(n, k, edges, r) && Extends(r, ext)
    requires forall j :: 0 <= j < c ==> !SolvableWith(n, k, edges, asg, v, j)
    requires forall sol :: IsSolution(n, k, edges, sol) && Extends(sol, ext) ==> LexLeq(n, r, sol)
    ensures forall sol :: IsSolution(n, k, edges, sol) && Extends(sol, asg) ==> LexLeq(n, r, sol)
  {
    forall sol | IsSolution(n, k, edges, sol) && Extends(sol, asg)
      ensures LexLeq(n, r, sol)
    {
      assert Extends(sol, asg[v := sol[v]]);
      assert SolvableWith(n, k, edges, asg, v, sol[v]);
      LexFromChild(n, k, edges, asg, v, c, r, sol);
    }
  }

  /** If r is the least solution extending asg[v := c], and every colour below
      c for v leads nowhere, then r precedes every solution extending asg. */
  lemma LexFromChild(n: nat, k: nat, edges: seq<Edge>, asg: map<int, int>, v: int, c: int,
                     r: map<int, int>, sol: map<int, int>)
    requires IsSolution(n, k, edges, r) && IsSolution(n, k, edges, sol)
    requires forall u :: u in asg <==> 0 <= u < v
    requires 0 <= v < n
    requires Extends(r, asg[v := c]) && Extends(sol, asg) && sol[v] >= c
    requires Extends(sol, asg[v := c]) ==> LexLeq(n, r, sol)
    ensures LexLeq(n, r, sol)
  {
    if sol[v] != c {
      assert r[v] == c;
      forall d | 0 <= d < n && r[d] != sol[d] && (forall j :: 0 <= j < d ==> r[j] == sol[j])
        ensures r[d] < sol[d]
      {
        assert r[v] != sol[v];
        assert d == v;
      }
    } else {
      assert Extends(sol, asg[v := c]);
    }
  }

  // ---------------------------------------------------------------------------
  // The problem object

  /** The state the search functions of dfsb.py share: the constraint list and
      the neighbour sets, fixed once read, and the assignment and domain
      dictionaries, which the searches update in place. */
  class Csp {
    const n: nat
    const k: nat
    const edges: seq<Edge>
    const neighbors: map<int, set<int>>
    var assignment: map<int, int>
    var domains: map<int, seq<int>>

    /** The problem as read: constraints in range and the neighbour sets
        built from them. These fields never change. */
    ghost predicate Problem()
    {
      && EdgesInRange(n, edges)
      && IsNeighborSets(n, edges, neighbors)
      && (forall a, b :: a in neighbors && b in neighbors[a] ==> 0 <= b < n)
    }

    ghost predicate Valid()
      reads this
    {
      && Problem()
      && DomainsInRange(n, k, domains)
      && (forall v :: v in assignment ==> 0 <= v < n && 0 <= assignment[v] < k)
    }

    /** Reads the problem: builds the neighbour sets and gives every variable
        the domain list(range(K)); nothing is assigned yet. */
    constructor (n: nat, k: nat, edges: seq<Edge>)
      requires EdgesInRange(n, edges)
      ensures Valid()
      ensures this.n == n && this.k == k && this.edges == edges
      ensures assignment == map[]
      ensures forall v :: v in domains ==> domains[v] == AllColours(k)
      ensures DomainsExact(n, k, edges, assignment, domains)
    {
      this.n, this.k, this.edges := n, k, edges;
      var nb := BuildNeighborSets(n, edges);
      var doms: map<int, seq<int>> := map[];
      var i := 0;
      while i < n
        invariant 0 <= i <= n
        invariant forall v :: v in doms <==> 0 <= v < i
        invariant forall v :: v in doms ==> doms[v] == AllColours(k)
      {
        doms := doms[i := AllColours(k)];
        i := i + 1;
      }
      this.neighbors := nb;
      assignment := map[];
      domains := doms;
      new;
      forall u | 0 <= u < n
        ensures NoDup(domains[u]) && forall c :: c in domains[u] <==> 0 <= c < k && !Blocked(edges, assignment, u, c)
      {
        forall c | c in domains[u] ensures 0 <= c < k {
          var i :| 0 <= i < k && domains[u][i] == c;
        }
        forall c | 0 <= c < k ensures c in domains[u] {
          assert domains[u][c] == c;
        }
      }
    }

    /** The inner loop of forwardChecking: walks a copy of the domain of xj,
        removes one occurrence of a from the live domain for each a it meets,
        and reports an emptied domain at once. Either way the domain ends
        without a. */
    method PruneColour(xj: int, a: int) returns (emptied: bool)
      requires xj in domains
      modifies this`domains
      ensures emptied <==> a in old(domains[xj]) && Without(old(domains[xj]), a) == []
      ensures domains == old(domains)[xj := Without(old(domains[xj]), a)]
    {
      var cur := domains[xj];
      var live := cur;
      ghost var done: seq<int> := [];
      var t := 0;
      assert done + cur[0..] == cur;
      while t < |cur|
        invariant 0 <= t <= |cur|
        invariant done == Without(cur[..t], a)
        invariant live == done + cur[t..]
        invariant domains == old(domains)[xj := live]
        invariant t > 0 ==> live != []
      {
        var g := cur[t];
        PruneStep(cur, t, a, done);
        if g == a {
          live := RemoveFirst(live, g);
          domains := domains[xj := live];
          if |live| == 0 {
            return true;
          }
        } else {
          done := done + [g];
        }
        t := t + 1;
      }
      assert live == done;
      PruneEnd(cur, a, done);
      return false;
    }

    /** One pass of forwardChecking's constraint loop, at constraint i: prunes
        a from the variable the constraint reaches from xi, if any, and says
        whether that emptied its domain. */
    method PruneEdge(xi: int, a: int, i: nat, ghost entry: map<int, seq<int>>) returns (emptied: bool)
      requires Problem() && DomainsInRange(n, k, entry) && i < |edges|
      requires forall j :: 0 <= j < i ==> !Empties(edges, j, xi, a, assignment, entry)
      requires domains == PrunedThrough(edges, xi, a, assignment, entry, i)
      modifies this`domains
      ensures domains == PrunedThrough(edges, xi, a, assignment, entry, i + 1)
      ensures emptied ==> Empties(edges, i, xi, a, assignment, entry)
      ensures !emptied ==> forall j :: 0 <= j < i + 1 ==> !Empties(edges, j, xi, a, assignment, entry)
    {
      var (x1, x2) := edges[i];
      var xj: Option<int> := None;
      if x1 == xi && x2 !in assignment {
        xj := Some(x2);
      } else if x2 == xi && x1 !in assignment {
        xj := Some(x1);
      }
      assert xj == Reached(edges[i], xi, assignment);
      ghost var before := domains;
      emptied := false;
      if xj.Some? {
        emptied := PruneColour(xj.value, a);
      }
      PruneOutcome(edges, xi, a, assignment, entry, i, before, domains, emptied);
    }

    /** forwardChecking(xi, a): walks the constraints in order and prunes a
        from the unassigned variable each one reaches from xi. On a dead end it
        answers None at once, leaving the domains pruned up to and including
        the constraint that emptied one; otherwise it answers the domains as
        they were on entry. */
    method ForwardCheck(xi: int, a: int) returns (snapshot: Option<map<int, seq<int>>>)
      requires Valid()
      requires xi in assignment
      modifies this`domains
      ensures Valid()
      ensures Shrunk(old(domains), domains)
      ensures snapshot.Some? <==> forall i :: 0 <= i < |edges| ==> !Empties(edges, i, xi, a, assignment, old(domains))
      ensures snapshot.Some? ==>
        snapshot.value == old(domains) && domains == PrunedThrough(edges, xi, a, assignment, old(domains), |edges|)
      ensures snapshot.None? ==> DeadEndPrune(edges, xi, a, assignment, old(domains), domains)
    {
      var copyOfDomains := domains;
      ghost var entry := domains;
      var i := 0;
      while i < |edges|
        invariant 0 <= i <= |edges|
        invariant forall j :: 0 <= j < i ==> !Empties(edges, j, xi, a, assignment, entry)
        invariant domains == PrunedThrough(edges, xi, a, assignment, entry, i)
      {
        var emptied := PruneEdge(xi, a, i, entry);
        if emptied {
          DeadEndAt(n, k, edges, xi, a, assignment, entry, i, domains);
          return None;
        }
        i := i + 1;
      }
      PrunedInRange(n, k, edges, xi, a, assignment, entry, |edges|);
      return Some(copyOfDomains);
    }

    /** dfs_backtrack: assigns the variables in index order, trying the
        colours 0..K-1 in turn for the next one and undoing the assignment
        when the deeper search fails. It answers true with a solution that
        extends the entry assignment and comes first in lexicographic order
        among all such solutions, or false with the assignment as it was,
        exactly when no solution extends it. */
    method Backtrack() returns (found: bool)
      requires Valid()
      requires forall u :: u in assignment <==> 0 <= u < |assignment|
      requires Proper(edges, assignment)
      modifies this`assignment
      decreases n - |assignment|
      ensures Valid()
      ensures found ==> IsSolution(n, k, edges, assignment) && Extends(assignment, old(assignment))
      ensures found ==> forall sol :: IsSolution(n, k, edges, sol) && Extends(sol, old(assignment)) ==>
        LexLeq(n, assignment, sol)
      ensures !found ==> assignment == old(assignment) && !Solvable(n, k, edges, old(assignment))
    {
      AssignedCount(assignment, n);
      if |assignment| == n {
        CompleteIsLeast(n, k, edges, assignment);
        return true;
      }
      var v := |assignment|;
      ghost var asg0 := assignment;
      var c := 0;
      while c < k
        invariant 0 <= c <= k
        invariant Valid() && assignment == asg0
        invariant forall j :: 0 <= j < c ==> !SolvableWith(n, k, edges, asg0, v, j)
      {
        var ok := IsConsistent(edges, v, c, assignment);
        SolvableConsistent(n, k, edges, asg0, v, c);
        if ok {
          ConsistentIffProperExtension(edges, v, c, asg0);
          assignment := assignment[v := c];
          found := Backtrack();
          if found {
            LexAfterFailures(n, k, edges, asg0, v, c, asg0[v := c], assignment);
            return;
          }
          UndoAssign(asg0, v, c);
          assignment := assignment - {v};
        }
        ColoursFailed(n, k, edges, asg0, v, c);
        c := c + 1;
      }
      SolvableSomeColour(n, k, edges, asg0, v);
      return false;
    }

    /** dfs_backtrack_plus_plus: picks the most constrained unassigned
        variable and tries its colours in least-constraining order, one turn
        of TryValue each. A success is a solution extending the entry
        assignment; a failure leaves the assignment as it was and, when the
        entry domains were exact, means that no solution extends it. The
        domains only ever shrink. */
    method BacktrackPlus() returns (found: bool)
      requires Valid()
      requires Proper(edges, assignment)
      modifies this`assignment, this`domains
      decreases n - |assignment|, 1
      ensures Valid()
      ensures Shrunk(old(domains), domains)
      ensures found ==> IsSolution(n, k, edges, assignment) && Extends(assignment, old(assignment))
      ensures !found ==> assignment == old(assignment)
      ensures !found && DomainsExact(n, k, edges, old(assignment), old(domains)) ==>
        !Solvable(n, k, edges, old(assignment))
    {
      AssignedCount(assignment, n);
      if |assignment| == n {
        return true;
      }
      var next := MostConstrainedVariable(n, assignment, domains);
      var v := next.value;
      var values := LeastConstrainingValue(neighbors, v, assignment, domains);
      ghost var asg0, doms0 := assignment, domains;
      ghost var exact := DomainsExact(n, k, edges, asg0, doms0);
      assert |values| == |doms0[v]| by {
        assert |multiset(values)| == |multiset(doms0[v])|;
      }
      assert Fewest(n, asg0, doms0, v);
      var i := 0;
      while i < |values|
        invariant 0 <= i <= |values|
        invariant Valid() && assignment == asg0 && DomainsInRange(n, k, doms0)
        invariant Shrunk(doms0, domains)
        invariant exact && i < |values| ==> domains == doms0
        invariant exact ==> forall j :: 0 <= j < i ==> !SolvableWith(n, k, edges, asg0, v, values[j])
      {
        assert values[i] in multiset(doms0[v]);
        assert values[i] in doms0[v];
        ghost var pre := domains;
        found := TryValue(v, values[i]);
        ShrunkTrans(doms0, pre, domains);
        if found {
          return;
        }
        if exact {
          ValuesFailed(n, k, edges, asg0, v, values, i);
        }
        i := i + 1;
      }
      if exact {
        SolvableSomeValue(n, k, edges, asg0, doms0, v, values);
      }
      return false;
    }

    /** One turn of the loop of dfs_backtrack_plus_plus, for the value c of
        v: when c is consistent, assign it, forward check, search on if no
        domain emptied, and otherwise (or if the deeper search fails) restore
        the domains from the snapshot when there is one and undo the
        assignment. When the entry domains are exact and v's is the fewest,
        a failure means c leads nowhere, and the domains are back as they
        were unless v had at most one value to try. */
    method TryValue(v: int, c: int) returns (found: bool)
      requires Valid() && Proper(edges, assignment)
      requires 0 <= v < n && v !in assignment && 0 <= c < k
      modifies this`assignment, this`domains
      decreases n - |assignment|, 0
      ensures Valid()
      ensures Shrunk(old(domains), domains)
      ensures found ==> IsSolution(n, k, edges, assignment) && Extends(assignment, old(assignment))
      ensures !found ==> assignment == old(assignment)
      ensures !found && domains != old(domains) ==> DeadEndPrune(edges, v, c, old(assignment)[v := c], old(domains), domains)
      ensures !found ==> (domains == old(domains) <==>
        !Consistent(edges, v, c, old(assignment)) || NoEmpties(edges, v, c, old(assignment)[v := c], old(domains)))
      ensures !found && DomainsExact(n, k, edges, old(assignment), old(domains)) && Fewest(n, old(assignment), old(domains), v) ==>
        !SolvableWith(n, k, edges, old(assignment), v, c) && (domains == old(domains) || |old(domains)[v]| <= 1)
    {
      ghost var asg0 := assignment;
      var ok := IsConsistent(edges, v, c, assignment);
      SolvableConsistent(n, k, edges, asg0, v, c);
      if !ok {
        return false;
      }
      ConsistentIffProperExtension(edges, v, c, asg0);
      assignment := assignment[v := c];
      AssignedCount(assignment, n);
      found := Descend(v, c, asg0);
      if !found {
        UndoAssign(asg0, v, c);
        assignment := assignment - {v};
      }
    }

    /** The rest of one pass of the value loop, once v := c is in place:
        forward checks, searches deeper when no domain emptied, and on failure
        puts back the snapshot; a dead end leaves the partial prune. */
    method Descend(v: int, c: int, ghost asg0: map<int, int>) returns (found: bool)
      requires Valid() && Proper(edges, assignment)
      requires 0 <= v < n && v !in asg0 && 0 <= c < k && assignment == asg0[v := c]
      modifies this`assignment, this`domains
      decreases n - |assignment|, 2
      ensures Valid()
      ensures Shrunk(old(domains), domains)
      ensures found ==> IsSolution(n, k, edges, assignment) && Extends(assignment, old(assignment))
      ensures !found ==> assignment == old(assignment)
      ensures !found && domains != old(domains) ==> DeadEndPrune(edges, v, c, old(assignment), old(domains), domains)
      ensures !found ==> (domains == old(domains) <==> NoEmpties(edges, v, c, old(assignment), old(domains)))
      ensures !found && DomainsExact(n, k, edges, asg0, old(domains)) && Fewest(n, asg0, old(domains), v) ==>
        !SolvableWith(n, k, edges, asg0, v, c) && (domains == old(domains) || |old(domains)[v]| <= 1)
    {
      ghost var doms0 := domains;
      ghost var exact := DomainsExact(n, k, edges, asg0, doms0);
      AssignedCount(assignment, n);
      var copyOfDomains := ForwardCheck(v, c);
      if copyOfDomains.Some? {
        if exact {
          PrunedExact(n, k, edges, asg0, doms0, v, c);
        }
        ghost var pruned := domains;
        found := BacktrackPlus();
        if found {
          ShrunkTrans(doms0, pruned, domains);
          return;
        }
        domains := copyOfDomains.value;
      } else {
        DeadEndChanges(edges, v, c, assignment, doms0, domains);
        if exact && Fewest(n, asg0, doms0, v) {
          DeadEnd(n, k, edges, asg0, doms0, v, c, assignment, domains);
        }
      }
      found := false;
    }
  }

  /** Mode 0: DFS-B from the empty assignment. It finds a solution exactly
      when one exists, and the one it finds is the first in lexicographic
      order. */
  method SolveBasic(n: nat, k: nat, edges: seq<Edge>) returns (solution: Option<map<int, int>>)
    requires EdgesInRange(n, edges)
    ensures solution.Some? ==> IsSolution(n, k, edges, solution.value)
    ensures solution.Some? ==> forall col :: IsSolution(n, k, edges, col) ==> LexLeq(n, solution.value, col)
    ensures solution.None? <==> !Solvable(n, k, edges, map[])
  {
    var csp := new Csp(n, k, edges);
    var found := csp.Backtrack();
    if found {
      solution := Some(csp.assignment);
      assert Extends(csp.assignment, map[]);
    } else {
      solution := None;
    }
  }

  /** Mode 1: DFS-B++ from the empty assignment and the full domains. It
      finds a solution exactly when one exists. */
  method SolvePlus(n: nat, k: nat, edges: seq<Edge>) returns (solution: Option<map<int, int>>)
    requires EdgesInRange(n, edges)
    ensures solution.Some? ==> IsSolution(n, k, edges, solution.value)
    ensures solution.None? <==> !Solvable(n, k, edges, map[])
  {
    var csp := new Csp(n, k, edges);
    var found := csp.BacktrackPlus();
    if found {
      solution := Some(csp.assignment);
      assert Extends(csp.assignment, map[]);
    } else {
      solution := None;
    }
  }
}
