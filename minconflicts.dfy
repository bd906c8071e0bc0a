/** Min-conflicts local search (minconflicts.py). An assignment is the list
    `assign`, one colour per variable 0..N-1; the neighbour map is a list of
    neighbour lists, one per variable. The random generator is replaced by
    oracles: the initial assignment of each run is an input, and the draw of
    random.choice(bad) at a step is an input number taken modulo len(bad). */
module MinConflicts {
  import opened Graph
  import opened Wrappers

  // ---------------------------------------------------------------------------
  // Neighbour lists

  /** The list the construction loop leaves for variable a: each constraint,
      in order, appends its other end when a is its first end, then its first
      end when a is its second end (a self-loop (a, a) appends a twice). */
  function Nbrs(edges: seq<Edge>, a: int): seq<int>
    decreases |edges|
  {
    if edges == [] then []
    else
      var e := edges[|edges| - 1];
      Nbrs(edges[..|edges| - 1], a) + (if e.0 == a then [e.1] else []) + (if e.1 == a then [e.0] else [])
  }

  /** Every list entry is a variable of the problem. */
  predicate NbInRange(nb: seq<seq<int>>, n: nat)
  {
    |nb| == n && forall i, t :: 0 <= i < n && 0 <= t < |nb[i]| ==> 0 <= nb[i][t] < n
  }

  /** neighbors = {i: [] for i in range(N)}, then both ends of each
      constraint are appended to each other's list. */
  method BuildNeighborLists(n: nat, edges: seq<Edge>) returns (nb: seq<seq<int>>)
    requires EdgesInRange(n, edges)
    ensures |nb| == n && forall a :: 0 <= a < n ==> nb[a] == Nbrs(edges, a)
  {
    nb := seq(n, i => []);
    var i := 0;
    while i < |edges|
      invariant 0 <= i <= |edges|
      invariant |nb| == n && forall a :: 0 <= a < n ==> nb[a] == Nbrs(edges[..i], a)
    {
      var (a, b) := edges[i];
      assert edges[..i + 1][..i] == edges[..i];
      nb := nb[a := nb[a] + [b]];
      nb := nb[b := nb[b] + [a]];
      i := i + 1;
    }
    assert edges[..i] == edges;
  }

  lemma {:induction false} NbrsInRange(n: nat, edges: seq<Edge>, a: int)
    requires EdgesInRange(n, edges)
    ensures forall t :: 0 <= t < |Nbrs(edges, a)| ==> 0 <= Nbrs(edges, a)[t] < n
  {
    if edges != [] {
      var init := edges[..|edges| - 1];
      assert EdgesInRange(n, init) by {
        assert forall i :: 0 <= i < |init| ==> init[i] == edges[i];
      }
      NbrsInRange(n, init, a);
    }
  }

  /** b is on a's list exactly when some constraint ties a and b. */
  lemma {:induction false} NbrsMembers(edges: seq<Edge>, a: int, b: int)
    ensures b in Nbrs(edges, a) <==> Adjacent(edges, a, b)
  {
    if edges != [] {
      var init, e := edges[..|edges| - 1], edges[|edges| - 1];
      NbrsMembers(init, a, b);
      if Adjacent(init, a, b) {
        var j :| 0 <= j < |init| && Joins(init[j], a, b);
        assert edges[j] == init[j];
      }
      if Adjacent(edges, a, b) && !Joins(e, a, b) {
        var j :| 0 <= j < |edges| && Joins(edges[j], a, b);
        assert init[j] == edges[j];
      }
      if Joins(e, a, b) {
        assert Joins(edges[|edges| - 1], a, b);
      }
    }
  }

  /** The lists are symmetric, with multiplicity: b occurs on a's list as
      often as a occurs on b's list (once per constraint tying them, either
      way round). */
  lemma {:induction false} NbrsSymmetric(edges: seq<Edge>, a: int, b: int)
    ensures multiset(Nbrs(edges, a))[b] == multiset(Nbrs(edges, b))[a]
  {
    if edges != [] {
      NbrsSymmetric(edges[..|edges| - 1], a, b);
    }
  }

  // ---------------------------------------------------------------------------
  // Conflict detection

  /** Variable i has a neighbour holding its own colour. */
  predicate Conflicted(nb: seq<seq<int>>, col: seq<int>, i: int)
    requires NbInRange(nb, |col|) && 0 <= i < |col|
  {
    exists t :: 0 <= t < |nb[i]| && col[nb[i][t]] == col[i]
  }

  /** The conflicted variables among 0..m-1, in ascending order. */
  function ConflictList(nb: seq<seq<int>>, col: seq<int>, m: nat): seq<int>
    requires NbInRange(nb, |col|) && m <= |col|
  {
    if m == 0 then []
    else ConflictList(nb, col, m - 1) + (if Conflicted(nb, col, m - 1) then [m - 1] else [])
  }

  /** The list holds exactly the conflicted variables below m, strictly
      ascending, so each once. */
  lemma {:induction false} ConflictListSpec(nb: seq<seq<int>>, col: seq<int>, m: nat)
    requires NbInRange(nb, |col|) && m <= |col|
    ensures forall x :: x in ConflictList(nb, col, m) <==> 0 <= x < m && Conflicted(nb, col, x)
    ensures forall p, q :: 0 <= p < q < |ConflictList(nb, col, m)| ==>
      ConflictList(nb, col, m)[p] < ConflictList(nb, col, m)[q]
  {
    if m > 0 {
      ConflictListSpec(nb, col, m - 1);
      var prev := ConflictList(nb, col, m - 1);
      forall p | 0 <= p < |prev| ensures prev[p] < m - 1 {
        assert prev[p] in ConflictList(nb, col, m - 1);
      }
    }
  }

  /** conflicting_vars: for each variable in turn, scans its neighbour list
      and records it at the first neighbour with the same colour. */
  method ConflictingVars(nb: seq<seq<int>>, col: seq<int>) returns (bad: seq<int>)
    requires NbInRange(nb, |col|)
    ensures bad == ConflictList(nb, col, |col|)
  {
    bad := [];
    var i := 0;
    while i < |col|
      invariant 0 <= i <= |col|
      invariant bad == ConflictList(nb, col, i)
    {
      var t := 0;
      while t < |nb[i]|
        invariant 0 <= t <= |nb[i]|
        invariant bad == ConflictList(nb, col, i)
        invariant forall s :: 0 <= s < t ==> col[nb[i][s]] != col[i]
      {
        var j := nb[i][t];
        if col[i] == col[j] {
          bad := bad + [i];
          break;
        }
        t := t + 1;
      }
      i := i + 1;
    }
  }

  /** The colouring as a map from variable to colour. */
  function ToMap(col: seq<int>): (m: map<int, int>)
    ensures forall i :: i in m <==> 0 <= i < |col|
    ensures forall i :: 0 <= i < |col| ==> m[i] == col[i]
  {
    map i | 0 <= i < |col| :: col[i]
  }

  /** With the lists built from the constraints, an empty conflict list
      means exactly that the assignment is a solution of the problem. */
  lemma ConflictFreeIffSolution(n: nat, k: nat, edges: seq<Edge>, nb: seq<seq<int>>, col: seq<int>)
    requires EdgesInRange(n, edges)
    requires |nb| == n && forall a :: 0 <= a < n ==> nb[a] == Nbrs(edges, a)
    requires |col| == n && forall i :: 0 <= i < n ==> 0 <= col[i] < k
    ensures NbInRange(nb, n)
    ensures ConflictList(nb, col, n) == [] <==> IsSolution(n, k, edges, ToMap(col))
  {
    forall a | 0 <= a < n ensures forall t :: 0 <= t < |nb[a]| ==> 0 <= nb[a][t] < n {
      NbrsInRange(n, edges, a);
    }
    ConflictListSpec(nb, col, n);
    var m := ToMap(col);
    if ConflictList(nb, col, n) == [] {
      forall i | 0 <= i < |edges| && edges[i].0 in m && edges[i].1 in m
        ensures m[edges[i].0] != m[edges[i].1]
      {
        var a, b := edges[i].0, edges[i].1;
        NbrsMembers(edges, a, b);
        assert Joins(edges[i], a, b);
        var t :| 0 <= t < |nb[a]| && nb[a][t] == b;
        assert !Conflicted(nb, col, a);
      }
    } else {
      var x := ConflictList(nb, col, n)[0];
      assert x in ConflictList(nb, col, n);
      var t :| 0 <= t < |nb[x]| && col[nb[x][t]] == col[x];
      var y := nb[x][t];
      NbrsMembers(edges, x, y);
      var i :| 0 <= i < |edges| && Joins(edges[i], x, y);
      assert m[edges[i].0] == m[edges[i].1];
    }
  }

  // ---------------------------------------------------------------------------
  // Best-colour choice

  /** sum(1 for j in nbv if assign[j] == c): the neighbours holding c. */
  function Conflicts(nbv: seq<int>, col: seq<int>, c: int): nat
    requires forall t :: 0 <= t < |nbv| ==> 0 <= nbv[t] < |col|
  {
    if nbv == [] then 0 else (if col[nbv[0]] == c then 1 else 0) + Conflicts(nbv[1..], col, c)
  }

  lemma {:induction false} ConflictsBound(nbv: seq<int>, col: seq<int>, c: int)
    requires forall t :: 0 <= t < |nbv| ==> 0 <= nbv[t] < |col|
    ensures Conflicts(nbv, col, c) <= |nbv|
  {
    if nbv != [] {
      ConflictsBound(nbv[1..], col, c);
    }
  }

  /** The colour loop of min_conflict_color from colour c on, with best
      holding the colour chosen so far and bestCount its count: a colour
      replaces the best only with strictly fewer conflicts. */
  function Scan(nbv: seq<int>, col: seq<int>, k: nat, c: nat, best: int, bestCount: int): int
    requires forall t :: 0 <= t < |nbv| ==> 0 <= nbv[t] < |col|
    decreases k - c
  {
    if c >= k then best
    else
      var m := Conflicts(nbv, col, c);
      if m < bestCount then Scan(nbv, col, k, c + 1, c, m) else Scan(nbv, col, k, c + 1, best, bestCount)
  }

  /** min_conflict_color(var, assign): starts from the current colour with
      the sentinel count N + 1 and scans the colours 0..K-1. */
  function ChosenColour(nb: seq<seq<int>>, col: seq<int>, v: int, k: nat): int
    requires NbInRange(nb, |col|) && 0 <= v < |col|
  {
    Scan(nb[v], col, k, 0, col[v], |col| + 1)
  }

  /** Some colour from c on beats bestCount. */
  predicate Improves(nbv: seq<int>, col: seq<int>, k: nat, c: nat, bestCount: int)
    requires forall t :: 0 <= t < |nbv| ==> 0 <= nbv[t] < |col|
  {
    exists d :: c <= d < k && Conflicts(nbv, col, d) < bestCount
  }

  /** The scan ends on the lowest colour of [c, k) with the fewest conflicts
      when that count beats bestCount, and keeps best otherwise. */
  lemma {:induction false} ScanSpec(nbv: seq<int>, col: seq<int>, k: nat, c: nat, best: int, bestCount: int)
    requires forall t :: 0 <= t < |nbv| ==> 0 <= nbv[t] < |col|
    decreases k - c
    ensures var r := Scan(nbv, col, k, c, best, bestCount);
      && (Improves(nbv, col, k, c, bestCount) ==>
            && c <= r < k
            && (forall d :: c <= d < k ==> Conflicts(nbv, col, r) <= Conflicts(nbv, col, d))
            && (forall d :: c <= d < r ==> Conflicts(nbv, col, r) < Conflicts(nbv, col, d)))
      && (!Improves(nbv, col, k, c, bestCount) ==> r == best)
  {
    if c < k {
      var m := Conflicts(nbv, col, c);
      if m < bestCount {
        ScanSpec(nbv, col, k, c + 1, c, m);
        assert Improves(nbv, col, k, c, bestCount);
      } else {
        ScanSpec(nbv, col, k, c + 1, best, bestCount);
        if Improves(nbv, col, k, c, bestCount) {
          var d :| c <= d < k && Conflicts(nbv, col, d) < bestCount;
          assert Improves(nbv, col, k, c + 1, bestCount);
        }
      }
    }
  }

  /** When some colour has at most N conflicts, the choice is the lowest
      colour with the fewest; otherwise the current colour is kept. */
  lemma ChosenColourSpec(nb: seq<seq<int>>, col: seq<int>, v: int, k: nat)
    requires NbInRange(nb, |col|) && 0 <= v < |col|
    ensures var r := ChosenColour(nb, col, v, k);
      && ((exists c :: 0 <= c < k && Conflicts(nb[v], col, c) <= |col|) ==>
            && 0 <= r < k
            && (forall c :: 0 <= c < k ==> Conflicts(nb[v], col, r) <= Conflicts(nb[v], col, c))
            && (forall c :: 0 <= c < r ==> Conflicts(nb[v], col, r) < Conflicts(nb[v], col, c)))
      && (!(exists c :: 0 <= c < k && Conflicts(nb[v], col, c) <= |col|) ==> r == col[v])
  {
    ScanSpec(nb[v], col, k, 0, col[v], |col| + 1);
  }

  /** With at least one colour and at most N list entries (no repeated
      constraints), the sentinel is always beaten: the choice is the lowest
      colour in [0, K) with the fewest conflicts. */
  lemma ChosenColourChooses(nb: seq<seq<int>>, col: seq<int>, v: int, k: nat)
    requires NbInRange(nb, |col|) && 0 <= v < |col|
    requires k >= 1 && |nb[v]| <= |col|
    ensures var r := ChosenColour(nb, col, v, k);
      && 0 <= r < k
      && (forall c :: 0 <= c < k ==> Conflicts(nb[v], col, r) <= Conflicts(nb[v], col, c))
      && (forall c :: 0 <= c < r ==> Conflicts(nb[v], col, r) < Conflicts(nb[v], col, c))
  {
    ConflictsBound(nb[v], col, 0);
    ChosenColourSpec(nb, col, v, k);
  }

  /** The chosen colour is a colour of [0, K) when the current one is. */
  lemma ChosenColourInRange(nb: seq<seq<int>>, col: seq<int>, v: int, k: nat)
    requires NbInRange(nb, |col|) && 0 <= v < |col| && 0 <= col[v] < k
    ensures 0 <= ChosenColour(nb, col, v, k) < k
  {
    ChosenColourSpec(nb, col, v, k);
  }

  /** min_conflict_color, with its loop over the colours. */
  method MinConflictColor(nb: seq<seq<int>>, col: seq<int>, v: int, k: nat) returns (best: int)
    requires NbInRange(nb, |col|) && 0 <= v < |col|
    ensures best == ChosenColour(nb, col, v, k)
  {
    var bestCount := |col| + 1;
    best := col[v];
    var c := 0;
    while c < k
      invariant 0 <= c <= k
      invariant Scan(nb[v], col, k, c, best, bestCount) == ChosenColour(nb, col, v, k)
    {
      var conflicts := Conflicts(nb[v], col, c);
      if conflicts < bestCount {
        best, bestCount := c, conflicts;
      }
      c := c + 1;
    }
  }

  // ---------------------------------------------------------------------------
  // The repair loop

  /** assign[var] = min_conflict_color(var, assign). */
  function Reassign(nb: seq<seq<int>>, col: seq<int>, v: int, k: nat): seq<int>
    requires NbInRange(nb, |col|) && 0 <= v < |col|
  {
    col[v := ChosenColour(nb, col, v, k)]
  }

  /** A reassignment changes the colour of v only, to its min-conflict colour,
      and keeps every colour in [0, K). */
  lemma ReassignSpec(nb: seq<seq<int>>, col: seq<int>, v: int, k: nat)
    requires NbInRange(nb, |col|) && 0 <= v < |col|
    requires forall i :: 0 <= i < |col| ==> 0 <= col[i] < k
    ensures var r := Reassign(nb, col, v, k);
      && |r| == |col|
      && (forall u :: 0 <= u < |col| && u != v ==> r[u] == col[u])
      && (forall i :: 0 <= i < |r| ==> 0 <= r[i] < k)
  {
    ChosenColourInRange(nb, col, v, k);
  }

  /** How a run of the repair loop ends: solved, with the number of
      reassignments made and the assignment it ends with. */
  datatype Outcome = Outcome(solved: bool, steps: nat, final: seq<int>)

  /** The loop `for step in range(max_steps)` from iteration step on: check
      for conflicts first, stop if there are none, otherwise reassign the
      variable random.choice(bad) picks, the oracle's draw at this step taken
      modulo len(bad). */
  function Walk(nb: seq<seq<int>>, col: seq<int>, k: nat, pick: nat -> nat, step: nat, maxSteps: nat): Outcome
    requires NbInRange(nb, |col|)
    decreases maxSteps - step
  {
    if step >= maxSteps then Outcome(false, maxSteps, col)
    else
      var bad := ConflictList(nb, col, |col|);
      if bad == [] then Outcome(true, step, col)
      else
        ConflictListSpec(nb, col, |col|);
        var v := bad[pick(step) % |bad|];
        assert v in bad;
        Walk(nb, Reassign(nb, col, v, k), k, pick, step + 1, maxSteps)
  }

  /** A run from iteration step: a success is conflict-free and comes before
      max_steps reassignments; a failure has made all max_steps of them. The
      assignment keeps its length and, from colours in [0, K), stays in
      [0, K). */
  lemma {:induction false} WalkSpec(nb: seq<seq<int>>, col: seq<int>, k: nat, pick: nat -> nat, step: nat, maxSteps: nat)
    requires NbInRange(nb, |col|) && step <= maxSteps
    decreases maxSteps - step
    ensures var o := Walk(nb, col, k, pick, step, maxSteps);
      && |o.final| == |col|
      && (o.solved ==> step <= o.steps < maxSteps && ConflictList(nb, o.final, |col|) == [])
      && (!o.solved ==> o.steps == maxSteps)
      && ((forall i :: 0 <= i < |col| ==> 0 <= col[i] < k) ==> forall i :: 0 <= i < |col| ==> 0 <= o.final[i] < k)
  {
    if step < maxSteps {
      var bad := ConflictList(nb, col, |col|);
      if bad != [] {
        ConflictListSpec(nb, col, |col|);
        var v := bad[pick(step) % |bad|];
        assert bad[pick(step) % |bad|] in bad;
        var next := Reassign(nb, col, v, k);
        WalkSpec(nb, next, k, pick, step + 1, maxSteps);
        if forall i :: 0 <= i < |col| ==> 0 <= col[i] < k {
          ReassignSpec(nb, col, v, k);
        }
      }
    }
  }

  /** A successful run solves the problem the neighbour lists were built
      from. */
  lemma WalkSolves(n: nat, k: nat, edges: seq<Edge>, nb: seq<seq<int>>, col: seq<int>, pick: nat -> nat, maxSteps: nat)
    requires EdgesInRange(n, edges)
    requires |nb| == n && forall a :: 0 <= a < n ==> nb[a] == Nbrs(edges, a)
    requires |col| == n && forall i :: 0 <= i < n ==> 0 <= col[i] < k
    ensures NbInRange(nb, n)
    ensures Walk(nb, col, k, pick, 0, maxSteps).solved ==> IsSolution(n, k, edges, ToMap(Walk(nb, col, k, pick, 0, maxSteps).final))
  {
    ConflictFreeIffSolution(n, k, edges, nb, col);
    var o := Walk(nb, col, k, pick, 0, maxSteps);
    WalkSpec(nb, col, k, pick, 0, maxSteps);
    if o.solved {
      ConflictFreeIffSolution(n, k, edges, nb, o.final);
    }
  }

  /** The conflict check comes before the reassignment: a run whose last
      allowed reassignment removes the last conflict is still reported as a
      failure. Two variables joined by one constraint, both coloured 0, one
      step allowed: the step recolours variable 0 to 1, and the loop ends. */
  lemma LastStepNotChecked()
    ensures var o := Walk([[1], [0]], [0, 0], 2, _ => 0, 0, 1);
      !o.solved && o.final == [1, 0] && ConflictList([[1], [0]], o.final, 2) == []
  {
    var nb, col := [[1], [0]], [0, 0];
    assert Conflicted(nb, col, 0) by {
      assert col[nb[0][0]] == col[0];
    }
    assert Conflicted(nb, col, 1) by {
      assert col[nb[1][0]] == col[1];
    }
    assert ConflictList(nb, col, 2) == [0, 1];
    assert Conflicts(nb[0], col, 0) == 1;
    assert Conflicts(nb[0], col, 1) == 0;
    assert ChosenColour(nb, col, 0, 2) == 1;
    var fin := [1, 0];
    assert !Conflicted(nb, fin, 0) by {
      assert forall t :: 0 <= t < |nb[0]| ==> fin[nb[0][t]] != fin[0];
    }
    assert !Conflicted(nb, fin, 1) by {
      assert forall t :: 0 <= t < |nb[1]| ==> fin[nb[1][t]] != fin[1];
    }
  }

  /** The repair loop on the list assign, updated in place; it answers
      whether the list became conflict-free and after how many
      reassignments. */
  method Repair(nb: seq<seq<int>>, assign: array<int>, k: nat, pick: nat -> nat, maxSteps: nat)
    returns (solved: bool, steps: nat)
    requires NbInRange(nb, assign.Length)
    modifies assign
    ensures var o := Walk(nb, old(assign[..]), k, pick, 0, maxSteps);
      solved == o.solved && steps == o.steps && assign[..] == o.final
  {
    var step := 0;
    while step < maxSteps
      invariant 0 <= step <= maxSteps
      invariant Walk(nb, assign[..], k, pick, step, maxSteps) == Walk(nb, old(assign[..]), k, pick, 0, maxSteps)
    {
      var bad := ConflictingVars(nb, assign[..]);
      if bad == [] {
        return true, step;
      }
      ConflictListSpec(nb, assign[..], assign.Length);
      var v := bad[pick(step) % |bad|];
      assert v in bad;
      var c := MinConflictColor(nb, assign[..], v, k);
      assign[v] := c;
      step := step + 1;
    }
    return false, maxSteps;
  }

  /** min_conflicts_basic, with the oracle's initial assignment init. */
  method MinConflictsBasic(nb: seq<seq<int>>, k: nat, init: seq<int>, pick: nat -> nat, maxSteps: nat)
    returns (solution: Option<seq<int>>)
    requires NbInRange(nb, |init|)
    ensures var o := Walk(nb, init, k, pick, 0, maxSteps);
      solution == if o.solved then Some(o.final) else None
  {
    var assign := new int[|init|](i requires 0 <= i < |init| => init[i]);
    assert assign[..] == init;
    var solved, steps := Repair(nb, assign, k, pick, maxSteps);
    if solved {
      return Some(assign[..]);
    }
    return None;
  }

  // ---------------------------------------------------------------------------
  // Restarts

  /** Run q of min_conflicts_restart: a fresh assignment init(q) and the
      draws pick(q). */
  function Attempt(nb: seq<seq<int>>, n: nat, k: nat, init: nat -> seq<int>, pick: nat -> nat -> nat, q: nat, maxSteps: nat): Outcome
    requires NbInRange(nb, n) && |init(q)| == n
  {
    Walk(nb, init(q), k, pick(q), 0, maxSteps)
  }

  /** The restart loop from restart r on: the first successful run answers
      its assignment and the steps of the failed runs before it plus its
      own; when every run fails, None and max_restarts * max_steps. */
  function Restarts(nb: seq<seq<int>>, n: nat, k: nat, init: nat -> seq<int>, pick: nat -> nat -> nat,
                    r: nat, maxSteps: nat, maxRestarts: nat): (Option<seq<int>>, nat)
    requires NbInRange(nb, n)
    requires forall q :: r <= q < maxRestarts ==> |init(q)| == n
    decreases maxRestarts - r
  {
    if r >= maxRestarts then (None, maxRestarts * maxSteps)
    else
      var o := Attempt(nb, n, k, init, pick, r, maxSteps);
      if o.solved then (Some(o.final), r * maxSteps + o.steps)
      else Restarts(nb, n, k, init, pick, r + 1, maxSteps, maxRestarts)
  }

  /** When run q is the first successful one from restart r on, the
      restart controller answers its assignment, with q * max_steps plus that
      run's own step count. */
  lemma {:induction false} RestartsFirstSuccess(nb: seq<seq<int>>, n: nat, k: nat, init: nat -> seq<int>,
                                                pick: nat -> nat -> nat, r: nat, q: nat, maxSteps: nat, maxRestarts: nat)
    requires NbInRange(nb, n)
    requires forall p :: r <= p < maxRestarts ==> |init(p)| == n
    requires r <= q < maxRestarts
    requires forall p :: r <= p < q ==> !Attempt(nb, n, k, init, pick, p, maxSteps).solved
    requires Attempt(nb, n, k, init, pick, q, maxSteps).solved
    decreases q - r
    ensures Restarts(nb, n, k, init, pick, r, maxSteps, maxRestarts) ==
      (Some(Attempt(nb, n, k, init, pick, q, maxSteps).final), q * maxSteps + Attempt(nb, n, k, init, pick, q, maxSteps).steps)
  {
    if r < q {
      assert !Attempt(nb, n, k, init, pick, r, maxSteps).solved;
      RestartsFirstSuccess(nb, n, k, init, pick, r + 1, q, maxSteps, maxRestarts);
    }
  }

  /** When every run from restart r on fails, the restart controller answers
      None with max_restarts * max_steps. */
  lemma {:induction false} RestartsAllFail(nb: seq<seq<int>>, n: nat, k: nat, init: nat -> seq<int>,
                                           pick: nat -> nat -> nat, r: nat, maxSteps: nat, maxRestarts: nat)
    requires NbInRange(nb, n)
    requires forall p :: r <= p < maxRestarts ==> |init(p)| == n
    requires forall p :: r <= p < maxRestarts ==> !Attempt(nb, n, k, init, pick, p, maxSteps).solved
    decreases maxRestarts - r
    ensures Restarts(nb, n, k, init, pick, r, maxSteps, maxRestarts) == (None, maxRestarts * maxSteps)
  {
    if r < maxRestarts {
      assert !Attempt(nb, n, k, init, pick, r, maxSteps).solved;
      RestartsAllFail(nb, n, k, init, pick, r + 1, maxSteps, maxRestarts);
    }
  }

  /** min_conflicts_restart: up to max_restarts runs, each from a fresh
      assignment, adding max_steps to the total after each failed run. */
  method MinConflictsRestart(nb: seq<seq<int>>, n: nat, k: nat, init: nat -> seq<int>, pick: nat -> nat -> nat,
                             maxSteps: nat, maxRestarts: nat)
    returns (solution: Option<seq<int>>, totalSteps: nat)
    requires NbInRange(nb, n)
    requires forall q :: 0 <= q < maxRestarts ==> |init(q)| == n
    ensures (solution, totalSteps) == Restarts(nb, n, k, init, pick, 0, maxSteps, maxRestarts)
  {
    totalSteps := 0;
    var restart := 0;
    while restart < maxRestarts
      invariant 0 <= restart <= maxRestarts
      invariant totalSteps == restart * maxSteps
      invariant Restarts(nb, n, k, init, pick, restart, maxSteps, maxRestarts) ==
        Restarts(nb, n, k, init, pick, 0, maxSteps, maxRestarts)
    {
      var start := init(restart);
      var assign := new int[n](i requires 0 <= i < n => start[i]);
      assert assign[..] == start;
      var solved, steps := Repair(nb, assign, k, pick(restart), maxSteps);
      if solved {
        assert Restarts(nb, n, k, init, pick, restart, maxSteps, maxRestarts) == (Some(assign[..]), totalSteps + steps);
        return Some(assign[..]), totalSteps + steps;
      }
      assert Restarts(nb, n, k, init, pick, restart, maxSteps, maxRestarts) ==
        Restarts(nb, n, k, init, pick, restart + 1, maxSteps, maxRestarts);
      totalSteps := totalSteps + maxSteps;
      restart := restart + 1;
    }
    return None, totalSteps;
  }
}
