/** The constraint graph shared by both solvers: N variables 0..N-1, K colours
    0..K-1, and a list of "must differ" constraints (a, b). Colourings are maps
    from variable to colour, as the backtracking engines keep them. */
module Graph {

  /** A constraint: its two endpoints must get different colours. */
  type Edge = (int, int)

  /** Every endpoint is a variable of the problem. */
  predicate EdgesInRange(n: nat, edges: seq<Edge>)
  {
    forall i :: 0 <= i < |edges| ==> 0 <= edges[i].0 < n && 0 <= edges[i].1 < n
  }

  /** Constraint e ties a and b together, in either orientation. */
  predicate Joins(e: Edge, a: int, b: int)
  {
    (e.0 == a && e.1 == b) || (e.0 == b && e.1 == a)
  }

  /** Some constraint ties a and b together. */
  predicate Adjacent(edges: seq<Edge>, a: int, b: int)
  {
    exists i :: 0 <= i < |edges| && Joins(edges[i], a, b)
  }

  /** No constraint whose two ends are both coloured has equal colours at its
      ends. For a total colouring this is "the colouring is proper". */
  predicate Proper(edges: seq<Edge>, col: map<int, int>)
  {
    forall i :: 0 <= i < |edges| && edges[i].0 in col && edges[i].1 in col ==>
      col[edges[i].0] != col[edges[i].1]
  }

  /** col colours exactly the variables 0..n-1, each with a colour in [0, k). */
  predicate Total(n: nat, k: nat, col: map<int, int>)
  {
    && (forall v :: v in col ==> 0 <= v < n)
    && (forall v :: 0 <= v < n ==> v in col)
    && (forall v :: v in col ==> 0 <= col[v] < k)
  }

  /** A solution of the problem. */
  predicate IsSolution(n: nat, k: nat, edges: seq<Edge>, col: map<int, int>)
  {
    Total(n, k, col) && Proper(edges, col)
  }

  /** col agrees with the partial assignment asg wherever asg is defined. */
  predicate Extends(col: map<int, int>, asg: map<int, int>)
  {
    forall v :: v in asg ==> v in col && col[v] == asg[v]
  }

  /** Some solution extends the partial assignment asg. */
  ghost predicate Solvable(n: nat, k: nat, edges: seq<Edge>, asg: map<int, int>)
  {
    exists col :: IsSolution(n, k, edges, col) && Extends(col, asg)
  }

  /** a precedes or equals b in the lexicographic order of total colourings
      read in variable order 0..n-1: at the first variable where they differ,
      a has the smaller colour. */
  predicate LexLeq(n: nat, a: map<int, int>, b: map<int, int>)
    requires forall v :: 0 <= v < n ==> v in a && v in b
  {
    forall d :: 0 <= d < n && a[d] != b[d] && (forall j :: 0 <= j < d ==> a[j] == b[j]) ==>
      a[d] < b[d]
  }

  /** With a single colour, any constraint at all makes the problem
      unsolvable. */
  lemma OneColourUnsolvable(n: nat, edges: seq<Edge>)
    requires EdgesInRange(n, edges)
    requires |edges| > 0
    ensures !Solvable(n, 1, edges, map[])
  {
    forall col | Total(n, 1, col) ensures !Proper(edges, col) {
      var e := edges[0];
      assert col[e.0] == 0 == col[e.1];
    }
  }

  /** The triangle 0-1, 1-2, 0-2 cannot be coloured with two colours. */
  lemma TriangleTwoColoursUnsolvable()
    ensures !Solvable(3, 2, [(0, 1), (1, 2), (0, 2)], map[])
  {
    var edges := [(0, 1), (1, 2), (0, 2)];
    forall col | Total(3, 2, col) ensures !Proper(edges, col) {
      assert edges[0] == (0, 1) && edges[1] == (1, 2) && edges[2] == (0, 2);
      assert col[0] == col[1] || col[1] == col[2] || col[0] == col[2];
    }
  }

  /** The path 0-1-2 has the two-colour solution 0, 1, 0. */
  lemma PathTwoColoursSolution()
    ensures IsSolution(3, 2, [(0, 1), (1, 2)], map[0 := 0, 1 := 1, 2 := 0])
  {
    var col := map[0 := 0, 1 := 1, 2 := 0];
    assert forall v :: v in col ==> 0 <= v < 3;
  }

  /** On the path 0-1-2 with two colours, a solution that precedes every
      solution in lexicographic order, as DFS-B's answer does, is exactly
      0, 1, 0. */
  lemma PathTwoColoursLeast(s: map<int, int>)
    requires IsSolution(3, 2, [(0, 1), (1, 2)], s)
    requires forall col :: IsSolution(3, 2, [(0, 1), (1, 2)], col) ==> LexLeq(3, s, col)
    ensures s == map[0 := 0, 1 := 1, 2 := 0]
  {
    var edges := [(0, 1), (1, 2)];
    var least := map[0 := 0, 1 := 1, 2 := 0];
    PathTwoColoursSolution();
    assert LexLeq(3, s, least);
    assert edges[0] == (0, 1) && edges[1] == (1, 2);
    assert s[0] != s[1] && s[1] != s[2];
    assert forall v :: v in s <==> v in least;
    assert forall v :: v in s ==> s[v] == least[v];
  }
}
