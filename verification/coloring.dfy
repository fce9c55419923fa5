/**
  `color_regions`: turn the regions and their adjacency matrix into a
  constraint problem over the palette `range(num_colors)` and solve it.
 */
module Coloring {
  import opened Wrappers
  import opened Adjacency
  import opened Csp
  import opened Solver

  /** The region identifiers are pairwise distinct (the identifier column holds unique values). */
  predicate Distinct<N(==)>(nodes: seq<N>) {
    forall i, j :: 0 <= i < |nodes| && 0 <= j < |nodes| && i != j ==> nodes[i] != nodes[j]
  }

  /** A region in front of distinct regions keeps them distinct exactly when it is new. */
  lemma DistinctCons<N>(v: N, s: seq<N>)
    ensures Distinct([v] + s) <==> v !in s && Distinct(s)
  {
    var t := [v] + s;
    assert forall i :: 0 <= i < |s| ==> t[i + 1] == s[i];
    if Distinct(t) {
      forall i | 0 <= i < |s|
        ensures s[i] != v
      {
        assert t[i + 1] != t[0];
      }
    }
  }

  /** One variable per region, in region order, each with domain `range(k)`. */
  function Variables<N>(nodes: seq<N>, k: nat): (vs: seq<Var<N>>)
    ensures |vs| == |nodes|
    ensures Names(vs) == set x | x in nodes
    ensures forall v :: v in vs ==> forall c :: c in v.domain <==> 0 <= c < k
  {
    var vs := seq(|nodes|, i requires 0 <= i < |nodes| => Var(nodes[i], Range(k)));
    assert forall i :: 0 <= i < |nodes| ==> vs[i] in vs && vs[i].name == nodes[i];
    assert forall v :: v in vs ==> v.domain == Range(k);
    vs
  }

  /** The constraints contributed by column `i` of the matrix, rows `j` onwards:
      one `nodes[i] != nodes[j']` per row `j'` whose entry in that column is set. */
  function ColumnConstraints<N>(nodes: seq<N>, m: Matrix, i: nat, j: nat): seq<NotEqual<N>>
    requires IsSquare(m, |nodes|)
    requires i < |nodes| && j <= |nodes|
    decreases |nodes| - j
  {
    if j == |nodes| then []
    else (if m[j][i] then [NotEqual(nodes[i], nodes[j])] else []) + ColumnConstraints(nodes, m, i, j + 1)
  }

  /** The constraints contributed by columns `i` onwards, column by column. */
  function ConstraintsFrom<N>(nodes: seq<N>, m: Matrix, i: nat): seq<NotEqual<N>>
    requires IsSquare(m, |nodes|)
    requires i <= |nodes|
    decreases |nodes| - i
  {
    if i == |nodes| then []
    else ColumnConstraints(nodes, m, i, 0) + ConstraintsFrom(nodes, m, i + 1)
  }

  /** The problem built by the loop over the matrix's columns. */
  function BuildProblem<N>(nodes: seq<N>, m: Matrix, k: nat): Problem<N>
    requires IsSquare(m, |nodes|)
  {
    Problem(Variables(nodes, k), ConstraintsFrom(nodes, m, 0))
  }

  /** Constraint `c` comes from a set entry of column `i'` (with `lo <= i'`) and row `j'` of `m`. */
  ghost predicate MarkedFrom<N>(nodes: seq<N>, m: Matrix, lo: nat, c: NotEqual<N>)
    requires IsSquare(m, |nodes|)
  {
    exists i', j' :: lo <= i' < |nodes| && 0 <= j' < |nodes| && m[j'][i'] && c == NotEqual(nodes[i'], nodes[j'])
  }

  lemma {:induction false} ColumnConstraintsExact<N>(nodes: seq<N>, m: Matrix, i: nat, j: nat)
    requires IsSquare(m, |nodes|)
    requires i < |nodes| && j <= |nodes|
    ensures forall j' :: j <= j' < |nodes| && m[j'][i] ==> NotEqual(nodes[i], nodes[j']) in ColumnConstraints(nodes, m, i, j)
    ensures forall c :: c in ColumnConstraints(nodes, m, i, j) ==> MarkedFrom(nodes, m, i, c)
    decreases |nodes| - j
  {
    if j < |nodes| {
      ColumnConstraintsExact(nodes, m, i, j + 1);
      var cc := ColumnConstraints(nodes, m, i, j);
      forall c | c in cc
        ensures MarkedFrom(nodes, m, i, c)
      {
        if c !in ColumnConstraints(nodes, m, i, j + 1) {
          assert m[j][i] && c == NotEqual(nodes[i], nodes[j]);
        }
      }
    }
  }

  lemma {:induction false} ConstraintsFromExact<N>(nodes: seq<N>, m: Matrix, i: nat)
    requires IsSquare(m, |nodes|)
    requires i <= |nodes|
    ensures forall i', j' :: i <= i' < |nodes| && 0 <= j' < |nodes| && m[j'][i'] ==> NotEqual(nodes[i'], nodes[j']) in ConstraintsFrom(nodes, m, i)
    ensures forall c :: c in ConstraintsFrom(nodes, m, i) ==> MarkedFrom(nodes, m, i, c)
    decreases |nodes| - i
  {
    if i < |nodes| {
      ColumnConstraintsExact(nodes, m, i, 0);
      ConstraintsFromExact(nodes, m, i + 1);
      forall c | c in ConstraintsFrom(nodes, m, i)
        ensures MarkedFrom(nodes, m, i, c)
      {
        if c in ColumnConstraints(nodes, m, i, 0) {
          assert MarkedFrom(nodes, m, i, c);
        } else {
          assert MarkedFrom(nodes, m, i + 1, c);
        }
      }
    }
  }

  /** A `!=` constraint between `nodes[i]` and `nodes[j]` exists exactly when
      column `i` of the matrix marks row `j`, and every constraint is between regions. */
  lemma ConstraintsMatchMatrix<N>(nodes: seq<N>, m: Matrix, k: nat)
    requires Distinct(nodes)
    requires IsSquare(m, |nodes|)
    ensures forall i, j :: 0 <= i < |nodes| && 0 <= j < |nodes| ==>
      (NotEqual(nodes[i], nodes[j]) in BuildProblem(nodes, m, k).constraints <==> m[j][i])
    ensures forall c :: c in BuildProblem(nodes, m, k).constraints ==> c.x in nodes && c.y in nodes
  {
    ConstraintsFromExact(nodes, m, 0);
  }

  /** Every region becomes exactly one variable, with domain `[0, k)`. */
  lemma VariablesMatchRegions<N>(nodes: seq<N>, k: nat)
    requires Distinct(nodes)
    ensures DistinctNames(Variables(nodes, k))
    ensures forall x :: x in nodes <==> x in Names(Variables(nodes, k))
    ensures forall v, c :: v in Variables(nodes, k) ==> (c in v.domain <==> 0 <= c < k)
  {
  }

  /** The built problem is one the solver accepts. */
  lemma BuildProblemWellFormed<N>(nodes: seq<N>, m: Matrix, k: nat)
    requires Distinct(nodes)
    requires IsSquare(m, |nodes|)
    ensures DistinctNames(BuildProblem(nodes, m, k).vars)
    ensures WellFormed(BuildProblem(nodes, m, k))
  {
    VariablesMatchRegions(nodes, k);
    ConstraintsMatchMatrix(nodes, m, k);
  }

  /** With the diagonal cleared, no region is constrained against itself. */
  lemma NoSelfConstraint<N>(nodes: seq<N>, m: Matrix, k: nat)
    requires Distinct(nodes)
    requires IsSquare(m, |nodes|)
    ensures forall c :: c in BuildProblem(nodes, ClearDiagonal(m), k).constraints ==> c.x != c.y
  {
    ConstraintsFromExact(nodes, ClearDiagonal(m), 0);
  }

  /** For a symmetric touch relation the constrained unordered pairs are exactly the adjacent pairs. */
  lemma ConstrainedPairsAreAdjacentPairs<N>(nodes: seq<N>, m: Matrix, k: nat)
    requires Distinct(nodes)
    requires IsSquare(m, |nodes|)
    requires Symmetric(m)
    ensures forall i, j :: 0 <= i < |nodes| && 0 <= j < |nodes| ==>
      var cs := BuildProblem(nodes, ClearDiagonal(m), k).constraints;
      (NotEqual(nodes[i], nodes[j]) in cs <==> NotEqual(nodes[j], nodes[i]) in cs) &&
      (NotEqual(nodes[i], nodes[j]) in cs <==> i != j && m[i][j])
  {
    ConstraintsMatchMatrix(nodes, ClearDiagonal(m), k);
  }

  /** `a` is a proper coloring of the regions with palette `[0, k)`: it colors
      every region and nothing else, and regions whose matrix entry is set
      (in either direction) get different colors. */
  ghost predicate ProperColoring<N>(nodes: seq<N>, m: Matrix, k: nat, a: map<N, int>)
    requires IsSquare(m, |nodes|)
  {
    && a.Keys == (set x | x in nodes)
    && (forall x :: x in nodes ==> 0 <= a[x] < k)
    && (forall i, j :: 0 <= i < |nodes| && 0 <= j < |nodes| && i != j && m[i][j] ==> a[nodes[i]] != a[nodes[j]])
  }

  /** A map covers the variables exactly when it colors every region from `[0, k)`. */
  lemma CoversMeansPalette<N>(nodes: seq<N>, k: nat, a: map<N, int>)
    ensures Covers(Variables(nodes, k), a) <==> forall x :: x in nodes ==> x in a && 0 <= a[x] < k
  {
    var vs := Variables(nodes, k);
    assert forall i :: 0 <= i < |nodes| ==> vs[i].name == nodes[i] && vs[i] in vs;
    if Covers(vs, a) {
      forall x | x in nodes
        ensures x in a && 0 <= a[x] < k
      {
        var i :| 0 <= i < |nodes| && nodes[i] == x;
        assert vs[i] in vs;
      }
    }
  }

  /** Every solution of the built problem is a proper coloring. */
  lemma SolutionIsColoring<N>(nodes: seq<N>, m: Matrix, k: nat, a: map<N, int>)
    requires Distinct(nodes)
    requires IsSquare(m, |nodes|)
    requires IsSolution(BuildProblem(nodes, ClearDiagonal(m), k), a)
    ensures ProperColoring(nodes, m, k, a)
  {
    var cm := ClearDiagonal(m);
    var p := BuildProblem(nodes, cm, k);
    CoversMeansPalette(nodes, k, a);
    ConstraintsMatchMatrix(nodes, cm, k);
    forall i, j | 0 <= i < |nodes| && 0 <= j < |nodes| && i != j && m[i][j]
      ensures a[nodes[i]] != a[nodes[j]]
    {
      assert cm[i][j];
      assert NotEqual(nodes[j], nodes[i]) in p.constraints;
    }
  }

  /** Every proper coloring is a solution of the built problem. */
  lemma ColoringIsSolution<N>(nodes: seq<N>, m: Matrix, k: nat, a: map<N, int>)
    requires Distinct(nodes)
    requires IsSquare(m, |nodes|)
    requires ProperColoring(nodes, m, k, a)
    ensures IsSolution(BuildProblem(nodes, ClearDiagonal(m), k), a)
  {
    var cm := ClearDiagonal(m);
    var p := BuildProblem(nodes, cm, k);
    CoversMeansPalette(nodes, k, a);
    ConstraintsMatchMatrix(nodes, cm, k);
    forall c | c in p.constraints
      ensures c.x in a && c.y in a && a[c.x] != a[c.y]
    {
      var i :| 0 <= i < |nodes| && nodes[i] == c.x;
      var j :| 0 <= j < |nodes| && nodes[j] == c.y;
      assert NotEqual(nodes[i], nodes[j]) in p.constraints;
      assert cm[j][i];
    }
  }

  /** `ValueError` from `np.fill_diagonal`: with no regions the list of touch
      rows is empty and `np.array` builds a one-dimensional array. */
  datatype ColorError = NotTwoDimensional

  /** `color_regions(df, col, num_colors)`: clear the diagonal of the touch
      matrix, build the problem and solve it. `Success(None)` is the solver's
      `None`. */
  function ColorRegions<N(==)>(nodes: seq<N>, m: Matrix, k: nat): (r: Result<Option<map<N, int>>, ColorError>)
    requires Distinct(nodes)
    requires IsSquare(m, |nodes|)
    ensures r.Failure? <==> |nodes| == 0
    ensures r.Success? && r.value.Some? ==> ProperColoring(nodes, m, k, r.value.value)
  {
    if |nodes| == 0 then Failure(NotTwoDimensional)
    else
      var p := BuildProblem(nodes, ClearDiagonal(m), k);
      BuildProblemWellFormed(nodes, ClearDiagonal(m), k);
      var r := Solve(p);
      if r.Some? then SolutionIsColoring(nodes, m, k, r.value); Success(r) else Success(r)
  }

  /** With at least one region, `None` is returned only when no proper coloring exists. */
  lemma ColorRegionsComplete<N>(nodes: seq<N>, m: Matrix, k: nat, a: map<N, int>)
    requires Distinct(nodes)
    requires IsSquare(m, |nodes|)
    requires ProperColoring(nodes, m, k, a)
    ensures ColorRegions(nodes, m, k).Success? ==> ColorRegions(nodes, m, k).value.Some?
  {
    var cm := ClearDiagonal(m);
    BuildProblemWellFormed(nodes, cm, k);
    ColoringIsSolution(nodes, m, k, a);
    SolveComplete(BuildProblem(nodes, cm, k), a);
  }

  /** Once the matrix is built, coloring succeeds exactly when the regions are
      `k`-colorable. */
  lemma ColorRegionsDecides<N>(nodes: seq<N>, m: Matrix, k: nat)
    requires Distinct(nodes)
    requires IsSquare(m, |nodes|)
    ensures ColorRegions(nodes, m, k).Success? ==>
      (ColorRegions(nodes, m, k).value.Some? <==> exists a :: ProperColoring(nodes, m, k, a))
  {
    if a :| ProperColoring(nodes, m, k, a) {
      ColorRegionsComplete(nodes, m, k, a);
    }
  }

  /** A solution for palette `range(k)` is a solution for any larger palette. */
  lemma WiderPaletteKeepsSolutions<N>(nodes: seq<N>, m: Matrix, k: nat, k': nat, a: map<N, int>)
    requires Distinct(nodes)
    requires IsSquare(m, |nodes|)
    requires k <= k'
    requires IsSolution(BuildProblem(nodes, ClearDiagonal(m), k), a)
    ensures IsSolution(BuildProblem(nodes, ClearDiagonal(m), k'), a)
  {
  }

  /** If the regions can be colored with `k` colors, they can be colored with any `k' >= k`. */
  lemma WiderPaletteStillColors<N>(nodes: seq<N>, m: Matrix, k: nat, k': nat)
    requires Distinct(nodes)
    requires IsSquare(m, |nodes|)
    requires k <= k'
    requires ColorRegions(nodes, m, k).Success? && ColorRegions(nodes, m, k).value.Some?
    ensures ColorRegions(nodes, m, k').Success? && ColorRegions(nodes, m, k').value.Some?
  {
    var a := ColorRegions(nodes, m, k).value.value;
    ColorRegionsComplete(nodes, m, k', a);
  }
}
