/**
  A backtracking solver standing in for `problem.getSolution()`.

  Variables are assigned in declaration order; for each one the values of
  its domain are tried in order, a trial is kept only if no constraint
  between already-assigned variables is violated, and the search backs up
  when a variable has no value left. The first complete assignment found
  is returned; `None` means the problem has no solution.
 */
module Solver {
  import opened Wrappers
  import opened Csp

  /** The variables of `vars` are pairwise distinct and not yet assigned by `partial`. */
  predicate Unassigned<N(==)>(vars: seq<Var<N>>, partial: map<N, int>) {
    DistinctNames(vars) && forall v :: v in vars ==> v.name !in partial
  }

  /** `a` keeps `partial` and adds exactly the variables of `vars`, each from its domain. */
  ghost predicate Extends<N>(a: map<N, int>, partial: map<N, int>, vars: seq<Var<N>>) {
    && a.Keys == partial.Keys + Names(vars)
    && (forall x :: x in partial ==> a[x] == partial[x])
    && Covers(vars, a)
  }

  /** Assigns `vars` in order on top of `partial`. */
  function Search<N(==)>(vars: seq<Var<N>>, cs: seq<NotEqual<N>>, partial: map<N, int>): (r: Option<map<N, int>>)
    requires Unassigned(vars, partial)
    requires Consistent(cs, partial)
    ensures r.Some? ==> Extends(r.value, partial, vars) && Consistent(cs, r.value)
    decreases |vars|, 1, 0
  {
    if |vars| == 0 then Some(partial)
    else TryValues(vars, cs, partial, vars[0].domain)
  }

  /** Tries the candidate values `vals` for the first variable of `vars`, in order. */
  function TryValues<N(==)>(vars: seq<Var<N>>, cs: seq<NotEqual<N>>, partial: map<N, int>, vals: seq<int>): (r: Option<map<N, int>>)
    requires |vars| > 0
    requires Unassigned(vars, partial)
    requires Consistent(cs, partial)
    requires forall c :: c in vals ==> c in vars[0].domain
    ensures r.Some? ==> Extends(r.value, partial, vars) && Consistent(cs, r.value)
    decreases |vars|, 0, |vals|
  {
    if |vals| == 0 then None
    else
      var trial := partial[vars[0].name := vals[0]];
      if Consistent(cs, trial) then
        match Search(vars[1..], cs, trial)
        case Some(a) => Some(a)
        case None => TryValues(vars, cs, partial, vals[1..])
      else
        TryValues(vars, cs, partial, vals[1..])
  }

  /** The names of a non-empty list are its head's name and the names of its tail. */
  lemma NamesSplit<N>(vars: seq<Var<N>>)
    requires |vars| > 0
    ensures Names(vars) == {vars[0].name} + Names(vars[1..])
  {
  }

  /** A map that agrees with a consistent map on its own keys is consistent. */
  lemma ConsistentRestrict<N>(cs: seq<NotEqual<N>>, a: map<N, int>, b: map<N, int>)
    requires Consistent(cs, a)
    requires b.Keys <= a.Keys
    requires forall x :: x in b ==> b[x] == a[x]
    ensures Consistent(cs, b)
  {
  }

  /** Completeness: if some consistent extension of `partial` exists, the search finds one. */
  lemma {:induction false} SearchComplete<N>(vars: seq<Var<N>>, cs: seq<NotEqual<N>>, partial: map<N, int>, a: map<N, int>)
    requires Unassigned(vars, partial)
    requires Consistent(cs, partial)
    requires Extends(a, partial, vars) && Consistent(cs, a)
    ensures Search(vars, cs, partial).Some?
    decreases |vars|, 1, 0
  {
    if |vars| > 0 {
      TryValuesComplete(vars, cs, partial, vars[0].domain, a);
    }
  }

  /** If the value `a` gives the first variable is among `vals`, some value of `vals` succeeds. */
  lemma {:induction false} TryValuesComplete<N>(vars: seq<Var<N>>, cs: seq<NotEqual<N>>, partial: map<N, int>, vals: seq<int>, a: map<N, int>)
    requires |vars| > 0
    requires Unassigned(vars, partial)
    requires Consistent(cs, partial)
    requires forall c :: c in vals ==> c in vars[0].domain
    requires Extends(a, partial, vars) && Consistent(cs, a)
    requires a[vars[0].name] in vals
    ensures TryValues(vars, cs, partial, vals).Some?
    decreases |vars|, 0, |vals|
  {
    var x := vars[0].name;
    var trial := partial[x := vals[0]];
    if vals[0] == a[x] {
      ConsistentRestrict(cs, a, trial);
      NamesSplit(vars);
      assert Extends(a, trial, vars[1..]);
      SearchComplete(vars[1..], cs, trial, a);
    } else if Consistent(cs, trial) && Search(vars[1..], cs, trial).Some? {
    } else {
      TryValuesComplete(vars, cs, partial, vals[1..], a);
    }
  }

  /** `problem.getSolution()`: a solution, or `None` when there is none. */
  function Solve<N(==)>(p: Problem<N>): (r: Option<map<N, int>>)
    requires DistinctNames(p.vars)
    requires WellFormed(p)
    ensures r.Some? ==> IsSolution(p, r.value)
  {
    Search(p.vars, p.constraints, map[])
  }

  /** Every solvable problem is solved: `None` is returned only when no solution exists. */
  lemma SolveComplete<N>(p: Problem<N>, a: map<N, int>)
    requires DistinctNames(p.vars)
    requires WellFormed(p)
    requires IsSolution(p, a)
    ensures Solve(p).Some?
  {
    SearchComplete(p.vars, p.constraints, map[], a);
  }

  /** The solver decides solvability. */
  lemma SolveDecides<N>(p: Problem<N>)
    requires DistinctNames(p.vars)
    requires WellFormed(p)
    ensures Solve(p).Some? <==> exists a :: IsSolution(p, a)
  {
    if a :| IsSolution(p, a) {
      SolveComplete(p, a);
    }
  }
}
