/**
  The constraint problem that `color_regions` hands to its solver: named
  variables, each with a finite integer domain, and binary "not equal"
  constraints between variable names.
 */
module Csp {

  /** `problem.addVariable(name, domain)`. */
  datatype Var<N> = Var(name: N, domain: seq<int>)

  /** `problem.addConstraint(lambda a, b: a != b, (x, y))`. */
  datatype NotEqual<N> = NotEqual(x: N, y: N)

  datatype Problem<N> = Problem(vars: seq<Var<N>>, constraints: seq<NotEqual<N>>)

  /** Python's `range(k)`: the integers 0, 1, ..., k - 1 in increasing order. */
  function Range(k: nat): (r: seq<int>)
    ensures |r| == k
    ensures forall i :: 0 <= i < k ==> r[i] == i
    ensures forall c :: c in r <==> 0 <= c < k
  {
    var s := seq(k, i requires 0 <= i < k => i);
    assert forall c :: 0 <= c < k ==> c in s by {
      forall c | 0 <= c < k
        ensures c in s
      {
        assert s[c] == c;
      }
    }
    s
  }

  /** The names of a list of variables. */
  function Names<N>(vars: seq<Var<N>>): set<N> {
    set v | v in vars :: v.name
  }

  /** No name is declared twice (the library rejects a duplicated variable). */
  predicate DistinctNames<N(==)>(vars: seq<Var<N>>) {
    forall i, j :: 0 <= i < |vars| && 0 <= j < |vars| && i != j ==> vars[i].name != vars[j].name
  }

  /** Every constraint mentions declared variables only. */
  predicate WellFormed<N(==)>(p: Problem<N>) {
    forall c :: c in p.constraints ==> c.x in Names(p.vars) && c.y in Names(p.vars)
  }

  /** No constraint is violated among the variables `a` already assigns. */
  predicate Consistent<N>(cs: seq<NotEqual<N>>, a: map<N, int>) {
    forall c :: c in cs && c.x in a && c.y in a ==> a[c.x] != a[c.y]
  }

  /** Every variable of `vars` is assigned a value from its own domain. */
  predicate Covers<N>(vars: seq<Var<N>>, a: map<N, int>) {
    forall v :: v in vars ==> v.name in a && a[v.name] in v.domain
  }

  /** The contract of `problem.getSolution()`: one value per declared
      variable and nothing else, each value from that variable's domain,
      and every constraint satisfied. */
  predicate IsSolution<N>(p: Problem<N>, a: map<N, int>) {
    && a.Keys == Names(p.vars)
    && Covers(p.vars, a)
    && forall c :: c in p.constraints ==> c.x in a && c.y in a && a[c.x] != a[c.y]
  }
}
