/**
 * resolve_mv_problem of framework/mv_problem.py, without the solver: one
 * variable omega(a, b) per key of get_hyperlink, the constraints of
 * model_add_constrain (with its `in omega` guards), and the extraction of
 * the path from a solution. The solution is the function `sol` from a pair
 * of link labels to the value the solver gives omega of that pair; links
 * are their labels 1..L, in the order of graph.links.
 */
module FrameworkMvProblem {
  import opened Wrappers
  import opened GraphData
  import opened Constraints

  /** The loop over hyperlinks.keys() that creates the variables; `keys` are those keys. */
  method CreateOmega(keys: seq<Pair>) returns (vars: set<Pair>)
    ensures forall p :: p in vars <==> p in keys
  {
    vars := {};
    for t := 0 to |keys|
      invariant forall p :: p in vars <==> p in keys[..t]
    {
      assert keys[..t + 1] == keys[..t] + [keys[t]];
      vars := vars + {keys[t]};
    }
    assert keys[..|keys|] == keys;
  }

  /** Exactly one variable is created per ordered pair of links 1..L, and no other. */
  lemma OneVariablePerPair(L: nat, vars: set<Pair>)
    requires forall p :: p in vars <==> p in AllPairs(L)
    ensures forall p :: p in vars <==> 1 <= p.0 <= L && 1 <= p.1 <= L
    ensures |vars| == L * L
  {
    AllPairsMembers(L);
    var ps := AllPairs(L);
    forall p ensures multiset(ps)[p] <= 1 {
      AllPairsExactlyOnce(L, p);
    }
    assert vars == set p | p in ps;
    DistinctCard(ps);
  }

  /** A list without repeats has as many distinct elements as entries. */
  lemma {:induction false} DistinctCard(ps: seq<Pair>)
    requires forall p :: multiset(ps)[p] <= 1
    ensures |set p | p in ps| == |ps|
  {
    if ps != [] {
      var init, last := ps[..|ps| - 1], ps[|ps| - 1];
      assert ps == init + [last];
      assert multiset(ps) == multiset(init) + multiset{last};
      forall p ensures multiset(init)[p] <= 1 {
        assert multiset(ps)[p] == multiset(init)[p] + multiset{last}[p];
      }
      DistinctCard(init);
      assert multiset(ps)[last] == multiset(init)[last] + 1;
      assert last !in init;
      assert (set p | p in ps) == (set p | p in init) + {last};
    }
  }

  /** Link a is put on the path: some link b has omega(b, a) = omega(a, b) = 1. */
  predicate Matched(sol: Pair -> real, L: nat, a: nat)
  {
    exists b :: 1 <= b <= L && sol((b, a)) == 1.0 && sol((a, b)) == 1.0
  }

  /** The label scan over `path`, stopping at the first match. */
  method Contains(path: seq<nat>, a: nat) returns (found: bool)
    ensures found <==> a in path
  {
    found := false;
    var t := 0;
    while t < |path|
      invariant 0 <= t <= |path|
      invariant !found ==> a !in path[..t]
      invariant found ==> a in path
      decreases |path| - t, !found
    {
      if path[t] == a {
        found := true;
        break;
      }
      assert path[..t + 1] == path[..t] + [path[t]];
      t := t + 1;
    }
    assert path[..|path|] == path;
  }

  /**
   * The extraction loop. The path holds, in link order and once each, the
   * links a for which some b has omega(b, a) = omega(a, b) = 1; `warned`
   * lists the pairs that trigger the "arco inesistente" warning: each
   * off-diagonal pair whose value is exactly 1, once.
   */
  method ExtractPath(L: nat, sol: Pair -> real) returns (path: seq<nat>, warned: seq<Pair>)
    ensures forall x :: x in path <==> 1 <= x <= L && Matched(sol, L, x)
    ensures forall p, q :: 0 <= p < q < |path| ==> path[p] < path[q]
    ensures forall p :: p in warned <==> 1 <= p.0 <= L && 1 <= p.1 <= L && p.0 != p.1 && sol(p) == 1.0
    ensures forall p, q :: 0 <= p < q < |warned| ==> warned[p] != warned[q]
  {
    path, warned := [], [];
    for a := 1 to L + 1
      invariant forall x :: x in path <==> 1 <= x < a && Matched(sol, L, x)
      invariant forall t :: 0 <= t < |path| ==> path[t] < a
      invariant forall p, q :: 0 <= p < q < |path| ==> path[p] < path[q]
      invariant forall p :: p in warned <==> 1 <= p.0 <= L && 1 <= p.1 < a && p.0 != p.1 && sol(p) == 1.0
      invariant forall p, q :: 0 <= p < q < |warned| ==> warned[p] != warned[q]
    {
      path, warned := ExtractColumn(L, sol, a, path, warned);
    }
  }

  /** The inner loop of the extraction for link a: every link b against a. */
  method ExtractColumn(L: nat, sol: Pair -> real, a: nat, path0: seq<nat>, warned0: seq<Pair>)
    returns (path: seq<nat>, warned: seq<Pair>)
    requires 1 <= a <= L
    requires forall x :: x in path0 <==> 1 <= x < a && Matched(sol, L, x)
    requires forall t :: 0 <= t < |path0| ==> path0[t] < a
    requires forall p, q :: 0 <= p < q < |path0| ==> path0[p] < path0[q]
    requires forall p :: p in warned0 <==> 1 <= p.0 <= L && 1 <= p.1 < a && p.0 != p.1 && sol(p) == 1.0
    requires forall p, q :: 0 <= p < q < |warned0| ==> warned0[p] != warned0[q]
    ensures forall x :: x in path <==> 1 <= x < a + 1 && Matched(sol, L, x)
    ensures forall t :: 0 <= t < |path| ==> path[t] < a + 1
    ensures forall p, q :: 0 <= p < q < |path| ==> path[p] < path[q]
    ensures forall p :: p in warned <==> 1 <= p.0 <= L && 1 <= p.1 < a + 1 && p.0 != p.1 && sol(p) == 1.0
    ensures forall p, q :: 0 <= p < q < |warned| ==> warned[p] != warned[q]
  {
    path, warned := path0, warned0;
    for b := 1 to L + 1
      invariant forall x :: x in path <==>
        (1 <= x < a && Matched(sol, L, x)) || (x == a && exists c :: 1 <= c < b && sol((c, a)) == 1.0 && sol((a, c)) == 1.0)
      invariant forall t :: 0 <= t < |path| ==> path[t] <= a
      invariant forall p, q :: 0 <= p < q < |path| ==> path[p] < path[q]
      invariant forall p :: p in warned <==>
        1 <= p.0 <= L && p.0 != p.1 && sol(p) == 1.0 && (1 <= p.1 < a || (p.1 == a && p.0 < b))
      invariant forall p, q :: 0 <= p < q < |warned| ==> warned[p] != warned[q]
    {
      if sol((b, a)) == 1.0 {
        if a != b {
          warned := warned + [(b, a)];
        }
        if sol((a, b)) == 1.0 {
          var labelExists := Contains(path, a);
          if !labelExists {
            path := path + [a];
          }
        }
      }
    }
  }

  /**
   * resolve_mv_problem without the solver. With the variables of every
   * ordered pair, the guarded constraints are those of the unguarded
   * gurobipy version; the path and the "arco inesistente" warnings are
   * those of the extraction loop.
   */
  method ResolveMvProblem(nodes: seq<Node>, links: seq<Link>, start: Node, end: Node, sol: Pair -> real)
    returns (cs: seq<Constraint>, path: seq<nat>, warned: seq<Pair>)
    requires Wf(nodes, links)
    ensures cs == ConstraintList(nodes, start, end, None)
    ensures forall x :: x in path <==> 1 <= x <= |links| && Matched(sol, |links|, x)
    ensures forall p, q :: 0 <= p < q < |path| ==> path[p] < path[q]
    ensures forall p :: p in warned <==> 1 <= p.0 <= |links| && 1 <= p.1 <= |links| && p.0 != p.1 && sol(p) == 1.0
    ensures forall p, q :: 0 <= p < q < |warned| ==> warned[p] != warned[q]
  {
    var vars := CreateOmega(AllPairs(|links|));
    assert vars == PairSet(|links|);
    cs := AddConstraints(nodes, start, end, Some(vars));
    GuardNeverFilters(nodes, links, start, end);
    path, warned := ExtractPath(|links|, sol);
  }
}
