/**
 * resolve_mv_problem of mv_problem.py (the gurobipy version), without the
 * solver: model_add_constrain without membership guards, and the loop that
 * appends to travel.links every link a with some omega(a, b) exactly 1.
 * The solution is the function `sol`; links are their labels 1..L.
 */
module MvProblem {
  import opened Wrappers
  import opened GraphData
  import opened Constraints
  import opened Graphs

  /** The labels a of the pairs (a, b) of `ps` whose value is exactly 1, in order. */
  function OnesOf(ps: seq<Pair>, sol: Pair -> real): seq<nat>
  {
    if ps == [] then [] else OnesOf(ps[..|ps| - 1], sol) + (if sol(ps[|ps| - 1]) == 1.0 then [ps[|ps| - 1].0] else [])
  }

  /** A value that makes the source print "Errore": non-zero, and not 1 or off the diagonal. */
  predicate Faulty(p: Pair, sol: Pair -> real)
  {
    sol(p) != 0.0 && (sol(p) != 1.0 || p.0 != p.1)
  }

  /** The pairs of `ps` that are Faulty, in order. */
  function FaultsOf(ps: seq<Pair>, sol: Pair -> real): seq<Pair>
  {
    if ps == [] then [] else FaultsOf(ps[..|ps| - 1], sol) + (if Faulty(ps[|ps| - 1], sol) then [ps[|ps| - 1]] else [])
  }

  /** The inner loop over link b for a fixed link a. */
  method ExtractRow(travel: Travel, L: nat, a: nat, sol: Pair -> real) returns (errors: seq<Pair>)
    modifies travel
    ensures travel.links == old(travel.links) + OnesOf(Row(a, L), sol)
    ensures errors == FaultsOf(Row(a, L), sol)
  {
    errors := [];
    for b := 1 to L + 1
      invariant travel.links == old(travel.links) + OnesOf(Row(a, b - 1), sol)
      invariant errors == FaultsOf(Row(a, b - 1), sol)
    {
      assert Row(a, b)[..b - 1] == Row(a, b - 1) && Row(a, b)[b - 1] == (a, b);
      assert OnesOf(Row(a, b), sol) == OnesOf(Row(a, b - 1), sol) + (if sol((a, b)) == 1.0 then [a] else []);
      assert FaultsOf(Row(a, b), sol) == FaultsOf(Row(a, b - 1), sol) + (if Faulty((a, b), sol) then [(a, b)] else []);
      if sol((a, b)) != 0.0 {
        if sol((a, b)) == 1.0 {
          travel.links := travel.links + [a];
        }
        if sol((a, b)) != 1.0 || a != b {
          errors := errors + [(a, b)];
        }
      }
    }
  }

  /**
   * The extraction loop: travel.links is only appended to, with the links
   * of the pairs valued 1 in graph.links x graph.links order, and `errors`
   * lists the pairs for which "Errore" is printed.
   */
  method ExtractLinks(travel: Travel, L: nat, sol: Pair -> real) returns (errors: seq<Pair>)
    modifies travel
    ensures travel.links == old(travel.links) + OnesOf(AllPairs(L), sol)
    ensures errors == FaultsOf(AllPairs(L), sol)
  {
    errors := [];
    for a := 1 to L + 1
      invariant travel.links == old(travel.links) + OnesOf(Rows(a - 1, L), sol)
      invariant errors == FaultsOf(Rows(a - 1, L), sol)
    {
      var rowErrors := ExtractRow(travel, L, a, sol);
      AppendAssoc(old(travel.links), OnesOf(Rows(a - 1, L), sol), OnesOf(Row(a, L), sol));
      errors := errors + rowErrors;
      assert Rows(a, L) == Rows(a - 1, L) + Row(a, L);
      OnesOfAppend(Rows(a - 1, L), Row(a, L), sol);
      FaultsOfAppend(Rows(a - 1, L), Row(a, L), sol);
    }
  }

  /**
   * resolve_mv_problem: get_hyperlink raises (TypeError) on a missing
   * correlation before anything else happens; otherwise the constraints it
   * adds, then the extraction into the travel it returns.
   */
  method ResolveMvProblem(g: Graph, travel: Travel, sol: Pair -> real)
    returns (r: Result<(seq<Constraint>, seq<Pair>), GraphError>)
    requires g.Valid()
    requires 1 <= travel.origin <= |g.nodes| && 1 <= travel.destination <= |g.nodes|
    modifies travel
    ensures r.Err? <==> !AllCorrelated(g.links)
    ensures r.Err? ==> r.error.MissingCorrelation? && 1 <= r.error.a <= |g.links| && 1 <= r.error.b <= |g.links| && r.error.b !in g.links[r.error.a - 1].rho
    ensures r.Err? ==> travel.links == old(travel.links)
    ensures r.Ok? ==> r.value.0 == ConstraintList(g.nodes, g.nodes[travel.origin - 1], g.nodes[travel.destination - 1], None)
    ensures r.Ok? ==> travel.links == old(travel.links) + OnesOf(AllPairs(|g.links|), sol)
    ensures r.Ok? ==> r.value.1 == FaultsOf(AllPairs(|g.links|), sol)
  {
    var hyperlinks := g.GetHyperlink();
    if hyperlinks.Err? {
      return Err(hyperlinks.error);
    }
    var cs := AddConstraints(g.nodes, g.nodes[travel.origin - 1], g.nodes[travel.destination - 1], None);
    var errors := ExtractLinks(travel, |g.links|, sol);
    return Ok((cs, errors));
  }

  // ---------------------------------------------------------------------
  // What the extraction appends.
  // ---------------------------------------------------------------------

  lemma {:induction false} OnesOfAppend(ps: seq<Pair>, qs: seq<Pair>, sol: Pair -> real)
    ensures OnesOf(ps + qs, sol) == OnesOf(ps, sol) + OnesOf(qs, sol)
  {
    if qs != [] {
      var init := qs[..|qs| - 1];
      var last := qs[|qs| - 1];
      OnesOfAppend(ps, init, sol);
      assert (ps + qs)[..|ps + qs| - 1] == ps + init;
      assert (ps + qs)[|ps + qs| - 1] == last;
      assert OnesOf(ps + qs, sol) == OnesOf(ps + init, sol) + (if sol(last) == 1.0 then [last.0] else []);
      assert OnesOf(qs, sol) == OnesOf(init, sol) + (if sol(last) == 1.0 then [last.0] else []);
    } else {
      assert ps + qs == ps;
    }
  }

  lemma {:induction false} FaultsOfAppend(ps: seq<Pair>, qs: seq<Pair>, sol: Pair -> real)
    ensures FaultsOf(ps + qs, sol) == FaultsOf(ps, sol) + FaultsOf(qs, sol)
  {
    if qs != [] {
      var init := qs[..|qs| - 1];
      var last := qs[|qs| - 1];
      FaultsOfAppend(ps, init, sol);
      assert (ps + qs)[..|ps + qs| - 1] == ps + init;
      assert (ps + qs)[|ps + qs| - 1] == last;
      assert FaultsOf(ps + qs, sol) == FaultsOf(ps + init, sol) + (if Faulty(last, sol) then [last] else []);
      assert FaultsOf(qs, sol) == FaultsOf(init, sol) + (if Faulty(last, sol) then [last] else []);
    } else {
      assert ps + qs == ps;
    }
  }

  /** The number of links b in 1..c with omega(a, b) exactly 1. */
  function OnesInRow(a: nat, c: nat, sol: Pair -> real): nat
  {
    if c == 0 then 0 else OnesInRow(a, c - 1, sol) + (if sol((a, c)) == 1.0 then 1 else 0)
  }

  lemma {:induction false} RowOnes(a: nat, c: nat, sol: Pair -> real, x: nat)
    ensures Occurrences(OnesOf(Row(a, c), sol), x) == if x == a then OnesInRow(a, c, sol) else 0
  {
    if c > 0 {
      RowOnes(a, c - 1, sol, x);
      assert Row(a, c)[..c - 1] == Row(a, c - 1);
      var last: seq<nat> := if sol((a, c)) == 1.0 then [a] else [];
      assert OnesOf(Row(a, c), sol) == OnesOf(Row(a, c - 1), sol) + last;
      OccurrencesAppend(OnesOf(Row(a, c - 1), sol), last, x);
      assert Occurrences(last, x) == if x == a && sol((a, c)) == 1.0 then 1 else 0 by {
        if last != [] {
          assert last[..0] == [];
        }
      }
    }
  }

  lemma {:induction false} RowsOnes(r: nat, L: nat, sol: Pair -> real, x: nat)
    ensures Occurrences(OnesOf(Rows(r, L), sol), x) == if 1 <= x <= r then OnesInRow(x, L, sol) else 0
  {
    if r > 0 {
      RowsOnes(r - 1, L, sol, x);
      RowOnes(r, L, sol, x);
      OnesOfAppend(Rows(r - 1, L), Row(r, L), sol);
      OccurrencesAppend(OnesOf(Rows(r - 1, L), sol), OnesOf(Row(r, L), sol), x);
    }
  }

  /**
   * Link a is appended once for every link b with omega(a, b) exactly 1,
   * so a link appears as often as its row of the solution holds ones: more
   * than once as soon as two values of its row are 1.
   */
  lemma AppendedCount(L: nat, sol: Pair -> real, x: nat)
    ensures multiset(OnesOf(AllPairs(L), sol))[x] == if 1 <= x <= L then OnesInRow(x, L, sol) else 0
  {
    RowsOnes(L, L, sol, x);
    OccurrencesMultiset(OnesOf(AllPairs(L), sol), x);
  }

  /** omega(a, b) = 1 exactly for a, b in {1, 2}. */
  function TwoLinkPath(p: Pair): real
  {
    if 1 <= p.0 <= 2 && 1 <= p.1 <= 2 then 1.0 else 0.0
  }

  /**
   * A solution that puts links 1 and 2 on a path (omega(a, b) = 1 for a, b
   * in {1, 2}) makes travel.links list each of them twice.
   */
  lemma TwoLinkPathAppendedTwice()
    ensures OnesOf(AllPairs(2), TwoLinkPath) == [1, 1, 2, 2]
  {
    var sol := TwoLinkPath;
    assert Row(1, 2) == [(1, 1), (1, 2)];
    assert Row(2, 2) == [(2, 1), (2, 2)];
    assert AllPairs(2) == [(1, 1), (1, 2), (2, 1), (2, 2)];
    assert OnesOf([(1, 1)], sol) == [1] by {
      assert [(1, 1)][..0] == [];
    }
    assert OnesOf([(1, 1), (1, 2)], sol) == [1, 1] by {
      assert [(1, 1), (1, 2)][..1] == [(1, 1)];
    }
    assert OnesOf([(1, 1), (1, 2), (2, 1)], sol) == [1, 1, 2] by {
      assert [(1, 1), (1, 2), (2, 1)][..2] == [(1, 1), (1, 2)];
    }
    assert [(1, 1), (1, 2), (2, 1), (2, 2)][..3] == [(1, 1), (1, 2), (2, 1)];
  }

  lemma {:induction false} FaultsOfCount(ps: seq<Pair>, sol: Pair -> real, p: Pair)
    ensures multiset(FaultsOf(ps, sol))[p] == if Faulty(p, sol) then multiset(ps)[p] else 0
  {
    if ps != [] {
      var init := ps[..|ps| - 1];
      FaultsOfCount(init, sol, p);
      assert ps == init + [ps[|ps| - 1]];
    }
  }

  /**
   * "Errore" is printed exactly once for each ordered pair of links whose
   * value is non-zero and either not exactly 1 or off the diagonal.
   */
  lemma FaultsSpec(L: nat, sol: Pair -> real, p: Pair)
    ensures multiset(FaultsOf(AllPairs(L), sol))[p] == if 1 <= p.0 <= L && 1 <= p.1 <= L && Faulty(p, sol) then 1 else 0
  {
    FaultsOfCount(AllPairs(L), sol, p);
    AllPairsExactlyOnce(L, p);
  }
}
