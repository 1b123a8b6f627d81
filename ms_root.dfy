/**
 * branch_and_bound and resolve_ms_problem of ms_problem.py.
 *
 * This branch_and_bound has no try clause and no depth counter: the secant
 * objective and calc raise on a negative bound or an empty bracket, a
 * solution that cannot be read raises, and otherwise the call either stops
 * at the test on the midpoint, appending to travel.links the link a of
 * every pair (a, b) valued exactly 1, or calls itself on the new bracket.
 * Nothing bounds that recursion but Python's own limit, which the model
 * stands in for with `fuel`: the number of further calls allowed.
 *
 * resolve_ms_problem does not call it: it computes u0 and runs the
 * branch_and_bound of temp.py with gamma 6.
 */
module MsProblem {
  import opened Wrappers
  import opened GraphData
  import opened Bisection
  import opened Graphs
  import TempBisection
  import MvProblem

  const MsEpsilon: real := 0.0005
  const Gamma: real := 6.0

  /**
   * How a run ends: at the stopping test, in the call for bracket (lb, ub)
   * whose new bracket is (newLb, newUb), after appending `appended`; at an
   * exception, which propagates and appends nothing; or out of fuel.
   */
  datatype MsEnd =
    | Finished(appended: seq<nat>, lb: real, ub: real, newLb: real, newUb: real)
    | Failed
    | OutOfFuel

  /** What travel.links gains from a run. */
  function Gained(e: MsEnd): seq<nat>
  {
    if e.Finished? then e.appended else []
  }

  /** calc(lb, eta_star) and calc(eta_star, ub) take square roots of and divide by the differences of their bounds. */
  predicate CalcFails(lb: real, ub: real, eta: real)
  {
    ObjectiveFails(lb, eta) || ObjectiveFails(eta, ub)
  }

  /** branch_and_bound(lb, ub, graph, gamma) as written, with `fuel` further calls allowed. */
  function MsRun(lb: real, ub: real, L: nat, phi: Pair -> real, gamma: real, solve: Solver, fuel: nat): MsEnd
    decreases fuel
  {
    if ObjectiveFails(lb, ub) then Failed
    else match solve(gamma, lb, ub)
      case Raised => Failed
      case Solved(sol, _, valLower, valUpper) =>
        var eta := Eta(AllPairs(L), phi, sol);
        if CalcFails(lb, ub, eta) then Failed
        else
          var (newLb, newUb) := NewBracket(lb, ub, eta, valLower, valUpper);
          if Mid(newLb, newUb) - Mid(lb, ub) < MsEpsilon then
            Finished(TempBisection.Ones(L, sol), lb, ub, newLb, newUb)
          else if fuel == 0 then OutOfFuel
          else MsRun(newLb, newUb, L, phi, gamma, solve, fuel - 1)
  }

  /**
   * The recursion as a loop, eta_star accumulated by the loop of lines
   * 47-50, and the final links appended in place.
   */
  method BranchAndBound(travel: Travel, lb0: real, ub0: real, L: nat, phi: Pair -> real, gamma: real, solve: Solver, fuel0: nat)
    returns (e: MsEnd)
    modifies travel
    ensures e == MsRun(lb0, ub0, L, phi, gamma, solve, fuel0)
    ensures travel.links == old(travel.links) + Gained(e)
  {
    var lb, ub, fuel := lb0, ub0, fuel0;
    while true
      invariant MsRun(lb, ub, L, phi, gamma, solve, fuel) == MsRun(lb0, ub0, L, phi, gamma, solve, fuel0)
      invariant travel.links == old(travel.links)
      decreases fuel
    {
      if ObjectiveFails(lb, ub) {
        return Failed;
      }
      var step := solve(gamma, lb, ub);
      if step.Raised? {
        return Failed;
      }
      var eta := EtaStar(L, phi, step.sol);
      if CalcFails(lb, ub, eta) {
        return Failed;
      }
      var newLb, newUb := if step.valLower < step.valUpper then lb else eta, if step.valLower < step.valUpper then eta else ub;
      if Mid(newLb, newUb) - Mid(lb, ub) < MsEpsilon {
        var _ := MvProblem.ExtractLinks(travel, L, step.sol);
        return Finished(TempBisection.Ones(L, step.sol), lb, ub, newLb, newUb);
      }
      if fuel == 0 {
        return OutOfFuel;
      }
      lb, ub, fuel := newLb, newUb, fuel - 1;
    }
  }

  /**
   * A run stops in a call whose new bracket is one of the halves of its
   * bracket at that call's eta_star, whose midpoint moved by less than
   * epsilon (signed), and travel.links gains that call's links.
   */
  lemma {:induction false} StopsAtSignedTest(lb: real, ub: real, L: nat, phi: Pair -> real, gamma: real, solve: Solver, fuel: nat)
    ensures var e := MsRun(lb, ub, L, phi, gamma, solve, fuel);
      e.Finished? ==> (
        var s := solve(gamma, e.lb, e.ub);
        && !ObjectiveFails(e.lb, e.ub) && s.Solved?
        && !CalcFails(e.lb, e.ub, Eta(AllPairs(L), phi, s.sol))
        && (e.newLb, e.newUb) == NewBracket(e.lb, e.ub, Eta(AllPairs(L), phi, s.sol), s.valLower, s.valUpper)
        && Mid(e.newLb, e.newUb) - Mid(e.lb, e.ub) < MsEpsilon
        && e.appended == TempBisection.Ones(L, s.sol))
    decreases fuel
  {
    if !ObjectiveFails(lb, ub) && solve(gamma, lb, ub).Solved? && fuel > 0 {
      var s := solve(gamma, lb, ub);
      var eta := Eta(AllPairs(L), phi, s.sol);
      var (l, u) := NewBracket(lb, ub, eta, s.valLower, s.valUpper);
      if !CalcFails(lb, ub, eta) && Mid(l, u) - Mid(lb, ub) >= MsEpsilon {
        StopsAtSignedTest(l, u, L, phi, gamma, solve, fuel - 1);
      }
    }
  }

  /**
   * With eta_star inside the bracket, every call that does not stop
   * narrows the bracket by at least 2 * epsilon, so a run from (lb, ub)
   * ends within (ub - lb) / (2 * epsilon) recursive calls: more fuel
   * than that never runs out.
   */
  lemma {:induction false} RecursionBounded(lb: real, ub: real, L: nat, phi: Pair -> real, gamma: real, solve: Solver, fuel: nat)
    requires lb <= ub && EtaInBracket(L, phi, gamma, solve)
    ensures MsRun(lb, ub, L, phi, gamma, solve, fuel) == OutOfFuel ==> (fuel + 1) as real * 2.0 * MsEpsilon <= ub - lb
    decreases fuel
  {
    if !ObjectiveFails(lb, ub) && solve(gamma, lb, ub).Solved? {
      var s := solve(gamma, lb, ub);
      var eta := Eta(AllPairs(L), phi, s.sol);
      assert lb <= eta <= ub;
      var (l, u) := NewBracket(lb, ub, eta, s.valLower, s.valUpper);
      if !CalcFails(lb, ub, eta) && Mid(l, u) - Mid(lb, ub) >= MsEpsilon {
        assert (l, u) == (eta, ub);
        assert u - l <= (ub - lb) - 2.0 * MsEpsilon;
        if fuel > 0 {
          RecursionBounded(l, u, L, phi, gamma, solve, fuel - 1);
        }
      }
    }
  }

  /**
   * The signed test stops at the first call that takes the lower half:
   * its midpoint moves down, by however much.
   */
  lemma StopsOnLowerHalf(lb: real, ub: real, L: nat, phi: Pair -> real, gamma: real, solve: Solver, fuel: nat)
    requires !ObjectiveFails(lb, ub) && solve(gamma, lb, ub).Solved?
    requires var s := solve(gamma, lb, ub);
      var eta := Eta(AllPairs(L), phi, s.sol);
      !CalcFails(lb, ub, eta) && eta <= ub && s.valLower < s.valUpper
    ensures var e := MsRun(lb, ub, L, phi, gamma, solve, fuel);
      e.Finished? && e.lb == lb && e.ub == ub && e.newLb == lb
  {
  }

  // ---------------------------------------------------------------------
  // The signed stopping test, and the evidently intended absolute one.
  // ---------------------------------------------------------------------

  /** phi is 50 on every pair. */
  function Phi50(p: Pair): real
  {
    50.0
  }

  /** Every value of the solution is 1. */
  function AllOnes(p: Pair): real
  {
    1.0
  }

  /** A solver that always prefers the lower half. */
  function LowerSolver(gamma: real, lb: real, ub: real): Step
  {
    Solved(AllOnes, true, 0.0, 1.0)
  }

  /**
   * One link, phi 50, bracket (0, 100): eta_star is 50, the lower half
   * (0, 50) is taken, and its midpoint 25 is 25 below the old one. The
   * signed test stops there, though the midpoint moved by far more than
   * epsilon.
   */
  lemma SignedTestStopsEarly()
    ensures var e := MsRun(0.0, 100.0, 1, Phi50, Gamma, LowerSolver, 10);
      e.Finished? && e.lb == 0.0 && e.ub == 100.0 && (e.newLb, e.newUb) == (0.0, 50.0)
      && Abs(Mid(e.newLb, e.newUb) - Mid(e.lb, e.ub)) >= MsEpsilon
  {
    assert AllPairs(1) == [(1, 1)] by {
      assert Row(1, 1) == [(1, 1)];
    }
    assert Eta(AllPairs(1), Phi50, AllOnes) == 50.0 by {
      assert [(1, 1)][..0] == [];
      assert Weighted(Phi50, AllOnes)((1, 1)) == 50.0;
    }
  }

  /** The evidently intended run: it stops when the midpoint moves by less than epsilon either way. */
  function MsRunIntended(lb: real, ub: real, L: nat, phi: Pair -> real, gamma: real, solve: Solver, fuel: nat): MsEnd
    decreases fuel
  {
    if ObjectiveFails(lb, ub) then Failed
    else match solve(gamma, lb, ub)
      case Raised => Failed
      case Solved(sol, _, valLower, valUpper) =>
        var eta := Eta(AllPairs(L), phi, sol);
        if CalcFails(lb, ub, eta) then Failed
        else
          var (newLb, newUb) := NewBracket(lb, ub, eta, valLower, valUpper);
          if Abs(Mid(newLb, newUb) - Mid(lb, ub)) < MsEpsilon then
            Finished(TempBisection.Ones(L, sol), lb, ub, newLb, newUb)
          else if fuel == 0 then OutOfFuel
          else MsRunIntended(newLb, newUb, L, phi, gamma, solve, fuel - 1)
  }

  /**
   * The intended run stops only once the bracket has settled: the last
   * move of the midpoint is below epsilon in size. With eta_star inside
   * the bracket it still ends within (ub - lb) / (2 * epsilon) calls.
   */
  lemma {:induction false} IntendedStopsWhenSettled(lb: real, ub: real, L: nat, phi: Pair -> real, gamma: real, solve: Solver, fuel: nat)
    ensures var e := MsRunIntended(lb, ub, L, phi, gamma, solve, fuel);
      e.Finished? ==> Abs(Mid(e.newLb, e.newUb) - Mid(e.lb, e.ub)) < MsEpsilon
    ensures lb <= ub && EtaInBracket(L, phi, gamma, solve) && MsRunIntended(lb, ub, L, phi, gamma, solve, fuel) == OutOfFuel
      ==> (fuel + 1) as real * 2.0 * MsEpsilon <= ub - lb
    decreases fuel
  {
    if !ObjectiveFails(lb, ub) && solve(gamma, lb, ub).Solved? {
      var s := solve(gamma, lb, ub);
      var eta := Eta(AllPairs(L), phi, s.sol);
      var (l, u) := NewBracket(lb, ub, eta, s.valLower, s.valUpper);
      if !CalcFails(lb, ub, eta) && Abs(Mid(l, u) - Mid(lb, ub)) >= MsEpsilon {
        if lb <= ub && EtaInBracket(L, phi, gamma, solve) {
          assert lb <= eta <= ub;
          assert u - l <= (ub - lb) - 2.0 * MsEpsilon;
        }
        if fuel > 0 {
          IntendedStopsWhenSettled(l, u, L, phi, gamma, solve, fuel - 1);
        }
      }
    }
  }

  /** On the example above the intended run goes on past the first call. */
  lemma IntendedContinuesOnExample()
    ensures MsRunIntended(0.0, 100.0, 1, Phi50, Gamma, LowerSolver, 10) != Finished([1], 0.0, 100.0, 0.0, 50.0)
  {
    assert AllPairs(1) == [(1, 1)] by {
      assert Row(1, 1) == [(1, 1)];
    }
    assert Eta(AllPairs(1), Phi50, AllOnes) == 50.0 by {
      assert [(1, 1)][..0] == [];
      assert Weighted(Phi50, AllOnes)((1, 1)) == 50.0;
    }
    IntendedStopsWhenSettled(0.0, 100.0, 1, Phi50, Gamma, LowerSolver, 10);
  }

  // ---------------------------------------------------------------------
  // resolve_ms_problem
  // ---------------------------------------------------------------------

  /**
   * get_hyperlink raises (TypeError) on a missing correlation before
   * anything else happens. Otherwise u0 is phi summed over every ordered
   * pair plus mu of each link once, and the search is temp.py's, from
   * (0, u0) at depth 0 with max_depth 100 and gamma 6; the result holds u0
   * and the value the search returns.
   */
  method ResolveMsProblem(g: Graph, travel: Travel, solve: Solver)
    returns (r: Result<(real, real), GraphError>)
    requires g.Valid()
    modifies travel
    ensures r.Err? <==> !AllCorrelated(g.links)
    ensures r.Err? ==> r.error.MissingCorrelation? && 1 <= r.error.a <= |g.links| && 1 <= r.error.b <= |g.links| && r.error.b !in g.links[r.error.a - 1].rho
    ensures r.Err? ==> travel.links == old(travel.links)
    ensures r.Ok? ==> r.value.0 == PhiTotal(AllPairs(|g.links|), PhiOf(g.links)) + MuSum(|g.links|, MuOf(g.links))
    ensures r.Ok? ==> travel.links == old(travel.links) + TempBisection.Run(0.0, r.value.0, 0, 100, |g.links|, PhiOf(g.links), Gamma, solve).appended
    ensures r.Ok? ==> r.value.1 == TempBisection.Run(0.0, r.value.0, 0, 100, |g.links|, PhiOf(g.links), Gamma, solve).mid
  {
    var hyperlinks := g.GetHyperlink();
    if hyperlinks.Err? {
      return Err(hyperlinks.error);
    }
    var L, phi, mu := |g.links|, PhiOf(g.links), MuOf(g.links);
    var u0 := InitialUpperWithMu(AllPairs(L), phi, mu);
    MuCountedOnce(L, mu);
    var mid := TempBisection.BranchAndBound(travel, 0.0, u0, 0, 100, L, phi, Gamma, solve);
    return Ok((u0, mid));
  }
}
