/**
 * branch_and_bound of temp.py, the version resolve_ms_problem of
 * ms_problem.py calls.
 *
 * Each call solves the secant LP for the bracket (lb, ub) (the oracle
 * `solve`), appends to travel.links the link a of every pair (a, b) valued
 * exactly 1, and only then checks that the status is optimal. It then
 * computes eta_star, picks the half to explore and either stops, appending
 * the same links a second time and returning the midpoint of the new
 * bracket, or calls itself one level deeper with max_depth forwarded. A
 * call that raises returns the midpoint of its own bracket.
 */
module TempBisection {
  import opened Wrappers
  import opened GraphData
  import opened Bisection
  import opened Graphs
  import MvProblem

  const Epsilon: real := 0.000001

  /**
   * How a run ends: everything it appends to travel.links, the value it
   * returns, and the bracket and depth of its last call; `stopped` says the
   * last call ended at the stopping test rather than at an exception.
   */
  datatype Finish = Finish(appended: seq<nat>, mid: real, lb: real, ub: real, depth: nat, stopped: bool)

  /** The links a of the pairs (a, b) valued exactly 1, as one extraction loop appends them. */
  function Ones(L: nat, sol: Pair -> real): seq<nat>
  {
    MvProblem.OnesOf(AllPairs(L), sol)
  }

  /** branch_and_bound(lb, ub, graph, gamma, depth, max_depth), as written. */
  function Run(lb: real, ub: real, depth: nat, maxDepth: nat, L: nat, phi: Pair -> real, gamma: real, solve: Solver): Finish
    decreases if depth < maxDepth then maxDepth - depth else 0
  {
    if ObjectiveFails(lb, ub) then Finish([], Mid(lb, ub), lb, ub, depth, false)
    else match solve(gamma, lb, ub)
      case Raised => Finish([], Mid(lb, ub), lb, ub, depth, false)
      case Solved(sol, optimal, valLower, valUpper) =>
        var ones := Ones(L, sol);
        if !optimal then Finish(ones, Mid(lb, ub), lb, ub, depth, false)
        else
          var (newLb, newUb) := NewBracket(lb, ub, Eta(AllPairs(L), phi, sol), valLower, valUpper);
          if Abs(Mid(newLb, newUb) - Mid(lb, ub)) < Epsilon || depth >= maxDepth then
            Finish(ones + ones, Mid(newLb, newUb), lb, ub, depth, true)
          else
            var rest := Run(newLb, newUb, depth + 1, maxDepth, L, phi, gamma, solve);
            rest.(appended := ones + rest.appended)
  }

  /**
   * The recursion as a loop: travel.links gains exactly what Run appends,
   * and the value returned is Run's.
   */
  method BranchAndBound(travel: Travel, lb0: real, ub0: real, depth0: nat, maxDepth: nat, L: nat, phi: Pair -> real, gamma: real, solve: Solver)
    returns (mid: real)
    modifies travel
    ensures travel.links == old(travel.links) + Run(lb0, ub0, depth0, maxDepth, L, phi, gamma, solve).appended
    ensures mid == Run(lb0, ub0, depth0, maxDepth, L, phi, gamma, solve).mid
  {
    var lb, ub, depth := lb0, ub0, depth0;
    while true
      invariant old(travel.links) + Run(lb0, ub0, depth0, maxDepth, L, phi, gamma, solve).appended
        == travel.links + Run(lb, ub, depth, maxDepth, L, phi, gamma, solve).appended
      invariant Run(lb0, ub0, depth0, maxDepth, L, phi, gamma, solve).mid == Run(lb, ub, depth, maxDepth, L, phi, gamma, solve).mid
      decreases if depth < maxDepth then maxDepth - depth else 0
    {
      ghost var cur := Run(lb, ub, depth, maxDepth, L, phi, gamma, solve);
      if ObjectiveFails(lb, ub) {
        assert cur.appended == [];
        return Mid(lb, ub);
      }
      var step := solve(gamma, lb, ub);
      if step.Raised? {
        assert cur.appended == [];
        return Mid(lb, ub);
      }
      ghost var before := travel.links;
      var _ := MvProblem.ExtractLinks(travel, L, step.sol);
      if !step.optimal {
        assert cur.appended == Ones(L, step.sol);
        return Mid(lb, ub);
      }
      var eta := Eta(AllPairs(L), phi, step.sol);
      var newLb, newUb := if step.valLower < step.valUpper then lb else eta, if step.valLower < step.valUpper then eta else ub;
      assert (newLb, newUb) == NewBracket(lb, ub, eta, step.valLower, step.valUpper);
      if Abs(Mid(newLb, newUb) - Mid(lb, ub)) < Epsilon || depth >= maxDepth {
        var _ := MvProblem.ExtractLinks(travel, L, step.sol);
        assert cur == Finish(Ones(L, step.sol) + Ones(L, step.sol), Mid(newLb, newUb), lb, ub, depth, true);
        AppendAssoc(before, Ones(L, step.sol), Ones(L, step.sol));
        return Mid(newLb, newUb);
      }
      ghost var rest := Run(newLb, newUb, depth + 1, maxDepth, L, phi, gamma, solve);
      assert cur.appended == Ones(L, step.sol) + rest.appended && cur.mid == rest.mid;
      AppendAssoc(before, Ones(L, step.sol), rest.appended);
      lb, ub, depth := newLb, newUb, depth + 1;
    }
  }

  /** max_depth is forwarded: the last call is at depth at most max(depth, max_depth). */
  lemma {:induction false} DepthForwarded(lb: real, ub: real, depth: nat, maxDepth: nat, L: nat, phi: Pair -> real, gamma: real, solve: Solver)
    ensures var r := Run(lb, ub, depth, maxDepth, L, phi, gamma, solve);
      depth <= r.depth <= (if depth < maxDepth then maxDepth else depth)
    decreases if depth < maxDepth then maxDepth - depth else 0
  {
    if !ObjectiveFails(lb, ub) && solve(gamma, lb, ub).Solved? && solve(gamma, lb, ub).optimal {
      var s := solve(gamma, lb, ub);
      var (l, u) := NewBracket(lb, ub, Eta(AllPairs(L), phi, s.sol), s.valLower, s.valUpper);
      if !(Abs(Mid(l, u) - Mid(lb, ub)) < Epsilon || depth >= maxDepth) {
        DepthForwarded(l, u, depth + 1, maxDepth, L, phi, gamma, solve);
      }
    }
  }

  /**
   * When the solver keeps eta_star inside the brackets it solves, every
   * bracket explored lies inside the first one, and so does the value
   * returned.
   */
  lemma {:induction false} MidWithinBracket(lb: real, ub: real, depth: nat, maxDepth: nat, L: nat, phi: Pair -> real, gamma: real, solve: Solver)
    requires lb <= ub && EtaInBracket(L, phi, gamma, solve)
    ensures var r := Run(lb, ub, depth, maxDepth, L, phi, gamma, solve);
      lb <= r.lb <= r.ub <= ub && lb <= r.mid <= ub
    decreases if depth < maxDepth then maxDepth - depth else 0
  {
    if !ObjectiveFails(lb, ub) && solve(gamma, lb, ub).Solved? && solve(gamma, lb, ub).optimal {
      var s := solve(gamma, lb, ub);
      var eta := Eta(AllPairs(L), phi, s.sol);
      assert lb <= eta <= ub;
      NewBracketSpec(lb, ub, eta, s.valLower, s.valUpper);
      var (l, u) := NewBracket(lb, ub, eta, s.valLower, s.valUpper);
      if !(Abs(Mid(l, u) - Mid(lb, ub)) < Epsilon || depth >= maxDepth) {
        MidWithinBracket(l, u, depth + 1, maxDepth, L, phi, gamma, solve);
      }
    }
  }

  /**
   * What the last call leaves behind. A run that ends at the stopping test
   * has solved its last bracket optimally, the test held there (the
   * midpoint moved by less than Epsilon, or max_depth was reached), the
   * value returned is the midpoint of the new bracket, and travel.links
   * ends with that solution's links twice over; otherwise the value is the midpoint of the
   * last bracket, and a last call that got a solution found it not optimal
   * after appending its links once.
   */
  lemma {:induction false} LastCall(lb: real, ub: real, depth: nat, maxDepth: nat, L: nat, phi: Pair -> real, gamma: real, solve: Solver)
    ensures var r := Run(lb, ub, depth, maxDepth, L, phi, gamma, solve);
      var s := solve(gamma, r.lb, r.ub);
      && (r.stopped ==> s.Solved? && s.optimal && EndsWith(r.appended, Ones(L, s.sol) + Ones(L, s.sol)))
      && (r.stopped ==> !ObjectiveFails(r.lb, r.ub))
      && (r.stopped && s.Solved? ==>
            var nb := NewBracket(r.lb, r.ub, Eta(AllPairs(L), phi, s.sol), s.valLower, s.valUpper);
            r.mid == Mid(nb.0, nb.1) && (Abs(Mid(nb.0, nb.1) - Mid(r.lb, r.ub)) < Epsilon || r.depth >= maxDepth))
      && (!r.stopped ==> r.mid == Mid(r.lb, r.ub))
      && (!r.stopped && !ObjectiveFails(r.lb, r.ub) && s.Solved? ==> !s.optimal && EndsWith(r.appended, Ones(L, s.sol)))
    decreases if depth < maxDepth then maxDepth - depth else 0
  {
    if !ObjectiveFails(lb, ub) && solve(gamma, lb, ub).Solved? && solve(gamma, lb, ub).optimal {
      var s := solve(gamma, lb, ub);
      var (l, u) := NewBracket(lb, ub, Eta(AllPairs(L), phi, s.sol), s.valLower, s.valUpper);
      if !(Abs(Mid(l, u) - Mid(lb, ub)) < Epsilon || depth >= maxDepth) {
        LastCall(l, u, depth + 1, maxDepth, L, phi, gamma, solve);
        var rest := Run(l, u, depth + 1, maxDepth, L, phi, gamma, solve);
        var last := solve(gamma, rest.lb, rest.ub);
        if rest.stopped {
          EndsWithPrefix(Ones(L, s.sol), rest.appended, Ones(L, last.sol) + Ones(L, last.sol));
        } else if !ObjectiveFails(rest.lb, rest.ub) && last.Solved? {
          EndsWithPrefix(Ones(L, s.sol), rest.appended, Ones(L, last.sol));
        }
      } else {
        EndsWithSelf(Ones(L, s.sol) + Ones(L, s.sol));
      }
    } else if !ObjectiveFails(lb, ub) && solve(gamma, lb, ub).Solved? {
      EndsWithSelf(Ones(L, solve(gamma, lb, ub).sol));
    }
  }

  /** `xs` ends with `ys`. */
  predicate EndsWith(xs: seq<nat>, ys: seq<nat>)
  {
    |ys| <= |xs| && xs[|xs| - |ys|..] == ys
  }

  lemma EndsWithSelf(xs: seq<nat>)
    ensures EndsWith(xs, xs)
  {
    assert xs[0..] == xs;
  }

  lemma EndsWithPrefix(front: seq<nat>, xs: seq<nat>, ys: seq<nat>)
    requires EndsWith(xs, ys)
    ensures EndsWith(front + xs, ys)
  {
    assert (front + xs)[|front + xs| - |ys|..] == xs[|xs| - |ys|..];
  }

  // ---------------------------------------------------------------------
  // The final solution appended twice, and the evidently intended version.
  // ---------------------------------------------------------------------

  /** A solver that always returns the two-link path optimally. */
  function TwoLinkSolver(gamma: real, lb: real, ub: real): Step
  {
    Solved(MvProblem.TwoLinkPath, true, 0.0, 1.0)
  }

  /**
   * With max_depth 0 the first call stops, after the loop of lines 43-49
   * and the final-solution loop of lines 73-77 have each appended links 1,
   * 1, 2, 2: travel.links lists every link of the path four times.
   */
  lemma FinalSolutionAppendedTwice()
    ensures Run(0.0, 4.0, 0, 0, 2, NoWeight, 6.0, TwoLinkSolver).appended == [1, 1, 2, 2, 1, 1, 2, 2]
  {
    MvProblem.TwoLinkPathAppendedTwice();
  }

  /**
   * The evidently intended run: the links are read from the final solution
   * only, once, after its status has been checked.
   */
  function RunIntended(lb: real, ub: real, depth: nat, maxDepth: nat, L: nat, phi: Pair -> real, gamma: real, solve: Solver): Finish
    decreases if depth < maxDepth then maxDepth - depth else 0
  {
    if ObjectiveFails(lb, ub) then Finish([], Mid(lb, ub), lb, ub, depth, false)
    else match solve(gamma, lb, ub)
      case Raised => Finish([], Mid(lb, ub), lb, ub, depth, false)
      case Solved(sol, optimal, valLower, valUpper) =>
        if !optimal then Finish([], Mid(lb, ub), lb, ub, depth, false)
        else
          var (newLb, newUb) := NewBracket(lb, ub, Eta(AllPairs(L), phi, sol), valLower, valUpper);
          if Abs(Mid(newLb, newUb) - Mid(lb, ub)) < Epsilon || depth >= maxDepth then
            Finish(Ones(L, sol), Mid(newLb, newUb), lb, ub, depth, true)
          else
            RunIntended(newLb, newUb, depth + 1, maxDepth, L, phi, gamma, solve)
  }

  /**
   * The intended run explores the same brackets and returns the same value,
   * and travel.links gains the links of the final solution once, or nothing
   * when the run ends at an exception.
   */
  lemma {:induction false} IntendedAppendsFinalOnce(lb: real, ub: real, depth: nat, maxDepth: nat, L: nat, phi: Pair -> real, gamma: real, solve: Solver)
    ensures var r := RunIntended(lb, ub, depth, maxDepth, L, phi, gamma, solve);
      var w := Run(lb, ub, depth, maxDepth, L, phi, gamma, solve);
      && r.(appended := []) == w.(appended := [])
      && (r.stopped ==> solve(gamma, r.lb, r.ub).Solved? && r.appended == Ones(L, solve(gamma, r.lb, r.ub).sol))
      && (!r.stopped ==> r.appended == [])
    decreases if depth < maxDepth then maxDepth - depth else 0
  {
    if !ObjectiveFails(lb, ub) && solve(gamma, lb, ub).Solved? && solve(gamma, lb, ub).optimal {
      var s := solve(gamma, lb, ub);
      var (l, u) := NewBracket(lb, ub, Eta(AllPairs(L), phi, s.sol), s.valLower, s.valUpper);
      if !(Abs(Mid(l, u) - Mid(lb, ub)) < Epsilon || depth >= maxDepth) {
        IntendedAppendsFinalOnce(l, u, depth + 1, maxDepth, L, phi, gamma, solve);
      }
    }
  }

  /** On the two-link example the intended run lists each link of the path as the solution does. */
  lemma IntendedTwoLinkExample()
    ensures RunIntended(0.0, 4.0, 0, 0, 2, NoWeight, 6.0, TwoLinkSolver).appended == [1, 1, 2, 2]
  {
    MvProblem.TwoLinkPathAppendedTwice();
  }
}
