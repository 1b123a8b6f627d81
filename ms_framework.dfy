/**
 * branch_and_bound and resolve_ms_problem of framework/ms_problem.py.
 *
 * Each call builds and solves the secant LP for the bracket (lb, ub)
 * (the oracle `solve`), computes eta_star, and either returns its
 * (model, omega) or calls itself on the chosen half. The recursive call
 * passes no max_depth, so every call after the first uses the default 100.
 * A call that raises returns its own (model, omega) from the except
 * clause. The model returned is identified here by its iteration: the
 * bracket, the depth and why the recursion ended there.
 */
module FrameworkMsProblem {
  import opened Wrappers
  import opened GraphData
  import opened Bisection
  import FrameworkMvProblem

  const DefaultMaxDepth: nat := 100
  const Epsilon: real := 0.000001

  datatype Outcome = Tight | Converged | DepthReached | Failed

  /** The iteration whose (model, omega) is returned, and why the recursion ended there. */
  datatype Stop = Stop(lb: real, ub: real, depth: nat, outcome: Outcome)

  /** What one call decides: return, or recurse on the bracket (lb, ub). */
  datatype Next = Done(stop: Stop) | Continue(lb: real, ub: real)

  /** The body of one call of branch_and_bound at bracket (lb, ub) and depth `depth`. */
  function Iteration(lb: real, ub: real, depth: nat, maxDepth: nat, L: nat, phi: Pair -> real, gamma: real, solve: Solver): (n: Next)
    ensures n.Continue? ==> depth < maxDepth
  {
    if ObjectiveFails(lb, ub) then Done(Stop(lb, ub, depth, Failed))
    else match solve(gamma, lb, ub)
      case Raised => Done(Stop(lb, ub, depth, Failed))
      case Solved(sol, _, valLower, valUpper) =>
        var eta := Eta(AllPairs(L), phi, sol);
        if eta == ub || eta == lb then Done(Stop(lb, ub, depth, Tight))
        else
          var (newLb, newUb) := NewBracket(lb, ub, eta, valLower, valUpper);
          if Abs(Mid(newLb, newUb) - Mid(lb, ub)) < Epsilon then Done(Stop(lb, ub, depth, Converged))
          else if depth >= maxDepth then Done(Stop(lb, ub, depth, DepthReached))
          else Continue(newLb, newUb)
  }

  /** The recursion: the first call uses `maxDepth`, every later call the default. */
  function Run(lb: real, ub: real, depth: nat, maxDepth: nat, L: nat, phi: Pair -> real, gamma: real, solve: Solver): Stop
    decreases (if maxDepth == DefaultMaxDepth then 0 else 1), (if depth < DefaultMaxDepth then DefaultMaxDepth - depth else 0)
  {
    match Iteration(lb, ub, depth, maxDepth, L, phi, gamma, solve)
    case Done(stop) => stop
    case Continue(newLb, newUb) => Run(newLb, newUb, depth + 1, DefaultMaxDepth, L, phi, gamma, solve)
  }

  /** branch_and_bound, its tail recursion written as a loop. */
  method BranchAndBound(lb0: real, ub0: real, depth0: nat, maxDepth0: nat, L: nat, phi: Pair -> real, gamma: real, solve: Solver)
    returns (r: Stop)
    ensures r == Run(lb0, ub0, depth0, maxDepth0, L, phi, gamma, solve)
  {
    var lb, ub := lb0, ub0;
    var depth: nat, maxDepth: nat := depth0, maxDepth0;
    while true
      invariant Run(lb, ub, depth, maxDepth, L, phi, gamma, solve) == Run(lb0, ub0, depth0, maxDepth0, L, phi, gamma, solve)
      decreases (if maxDepth == DefaultMaxDepth then 0 else 1), (if depth < DefaultMaxDepth then DefaultMaxDepth - depth else 0)
    {
      if ObjectiveFails(lb, ub) {
        return Stop(lb, ub, depth, Failed);
      }
      var step := solve(gamma, lb, ub);
      if step.Raised? {
        return Stop(lb, ub, depth, Failed);
      }
      var eta := Eta(AllPairs(L), phi, step.sol);
      if eta == ub || eta == lb {
        return Stop(lb, ub, depth, Tight);
      }
      var (newLb, newUb) := NewBracket(lb, ub, eta, step.valLower, step.valUpper);
      if Abs(Mid(newLb, newUb) - Mid(lb, ub)) < Epsilon || depth >= maxDepth {
        return Stop(lb, ub, depth, if Abs(Mid(newLb, newUb) - Mid(lb, ub)) < Epsilon then Converged else DepthReached);
      }
      lb, ub, depth, maxDepth := newLb, newUb, depth + 1, DefaultMaxDepth;
    }
  }

  /**
   * The returned iteration is never shallower than the first, and never
   * deeper than depth 100 (or one call deeper than the first, when that one
   * is already at depth 100 or more); a first call whose depth has reached
   * max_depth is the one returned.
   */
  lemma {:induction false} DepthBound(lb: real, ub: real, depth: nat, maxDepth: nat, L: nat, phi: Pair -> real, gamma: real, solve: Solver)
    ensures var r := Run(lb, ub, depth, maxDepth, L, phi, gamma, solve);
      && depth <= r.depth <= (if depth < DefaultMaxDepth then DefaultMaxDepth else depth + 1)
      && (maxDepth <= depth ==> r.depth == depth)
    decreases (if maxDepth == DefaultMaxDepth then 0 else 1), (if depth < DefaultMaxDepth then DefaultMaxDepth - depth else 0)
  {
    match Iteration(lb, ub, depth, maxDepth, L, phi, gamma, solve)
    case Done(stop) =>
    case Continue(newLb, newUb) =>
      DepthBound(newLb, newUb, depth + 1, DefaultMaxDepth, L, phi, gamma, solve);
  }

  /** From the top-level call (depth 0), at most 101 LPs are solved: depths 0 to 100. */
  lemma AtMost101Solves(lb: real, ub: real, maxDepth: nat, L: nat, phi: Pair -> real, gamma: real, solve: Solver)
    ensures Run(lb, ub, 0, maxDepth, L, phi, gamma, solve).depth + 1 <= 101
  {
    DepthBound(lb, ub, 0, maxDepth, L, phi, gamma, solve);
  }

  /**
   * The depth limit a caller passes is honoured only by the first call:
   * from depth 0, a run stopped by the depth test stopped either at once
   * (max_depth 0) or at depth 100, whatever max_depth was.
   */
  lemma {:induction false} MaxDepthNotForwarded(lb: real, ub: real, depth: nat, maxDepth: nat, L: nat, phi: Pair -> real, gamma: real, solve: Solver)
    requires depth < DefaultMaxDepth
    ensures var r := Run(lb, ub, depth, maxDepth, L, phi, gamma, solve);
      r.outcome == DepthReached ==> (r.depth == depth && maxDepth <= depth) || r.depth == DefaultMaxDepth
    decreases (if maxDepth == DefaultMaxDepth then 0 else 1), DefaultMaxDepth - depth
  {
    match Iteration(lb, ub, depth, maxDepth, L, phi, gamma, solve)
    case Done(stop) =>
    case Continue(newLb, newUb) =>
      if depth + 1 < DefaultMaxDepth {
        MaxDepthNotForwarded(newLb, newUb, depth + 1, DefaultMaxDepth, L, phi, gamma, solve);
      } else {
        DepthBound(newLb, newUb, depth + 1, DefaultMaxDepth, L, phi, gamma, solve);
      }
  }

  /**
   * Why the returned iteration ended the recursion: it raised (an empty or
   * negative bracket, or the solver), its eta_star hit a bound, the
   * midpoint moved by less than 1e-6, or its depth reached the limit.
   */
  lemma {:induction false} StopReason(lb: real, ub: real, depth: nat, maxDepth: nat, L: nat, phi: Pair -> real, gamma: real, solve: Solver)
    ensures var r := Run(lb, ub, depth, maxDepth, L, phi, gamma, solve);
      && (r.outcome == Failed <==> ObjectiveFails(r.lb, r.ub) || solve(gamma, r.lb, r.ub).Raised?)
      && (r.outcome != Failed ==>
            var s := solve(gamma, r.lb, r.ub);
            var eta := Eta(AllPairs(L), phi, s.sol);
            var (l, u) := NewBracket(r.lb, r.ub, eta, s.valLower, s.valUpper);
            && (r.outcome == Tight <==> eta == r.lb || eta == r.ub)
            && (r.outcome == Converged ==> Abs(Mid(l, u) - Mid(r.lb, r.ub)) < Epsilon)
            && (r.outcome == DepthReached ==> r.depth >= (if r.depth == depth then maxDepth else DefaultMaxDepth)))
    decreases (if maxDepth == DefaultMaxDepth then 0 else 1), (if depth < DefaultMaxDepth then DefaultMaxDepth - depth else 0)
  {
    match Iteration(lb, ub, depth, maxDepth, L, phi, gamma, solve)
    case Done(stop) =>
    case Continue(newLb, newUb) =>
      StopReason(newLb, newUb, depth + 1, DefaultMaxDepth, L, phi, gamma, solve);
      DepthBound(newLb, newUb, depth + 1, DefaultMaxDepth, L, phi, gamma, solve);
  }

  /** The returned iteration was solved unless it failed. */
  lemma {:induction false} SolvedUnlessFailed(lb: real, ub: real, depth: nat, maxDepth: nat, L: nat, phi: Pair -> real, gamma: real, solve: Solver)
    ensures var r := Run(lb, ub, depth, maxDepth, L, phi, gamma, solve);
      r.outcome != Failed ==> !ObjectiveFails(r.lb, r.ub) && solve(gamma, r.lb, r.ub).Solved?
    decreases (if maxDepth == DefaultMaxDepth then 0 else 1), (if depth < DefaultMaxDepth then DefaultMaxDepth - depth else 0)
  {
    match Iteration(lb, ub, depth, maxDepth, L, phi, gamma, solve)
    case Done(stop) =>
    case Continue(newLb, newUb) =>
      SolvedUnlessFailed(newLb, newUb, depth + 1, DefaultMaxDepth, L, phi, gamma, solve);
  }

  /** When eta_star stays inside its bracket, every bracket visited lies inside the first. */
  lemma {:induction false} BracketsNested(lb: real, ub: real, depth: nat, maxDepth: nat, L: nat, phi: Pair -> real, gamma: real, solve: Solver)
    requires lb <= ub && EtaInBracket(L, phi, gamma, solve)
    ensures var r := Run(lb, ub, depth, maxDepth, L, phi, gamma, solve);
      lb <= r.lb <= r.ub <= ub
    decreases (if maxDepth == DefaultMaxDepth then 0 else 1), (if depth < DefaultMaxDepth then DefaultMaxDepth - depth else 0)
  {
    match Iteration(lb, ub, depth, maxDepth, L, phi, gamma, solve)
    case Done(stop) =>
    case Continue(newLb, newUb) =>
      var s := solve(gamma, lb, ub);
      NewBracketSpec(lb, ub, Eta(AllPairs(L), phi, s.sol), s.valLower, s.valUpper);
      BracketsNested(newLb, newUb, depth + 1, DefaultMaxDepth, L, phi, gamma, solve);
  }

  /**
   * resolve_ms_problem: l0 = 0 and u0 the sum of phi over the hyperlink
   * keys, branch_and_bound from (l0, u0) with the defaults, and the path of
   * the returned model's solution, with the "arco inesistente" warnings of
   * the extraction loop. Reading the solution of a model that was never
   * solved raises outside any try; `path` is then None. With no links the
   * loop reads nothing, so the path is empty whatever the search did.
   */
  method ResolveMsProblem(L: nat, phi: Pair -> real, gamma: real, solve: Solver)
    returns (u0: real, stop: Stop, path: Option<seq<nat>>, warned: seq<Pair>)
    ensures u0 == PhiTotal(AllPairs(L), phi)
    ensures stop == Run(0.0, u0, 0, DefaultMaxDepth, L, phi, gamma, solve) && stop.depth <= DefaultMaxDepth
    ensures path.Some? <==> stop.outcome != Failed || L == 0
    ensures L == 0 ==> path == Some([]) && warned == []
    ensures path.None? ==> warned == []
    ensures stop.outcome != Failed ==> (solve(gamma, stop.lb, stop.ub).Solved? && path.Some? &&
      forall x :: x in path.value <==> 1 <= x <= L && FrameworkMvProblem.Matched(solve(gamma, stop.lb, stop.ub).sol, L, x))
    ensures stop.outcome != Failed ==> (solve(gamma, stop.lb, stop.ub).Solved? &&
      forall p :: p in warned <==> 1 <= p.0 <= L && 1 <= p.1 <= L && p.0 != p.1 && solve(gamma, stop.lb, stop.ub).sol(p) == 1.0)
    ensures path.Some? ==> forall p, q :: 0 <= p < q < |path.value| ==> path.value[p] < path.value[q]
    ensures forall p, q :: 0 <= p < q < |warned| ==> warned[p] != warned[q]
  {
    u0 := InitialUpper(AllPairs(L), phi);
    stop := BranchAndBound(0.0, u0, 0, DefaultMaxDepth, L, phi, gamma, solve);
    DepthBound(0.0, u0, 0, DefaultMaxDepth, L, phi, gamma, solve);
    SolvedUnlessFailed(0.0, u0, 0, DefaultMaxDepth, L, phi, gamma, solve);
    if stop.outcome != Failed {
      var s := solve(gamma, stop.lb, stop.ub);
      var p;
      p, warned := FrameworkMvProblem.ExtractPath(L, s.sol);
      path := Some(p);
    } else if L == 0 {
      path, warned := Some([]), [];
    } else {
      path, warned := None, [];
    }
  }
}
