/**
 * What the three branch_and_bound versions (framework/ms_problem.py,
 * temp.py, ms_problem.py) share: the solver as an oracle, the bracket
 * choice, the midpoint, eta_star and the initial upper bound u0.
 *
 * The LP of one iteration is left to the oracle: given gamma and the
 * bracket (lb, ub) it either raises, or yields the solution omega (a value
 * per ordered pair of link labels), whether the status is optimal, and the
 * two surrogate values val_lower and val_upper that calc computes with
 * square roots. Floats are modelled as reals.
 */
module Bisection {
  import opened Wrappers
  import opened GraphData

  datatype Step =
    | Raised
    | Solved(sol: Pair -> real, optimal: bool, valLower: real, valUpper: real)

  type Solver = (real, real, real) -> Step

  function Mid(lb: real, ub: real): real
  {
    (lb + ub) / 2.0
  }

  function Abs(x: real): real
  {
    if x < 0.0 then -x else x
  }

  /**
   * The secant objective takes math.sqrt of lb and ub and divides by
   * ub - lb, so it raises for a negative bound or an empty bracket.
   */
  predicate ObjectiveFails(lb: real, ub: real)
  {
    lb < 0.0 || ub < 0.0 || lb == ub
  }

  /** The next bracket: the lower half when val_lower < val_upper, otherwise (ties too) the upper half. */
  function NewBracket(lb: real, ub: real, eta: real, valLower: real, valUpper: real): (real, real)
  {
    if valLower < valUpper then (lb, eta) else (eta, ub)
  }

  /**
   * The new bracket is one of the two halves split at eta_star: it keeps
   * lb exactly when val_lower < val_upper, and keeps ub otherwise. When
   * eta_star lies inside the bracket the new one lies inside the old one.
   */
  lemma NewBracketSpec(lb: real, ub: real, eta: real, valLower: real, valUpper: real)
    ensures var (l, u) := NewBracket(lb, ub, eta, valLower, valUpper);
      && ((l, u) == (lb, eta) <==> valLower < valUpper || (eta == lb && eta == ub))
      && ((l, u) == (eta, ub) <==> valLower >= valUpper || (eta == lb && eta == ub))
      && (lb <= eta <= ub ==> lb <= l <= u <= ub && u - l <= ub - lb)
  {
  }

  /** The solver puts eta_star inside every non-empty bracket it solves. */
  ghost predicate EtaInBracket(L: nat, phi: Pair -> real, gamma: real, solve: Solver)
  {
    forall l: real, u: real {:trigger solve(gamma, l, u)} ::
      l <= u && solve(gamma, l, u).Solved? ==> l <= Eta(AllPairs(L), phi, solve(gamma, l, u).sol) <= u
  }

  /** The sum of f over the pairs of `ps`. */
  function SumOver(ps: seq<Pair>, f: Pair -> real): real
  {
    if ps == [] then 0.0 else SumOver(ps[..|ps| - 1], f) + f(ps[|ps| - 1])
  }

  /** eta_star: the sum of phi(a, b) * omega(a, b) over the pairs. */
  function Eta(ps: seq<Pair>, phi: Pair -> real, sol: Pair -> real): real
  {
    SumOver(ps, Weighted(phi, sol))
  }

  function Weighted(phi: Pair -> real, sol: Pair -> real): Pair -> real
  {
    (p: Pair) => phi(p) * sol(p)
  }

  /** The sum of phi over the pairs. */
  function PhiTotal(ps: seq<Pair>, phi: Pair -> real): real
  {
    SumOver(ps, phi)
  }

  /** mu of link a for each diagonal pair (a, a) of `ps`. */
  function MuOnDiagonal(ps: seq<Pair>, mu: nat -> real): real
  {
    SumOver(ps, DiagonalMu(mu))
  }

  function DiagonalMu(mu: nat -> real): Pair -> real
  {
    (p: Pair) => if p.0 == p.1 then mu(p.0) else 0.0
  }

  function NoWeight(p: Pair): real
  {
    0.0
  }

  /** mu(1) + ... + mu(L). */
  function MuSum(L: nat, mu: nat -> real): real
  {
    if L == 0 then 0.0 else MuSum(L - 1, mu) + mu(L)
  }

  /** The loop of ms_problem.py that accumulates eta_star over graph.links x graph.links. */
  method EtaStar(L: nat, phi: Pair -> real, sol: Pair -> real) returns (eta: real)
    ensures eta == Eta(AllPairs(L), phi, sol)
  {
    eta := 0.0;
    ghost var visited: seq<Pair> := [];
    for a := 1 to L + 1
      invariant visited == Rows(a - 1, L) && eta == Eta(visited, phi, sol)
    {
      eta := EtaRow(L, a, phi, sol, eta, visited);
      RowsStep(a, L);
      visited := visited + Row(a, L);
    }
  }

  /** The inner loop over link b for a fixed link a, continuing the sum over the pairs `done`. */
  method EtaRow(L: nat, a: nat, phi: Pair -> real, sol: Pair -> real, eta0: real, ghost done: seq<Pair>) returns (eta: real)
    requires eta0 == Eta(done, phi, sol)
    ensures eta == Eta(done + Row(a, L), phi, sol)
  {
    eta := eta0;
    ghost var visited := done;
    assert done + Row(a, 0) == done;
    for b := 1 to L + 1
      invariant visited == done + Row(a, b - 1) && eta == Eta(visited, phi, sol)
    {
      assert (visited + [(a, b)])[..|visited|] == visited;
      AppendAssoc(done, Row(a, b - 1), [(a, b)]);
      eta := eta + phi((a, b)) * sol((a, b));
      visited := visited + [(a, b)];
    }
  }

  /** The u0 loop of framework/ms_problem.py: phi summed over the hyperlink keys. */
  method InitialUpper(keys: seq<Pair>, phi: Pair -> real) returns (u0: real)
    ensures u0 == PhiTotal(keys, phi)
  {
    u0 := 0.0;
    for t := 0 to |keys|
      invariant u0 == PhiTotal(keys[..t], phi)
    {
      assert keys[..t + 1][..t] == keys[..t];
      u0 := u0 + phi(keys[t]);
    }
    assert keys[..|keys|] == keys;
  }

  /** The u0 loop of ms_problem.py: mu of the link on each diagonal key, and phi of every key. */
  method InitialUpperWithMu(keys: seq<Pair>, phi: Pair -> real, mu: nat -> real) returns (u0: real)
    ensures u0 == PhiTotal(keys, phi) + MuOnDiagonal(keys, mu)
  {
    u0 := 0.0;
    for t := 0 to |keys|
      invariant u0 == PhiTotal(keys[..t], phi) + MuOnDiagonal(keys[..t], mu)
    {
      assert keys[..t + 1][..t] == keys[..t];
      var key := keys[t];
      u0 := u0 + if key.0 == key.1 then mu(key.0) else 0.0;
      u0 := u0 + phi(key);
    }
    assert keys[..|keys|] == keys;
  }

  lemma {:induction false} SumOverAppend(ps: seq<Pair>, qs: seq<Pair>, f: Pair -> real)
    ensures SumOver(ps + qs, f) == SumOver(ps, f) + SumOver(qs, f)
  {
    if qs == [] {
      assert ps + qs == ps;
    } else {
      SumOverAppend(ps, qs[..|qs| - 1], f);
      assert (ps + qs)[..|ps + qs| - 1] == ps + qs[..|qs| - 1];
    }
  }

  lemma {:induction false} SumOverMonotone(ps: seq<Pair>, f: Pair -> real, g: Pair -> real)
    requires forall p :: p in ps ==> f(p) <= g(p)
    ensures SumOver(ps, f) <= SumOver(ps, g)
  {
    if ps != [] {
      assert ps[|ps| - 1] in ps;
      assert forall p :: p in ps[..|ps| - 1] ==> p in ps;
      SumOverMonotone(ps[..|ps| - 1], f, g);
    }
  }

  lemma WeightedBelow(phi: Pair -> real, sol: Pair -> real, p: Pair)
    requires 0.0 <= phi(p) && 0.0 <= sol(p) <= 1.0
    ensures 0.0 <= Weighted(phi, sol)(p) <= phi(p)
  {
    var x, s := phi(p), sol(p);
    assert x * s <= x * 1.0;
  }

  /**
   * With non-negative phi and a solution whose values lie in [0, 1],
   * eta_star lies in the initial bracket [0, u0] of framework/ms_problem.py.
   */
  lemma EtaWithinInitialBracket(ps: seq<Pair>, phi: Pair -> real, sol: Pair -> real)
    requires forall p :: p in ps ==> 0.0 <= phi(p) && 0.0 <= sol(p) <= 1.0
    ensures 0.0 <= Eta(ps, phi, sol) <= PhiTotal(ps, phi)
  {
    var scaled := Weighted(phi, sol);
    forall p | p in ps ensures 0.0 <= scaled(p) <= phi(p) {
      WeightedBelow(phi, sol, p);
    }
    SumOverMonotone(ps, scaled, phi);
    SumOverMonotone(ps, NoWeight, scaled);
    ZeroSum(ps);
  }

  lemma {:induction false} ZeroSum(ps: seq<Pair>)
    ensures SumOver(ps, NoWeight) == 0.0
  {
    if ps != [] {
      ZeroSum(ps[..|ps| - 1]);
    }
  }

  lemma {:induction false} RowDiagonal(a: nat, c: nat, mu: nat -> real)
    ensures MuOnDiagonal(Row(a, c), mu) == if 1 <= a <= c then mu(a) else 0.0
  {
    if c > 0 {
      RowDiagonal(a, c - 1, mu);
      assert Row(a, c)[..c - 1] == Row(a, c - 1);
    }
  }

  lemma {:induction false} RowsDiagonal(r: nat, L: nat, mu: nat -> real)
    requires r <= L
    ensures MuOnDiagonal(Rows(r, L), mu) == MuSum(r, mu)
  {
    if r > 0 {
      RowsDiagonal(r - 1, L, mu);
      RowDiagonal(r, L, mu);
      SumOverAppend(Rows(r - 1, L), Row(r, L), DiagonalMu(mu));
    }
  }

  /**
   * Over the keys of get_hyperlink, each link has exactly one diagonal key,
   * so the mu part of ms_problem.py's u0 is mu(1) + ... + mu(L).
   */
  lemma MuCountedOnce(L: nat, mu: nat -> real)
    ensures MuOnDiagonal(AllPairs(L), mu) == MuSum(L, mu)
  {
    RowsDiagonal(L, L, mu);
  }
}
