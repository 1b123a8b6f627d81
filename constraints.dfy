/**
 * The constraint families that model_add_constrain hands to the LP solver,
 * in framework/mv_problem.py (xpress) and mv_problem.py (gurobipy). The
 * solver is a sink: each constraint is a value appended to a list, in the
 * order the source adds it.
 *
 *  - 8.1 / 8.2: at the start (end) node, the diagonal variables omega(l, l)
 *    of its incoming links minus those of its outgoing links equal -1 (+1);
 *  - 8.3: at every other node the same difference equals 0;
 *  - 9a / 9b: omega(a, b) = 0 for distinct a, b that leave (enter) the same node;
 *  - 10: omega(a, b) = omega(b, a) for distinct a, b that enter the same node.
 *
 * The xpress version adds a 9a / 9b / 10 constraint only when its variables
 * exist (`(a, b) in omega`); the gurobipy version has no such guard. The
 * guard is the parameter `vars`: Some(keys of omega), or None for no guard.
 */
module Constraints {
  import opened Wrappers
  import opened GraphData

  datatype Constraint =
    | Balance(input: seq<nat>, output: seq<nat>, rhs: int)   // sum of omega(l, l) over input, minus over output, == rhs
    | Zero(a: nat, b: nat)                                    // omega(a, b) == 0
    | Same(a: nat, b: nat)                                    // omega(a, b) == omega(b, a)

  /** Which pair family a node contributes: 9a / 9b (Exclusive) or 10 (Symmetric). */
  datatype Family = Exclusive | Symmetric

  /** The membership guard of the xpress version; None means no guard. */
  predicate Kept(vars: Option<set<Pair>>, p: Pair)
  {
    vars.None? || p in vars.value
  }

  /** What the innermost loop body adds for the links a and b. */
  function PairConstraint(f: Family, vars: Option<set<Pair>>, a: nat, b: nat): seq<Constraint>
  {
    match f
    case Exclusive => if a != b && Kept(vars, (a, b)) then [Zero(a, b)] else []
    case Symmetric => if a != b && Kept(vars, (a, b)) && Kept(vars, (b, a)) then [Same(a, b)] else []
  }

  /** The inner loop `for link_b in l[..k]` for a fixed link_a. */
  function PairRow(f: Family, vars: Option<set<Pair>>, l: seq<nat>, a: nat, k: nat): seq<Constraint>
    requires k <= |l|
  {
    if k == 0 then [] else PairRow(f, vars, l, a, k - 1) + PairConstraint(f, vars, a, l[k - 1])
  }

  /** The two nested loops `for link_a in l[..k]: for link_b in l`. */
  function PairBlock(f: Family, vars: Option<set<Pair>>, l: seq<nat>, k: nat): seq<Constraint>
    requires k <= |l|
  {
    if k == 0 then [] else PairBlock(f, vars, l, k - 1) + PairRow(f, vars, l, l[k - 1], |l|)
  }

  /** What one node contributes to 9a, 9b and 10, in that order. */
  function NodePairs(node: Node, vars: Option<set<Pair>>): seq<Constraint>
  {
    PairBlock(Exclusive, vars, node.output, |node.output|)
      + PairBlock(Exclusive, vars, node.input, |node.input|)
      + PairBlock(Symmetric, vars, node.input, |node.input|)
  }

  /** The 9a / 9b / 10 loop over nodes[..k]. */
  function AllNodePairs(nodes: seq<Node>, k: nat, vars: Option<set<Pair>>): seq<Constraint>
    requires k <= |nodes|
  {
    if k == 0 then [] else AllNodePairs(nodes, k - 1, vars) + NodePairs(nodes[k - 1], vars)
  }

  /** What the 8.3 loop body adds for `node`. */
  function Conservation(node: Node, start: Node, end: Node): seq<Constraint>
  {
    if node != start && node != end then [Balance(node.input, node.output, 0)] else []
  }

  /** The 8.3 loop over nodes[..k]: one balance with right-hand side 0 per node other than start and end. */
  function Conservations(nodes: seq<Node>, k: nat, start: Node, end: Node): seq<Constraint>
    requires k <= |nodes|
  {
    if k == 0 then [] else Conservations(nodes, k - 1, start, end) + Conservation(nodes[k - 1], start, end)
  }

  /** Everything model_add_constrain adds, in order. */
  function ConstraintList(nodes: seq<Node>, start: Node, end: Node, vars: Option<set<Pair>>): seq<Constraint>
  {
    [Balance(start.input, start.output, -1), Balance(end.input, end.output, 1)]
      + Conservations(nodes, |nodes|, start, end)
      + AllNodePairs(nodes, |nodes|, vars)
  }

  /** The inner loop over `l` for the fixed link `a`, appending to `cs0`. */
  method EmitRow(f: Family, vars: Option<set<Pair>>, l: seq<nat>, a: nat, cs0: seq<Constraint>) returns (cs: seq<Constraint>)
    ensures cs == cs0 + PairRow(f, vars, l, a, |l|)
  {
    cs := cs0;
    for j := 0 to |l|
      invariant cs == cs0 + PairRow(f, vars, l, a, j)
    {
      var b := l[j];
      if f == Exclusive && a != b && Kept(vars, (a, b)) {
        cs := cs + [Zero(a, b)];
      } else if f == Symmetric && a != b && Kept(vars, (a, b)) && Kept(vars, (b, a)) {
        cs := cs + [Same(a, b)];
      }
    }
  }

  /** The nested loops over one list of links, appending to `cs0`. */
  method EmitBlock(f: Family, vars: Option<set<Pair>>, l: seq<nat>, cs0: seq<Constraint>) returns (cs: seq<Constraint>)
    ensures cs == cs0 + PairBlock(f, vars, l, |l|)
  {
    cs := cs0;
    for i := 0 to |l|
      invariant cs == cs0 + PairBlock(f, vars, l, i)
    {
      cs := EmitRow(f, vars, l, l[i], cs);
      AppendAssoc(cs0, PairBlock(f, vars, l, i), PairRow(f, vars, l, l[i], |l|));
    }
  }

  /** The 8.3 loop, appending to `cs0`. */
  method EmitConservations(nodes: seq<Node>, start: Node, end: Node, cs0: seq<Constraint>) returns (cs: seq<Constraint>)
    ensures cs == cs0 + Conservations(nodes, |nodes|, start, end)
  {
    cs := cs0;
    for i := 0 to |nodes|
      invariant cs == cs0 + Conservations(nodes, i, start, end)
    {
      if nodes[i] != start && nodes[i] != end {
        cs := cs + [Balance(nodes[i].input, nodes[i].output, 0)];
      }
    }
  }

  /** 9a, 9b and 10 for one node, appending to `cs0`. */
  method EmitNode(node: Node, vars: Option<set<Pair>>, cs0: seq<Constraint>) returns (cs: seq<Constraint>)
    ensures cs == cs0 + NodePairs(node, vars)
  {
    cs := EmitBlock(Exclusive, vars, node.output, cs0);
    cs := EmitBlock(Exclusive, vars, node.input, cs);
    cs := EmitBlock(Symmetric, vars, node.input, cs);
  }

  /** The 9a / 9b / 10 loop over the nodes, appending to `cs0`. */
  method EmitNodes(nodes: seq<Node>, vars: Option<set<Pair>>, cs0: seq<Constraint>) returns (cs: seq<Constraint>)
    ensures cs == cs0 + AllNodePairs(nodes, |nodes|, vars)
  {
    cs := cs0;
    for i := 0 to |nodes|
      invariant cs == cs0 + AllNodePairs(nodes, i, vars)
    {
      cs := EmitNode(nodes[i], vars, cs);
    }
  }

  /**
   * model_add_constrain: 8.1 and 8.2, then 8.3 node by node, then 9a, 9b
   * and 10 node by node. `start` and `end` are the travel's two nodes (a
   * node is told apart from them by identity, which is equality of the node
   * values in a graph whose labels are distinct).
   */
  method AddConstraints(nodes: seq<Node>, start: Node, end: Node, vars: Option<set<Pair>>) returns (cs: seq<Constraint>)
    ensures cs == ConstraintList(nodes, start, end, vars)
  {
    cs := [Balance(start.input, start.output, -1)];
    cs := cs + [Balance(end.input, end.output, 1)];
    cs := EmitConservations(nodes, start, end, cs);
    cs := EmitNodes(nodes, vars, cs);
  }

  // ---------------------------------------------------------------------
  // What the constraints say about a candidate solution.
  // ---------------------------------------------------------------------

  /** The sum of the diagonal variables omega(l, l) over the links of `l`. */
  function DiagonalSum(l: seq<nat>, w: Pair -> real): real
  {
    if l == [] then 0.0 else DiagonalSum(l[..|l| - 1], w) + w((l[|l| - 1], l[|l| - 1]))
  }

  /** Whether the values `w` of the variables satisfy constraint `c`. */
  predicate Holds(c: Constraint, w: Pair -> real)
  {
    match c
    case Balance(input, output, rhs) => DiagonalSum(input, w) - DiagonalSum(output, w) == rhs as real
    case Zero(a, b) => w((a, b)) == 0.0
    case Same(a, b) => w((a, b)) == w((b, a))
  }

  lemma {:induction false} DiagonalSumReadsDiagonal(l: seq<nat>, w1: Pair -> real, w2: Pair -> real)
    requires forall x :: w1((x, x)) == w2((x, x))
    ensures DiagonalSum(l, w1) == DiagonalSum(l, w2)
  {
    if l != [] {
      DiagonalSumReadsDiagonal(l[..|l| - 1], w1, w2);
    }
  }

  /**
   * The flow-balance constraints (8.1, 8.2, 8.3) mention only the diagonal
   * variables: two solutions that agree on every omega(l, l) satisfy the
   * same balances.
   */
  lemma BalanceReadsDiagonal(c: Constraint, w1: Pair -> real, w2: Pair -> real)
    requires c.Balance?
    requires forall x :: w1((x, x)) == w2((x, x))
    ensures Holds(c, w1) <==> Holds(c, w2)
  {
    DiagonalSumReadsDiagonal(c.input, w1, w2);
    DiagonalSumReadsDiagonal(c.output, w1, w2);
  }

  lemma {:induction false} ConservationsAreBalances(nodes: seq<Node>, k: nat, start: Node, end: Node)
    requires k <= |nodes|
    ensures forall c :: c in Conservations(nodes, k, start, end) ==> c.Balance? && c.rhs == 0
  {
    if k > 0 {
      ConservationsAreBalances(nodes, k - 1, start, end);
    }
  }

  /** The number of nodes of nodes[..k] other than start and end. */
  function Others(nodes: seq<Node>, k: nat, start: Node, end: Node): nat
    requires k <= |nodes|
  {
    if k == 0 then 0 else Others(nodes, k - 1, start, end) + (if nodes[k - 1] != start && nodes[k - 1] != end then 1 else 0)
  }

  lemma {:induction false} ConservationsCount(nodes: seq<Node>, k: nat, start: Node, end: Node)
    requires k <= |nodes|
    ensures |Conservations(nodes, k, start, end)| == Others(nodes, k, start, end)
  {
    if k > 0 {
      ConservationsCount(nodes, k - 1, start, end);
    }
  }

  lemma {:induction false} OthersCount(nodes: seq<Node>, k: nat, start: Node, end: Node)
    requires k <= |nodes|
    requires forall i, j :: 0 <= i < j < |nodes| ==> nodes[i] != nodes[j]
    ensures Others(nodes, k, start, end) + (if start in nodes[..k] then 1 else 0) + (if end in nodes[..k] && end != start then 1 else 0) == k
  {
    if k > 0 {
      OthersCount(nodes, k - 1, start, end);
      assert nodes[..k] == nodes[..k - 1] + [nodes[k - 1]];
      assert nodes[k - 1] !in nodes[..k - 1];
    }
  }

  /**
   * 8.3 adds exactly one balance with right-hand side 0 per node other than
   * start and end, and none for those two: in a graph with distinct nodes
   * that contains both, |nodes| - 2 of them (|nodes| - 1 when start is end).
   */
  lemma ConservationCount(nodes: seq<Node>, start: Node, end: Node)
    requires forall i, j :: 0 <= i < j < |nodes| ==> nodes[i] != nodes[j]
    requires start in nodes && end in nodes
    ensures forall c :: c in Conservations(nodes, |nodes|, start, end) ==> c.Balance? && c.rhs == 0
    ensures |Conservations(nodes, |nodes|, start, end)| == |nodes| - (if start == end then 1 else 2)
  {
    ConservationsAreBalances(nodes, |nodes|, start, end);
    ConservationsCount(nodes, |nodes|, start, end);
    OthersCount(nodes, |nodes|, start, end);
    assert nodes[..|nodes|] == nodes;
  }

  // ---------------------------------------------------------------------
  // Which pair constraints are added.
  // ---------------------------------------------------------------------

  lemma {:induction false} PairRowMembers(f: Family, vars: Option<set<Pair>>, l: seq<nat>, a: nat, k: nat, c: Constraint)
    requires k <= |l|
    ensures c in PairRow(f, vars, l, a, k) <==> !c.Balance? && c in PairConstraint(f, vars, c.a, c.b) && c.a == a && c.b in l[..k]
  {
    if k > 0 {
      PairRowMembers(f, vars, l, a, k - 1, c);
      assert l[..k] == l[..k - 1] + [l[k - 1]];
    }
  }

  lemma {:induction false} PairBlockMembers(f: Family, vars: Option<set<Pair>>, l: seq<nat>, k: nat, c: Constraint)
    requires k <= |l|
    ensures c in PairBlock(f, vars, l, k) <==> !c.Balance? && c in PairConstraint(f, vars, c.a, c.b) && c.a in l[..k] && c.b in l
  {
    if k > 0 {
      PairBlockMembers(f, vars, l, k - 1, c);
      PairRowMembers(f, vars, l, l[k - 1], |l|, c);
      assert l[..k] == l[..k - 1] + [l[k - 1]];
      assert l[..|l|] == l;
    }
  }

  /** Links a and b both leave, or both enter, node `node`. */
  predicate Siblings(node: Node, a: nat, b: nat)
  {
    (a in node.output && b in node.output) || (a in node.input && b in node.input)
  }

  lemma NodePairsMembers(node: Node, vars: Option<set<Pair>>, a: nat, b: nat)
    ensures Zero(a, b) in NodePairs(node, vars) <==> a != b && Kept(vars, (a, b)) && Siblings(node, a, b)
    ensures Same(a, b) in NodePairs(node, vars) <==>
      a != b && Kept(vars, (a, b)) && Kept(vars, (b, a)) && a in node.input && b in node.input
  {
    assert node.output[..|node.output|] == node.output;
    assert node.input[..|node.input|] == node.input;
    PairBlockMembers(Exclusive, vars, node.output, |node.output|, Zero(a, b));
    PairBlockMembers(Exclusive, vars, node.input, |node.input|, Zero(a, b));
    PairBlockMembers(Symmetric, vars, node.input, |node.input|, Zero(a, b));
    PairBlockMembers(Exclusive, vars, node.output, |node.output|, Same(a, b));
    PairBlockMembers(Exclusive, vars, node.input, |node.input|, Same(a, b));
    PairBlockMembers(Symmetric, vars, node.input, |node.input|, Same(a, b));
  }

  lemma {:induction false} AllNodePairsMembers(nodes: seq<Node>, k: nat, vars: Option<set<Pair>>, a: nat, b: nat)
    requires k <= |nodes|
    ensures Zero(a, b) in AllNodePairs(nodes, k, vars) <==>
      a != b && Kept(vars, (a, b)) && exists i :: 0 <= i < k && Siblings(nodes[i], a, b)
    ensures Same(a, b) in AllNodePairs(nodes, k, vars) <==>
      a != b && Kept(vars, (a, b)) && Kept(vars, (b, a)) && exists i :: 0 <= i < k && a in nodes[i].input && b in nodes[i].input
  {
    if k > 0 {
      AllNodePairsMembers(nodes, k - 1, vars, a, b);
      NodePairsMembers(nodes[k - 1], vars, a, b);
    }
  }

  /**
   * 9a / 9b: omega(a, b) = 0 is added exactly for the distinct links a, b
   * that leave, or enter, a common node (and, with the guard, whose variable
   * exists). 10: omega(a, b) = omega(b, a) exactly for the distinct links
   * that enter a common node, and then in both orders.
   */
  lemma PairConstraintsSpec(nodes: seq<Node>, start: Node, end: Node, vars: Option<set<Pair>>, a: nat, b: nat)
    ensures Zero(a, b) in ConstraintList(nodes, start, end, vars) <==>
      a != b && Kept(vars, (a, b)) && exists i :: 0 <= i < |nodes| && Siblings(nodes[i], a, b)
    ensures Same(a, b) in ConstraintList(nodes, start, end, vars) <==>
      a != b && Kept(vars, (a, b)) && Kept(vars, (b, a)) && exists i :: 0 <= i < |nodes| && a in nodes[i].input && b in nodes[i].input
    ensures Same(a, b) in ConstraintList(nodes, start, end, vars) <==> Same(b, a) in ConstraintList(nodes, start, end, vars)
  {
    AllNodePairsMembers(nodes, |nodes|, vars, a, b);
    AllNodePairsMembers(nodes, |nodes|, vars, b, a);
    ConservationsAreBalances(nodes, |nodes|, start, end);
  }

  // ---------------------------------------------------------------------
  // The guard of the xpress version never filters anything out.
  // ---------------------------------------------------------------------

  /** Every link that a node lists is one of the links 1..L. */
  predicate LabelsWithin(nodes: seq<Node>, L: nat)
  {
    forall i :: 0 <= i < |nodes| ==>
      (forall x :: x in nodes[i].input ==> 1 <= x <= L) && (forall x :: x in nodes[i].output ==> 1 <= x <= L)
  }

  /** The keys of get_hyperlink as a set: every ordered pair of links 1..L. */
  function PairSet(L: nat): set<Pair>
  {
    set p | p in AllPairs(L)
  }

  lemma KeptAll(L: nat, p: Pair)
    requires 1 <= p.0 <= L && 1 <= p.1 <= L
    ensures Kept(Some(PairSet(L)), p)
  {
    AllPairsMembers(L);
  }

  lemma {:induction false} PairRowUnguarded(f: Family, L: nat, l: seq<nat>, a: nat, k: nat)
    requires k <= |l| && 1 <= a <= L && forall x :: x in l ==> 1 <= x <= L
    ensures PairRow(f, Some(PairSet(L)), l, a, k) == PairRow(f, None, l, a, k)
  {
    if k > 0 {
      PairRowUnguarded(f, L, l, a, k - 1);
      var b := l[k - 1];
      assert b in l;
      KeptAll(L, (a, b));
      KeptAll(L, (b, a));
      assert PairConstraint(f, Some(PairSet(L)), a, b) == PairConstraint(f, None, a, b);
    }
  }

  lemma {:induction false} PairBlockUnguarded(f: Family, L: nat, l: seq<nat>, k: nat)
    requires k <= |l| && forall x :: x in l ==> 1 <= x <= L
    ensures PairBlock(f, Some(PairSet(L)), l, k) == PairBlock(f, None, l, k)
  {
    if k > 0 {
      PairBlockUnguarded(f, L, l, k - 1);
      var a := l[k - 1];
      assert a in l;
      PairRowUnguarded(f, L, l, a, |l|);
      assert PairBlock(f, None, l, k) == PairBlock(f, None, l, k - 1) + PairRow(f, None, l, a, |l|);
    }
  }

  lemma {:induction false} AllNodePairsUnguarded(nodes: seq<Node>, L: nat, k: nat)
    requires k <= |nodes| && LabelsWithin(nodes, L)
    ensures AllNodePairs(nodes, k, Some(PairSet(L))) == AllNodePairs(nodes, k, None)
  {
    if k > 0 {
      AllNodePairsUnguarded(nodes, L, k - 1);
      NodePairsUnguarded(nodes[k - 1], L);
    }
  }

  lemma NodePairsUnguarded(node: Node, L: nat)
    requires forall x :: x in node.input ==> 1 <= x <= L
    requires forall x :: x in node.output ==> 1 <= x <= L
    ensures NodePairs(node, Some(PairSet(L))) == NodePairs(node, None)
  {
    PairBlockUnguarded(Exclusive, L, node.output, |node.output|);
    PairBlockUnguarded(Exclusive, L, node.input, |node.input|);
    PairBlockUnguarded(Symmetric, L, node.input, |node.input|);
  }

  /**
   * The variables are created for the keys of get_hyperlink, every ordered
   * pair of links 1..L. With those variables the `in omega` guards of the
   * xpress version always hold, so it adds the same constraints, in the
   * same order, as the unguarded gurobipy version.
   */
  lemma GuardNeverFilters(nodes: seq<Node>, links: seq<Link>, start: Node, end: Node)
    requires Wf(nodes, links)
    ensures ConstraintList(nodes, start, end, Some(PairSet(|links|))) == ConstraintList(nodes, start, end, None)
  {
    forall i | 0 <= i < |nodes|
      ensures (forall x :: x in nodes[i].input ==> 1 <= x <= |links|) && (forall x :: x in nodes[i].output ==> 1 <= x <= |links|)
    {
      forall x | x in nodes[i].input ensures 1 <= x <= |links| {
        InOfMembers(links, i + 1, x);
      }
      forall x | x in nodes[i].output ensures 1 <= x <= |links| {
        OutOfMembers(links, i + 1, x);
      }
    }
    AllNodePairsUnguarded(nodes, |links|, |nodes|);
  }
}
