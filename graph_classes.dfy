/**
 * The graph of graph_classes.py: a Graph object whose node and link lists
 * grow by appending, links that register themselves with their endpoints,
 * the hyperlink table over every ordered pair of links, and the conversions
 * from and to an incidence matrix. A Travel records an origin, a destination
 * and the links a solver appends to it.
 */
module Graphs {
  import opened Wrappers
  import opened GraphData
  import opened Incidence

  /** IndexError of a list lookup; the TypeError of `None * sigma` when a correlation is missing. */
  datatype GraphError = IndexError | MissingCorrelation(a: nat, b: nat)

  /** Link a carries a correlation entry for link b (both labels inside the graph). */
  predicate Correlated(links: seq<Link>, a: nat, b: nat)
  {
    1 <= a <= |links| && 1 <= b <= |links| && b in links[a - 1].rho
  }

  /** Every ordered pair of links has a correlation entry. */
  predicate AllCorrelated(links: seq<Link>)
  {
    forall a, b :: 1 <= a <= |links| && 1 <= b <= |links| ==> Correlated(links, a, b)
  }

  /** Every pair of `ps` has a correlation entry. */
  predicate PairsCorrelated(links: seq<Link>, ps: seq<Pair>)
  {
    forall k :: 0 <= k < |ps| ==> Correlated(links, ps[k].0, ps[k].1)
  }

  /** The weight of a hyperlink: phi = rho * sigma_a * sigma_b. */
  function Phi(rho: real, sigmaA: real, sigmaB: real): real
  {
    rho * sigmaA * sigmaB
  }

  /** Hyperlink(link_a, link_b, link_a.rho.get(link_b)) and its weight phi. */
  function MakeHyperlink(links: seq<Link>, a: nat, b: nat): Hyperlink
    requires Correlated(links, a, b)
  {
    var rho := links[a - 1].rho[b];
    Hyperlink(a, b, rho, Phi(rho, links[a - 1].sigma, links[b - 1].sigma))
  }

  function MakeHyperlinks(links: seq<Link>, ps: seq<Pair>): (hs: seq<Hyperlink>)
    requires PairsCorrelated(links, ps)
    ensures |hs| == |ps|
  {
    if ps == [] then [] else MakeHyperlinks(links, ps[..|ps| - 1]) + [MakeHyperlink(links, ps[|ps| - 1].0, ps[|ps| - 1].1)]
  }

  /** When every correlation is present, every pair get_hyperlink visits has one. */
  lemma {:induction false} AllPairsCorrelated(links: seq<Link>)
    requires AllCorrelated(links)
    ensures PairsCorrelated(links, AllPairs(|links|))
  {
    var L, ps := |links|, AllPairs(|links|);
    forall k | 0 <= k < |ps| ensures Correlated(links, ps[k].0, ps[k].1) {
      AllPairsExactlyOnce(L, ps[k]);
      assert ps[k] in multiset(ps);
    }
  }

  /** get_hyperlink visits every ordered pair, so it succeeds only when all correlations are present. */
  lemma {:induction false} CorrelatedFromPairs(links: seq<Link>)
    requires PairsCorrelated(links, AllPairs(|links|))
    ensures AllCorrelated(links)
  {
    var L, ps := |links|, AllPairs(|links|);
    forall a, b | 1 <= a <= L && 1 <= b <= L ensures Correlated(links, a, b) {
      AllPairsExactlyOnce(L, (a, b));
      assert (a, b) in multiset(ps);
      var k :| 0 <= k < |ps| && ps[k] == (a, b);
    }
  }

  /** The table get_hyperlink returns, in its insertion order. */
  function HyperlinksOf(links: seq<Link>): seq<Hyperlink>
    requires AllCorrelated(links)
  {
    AllPairsCorrelated(links);
    MakeHyperlinks(links, AllPairs(|links|))
  }

  lemma {:induction false} MakeHyperlinksAt(links: seq<Link>, ps: seq<Pair>, k: nat)
    requires PairsCorrelated(links, ps)
    requires k < |ps|
    ensures MakeHyperlinks(links, ps)[k] == MakeHyperlink(links, ps[k].0, ps[k].1)
  {
    if k < |ps| - 1 {
      MakeHyperlinksAt(links, ps[..|ps| - 1], k);
    }
  }

  /**
   * get_hyperlink has exactly one entry per ordered pair of links (|links|^2
   * entries), and the entry for (a, b) carries rho_ab and
   * phi = rho_ab * sigma_a * sigma_b.
   */
  lemma HyperlinksSpec(links: seq<Link>, k: nat)
    requires AllCorrelated(links)
    requires k < |HyperlinksOf(links)|
    ensures |HyperlinksOf(links)| == |links| * |links|
    ensures var p, h := AllPairs(|links|)[k], HyperlinksOf(links)[k];
      && multiset(AllPairs(|links|))[p] == 1
      && 1 <= p.0 <= |links| && 1 <= p.1 <= |links|
      && h.a == p.0 && h.b == p.1
      && p.1 in links[p.0 - 1].rho
      && h.rho == links[p.0 - 1].rho[p.1]
      && h.phi == Phi(h.rho, links[p.0 - 1].sigma, links[p.1 - 1].sigma)
  {
    var ps := AllPairs(|links|);
    AllPairsCorrelated(links);
    var p := ps[k];
    AllPairsExactlyOnce(|links|, p);
    MakeHyperlinksAt(links, ps, k);
  }

  lemma MissingCorrelationBreaks(links: seq<Link>, a: nat, b: nat)
    requires 1 <= a <= |links| && 1 <= b <= |links| && b !in links[a - 1].rho
    ensures !AllCorrelated(links)
  {
    assert !Correlated(links, a, b);
  }

  lemma MakeHyperlinksSnoc(links: seq<Link>, ps: seq<Pair>, a: nat, b: nat)
    requires PairsCorrelated(links, ps) && Correlated(links, a, b)
    ensures PairsCorrelated(links, ps + [(a, b)])
    ensures MakeHyperlinks(links, ps + [(a, b)]) == MakeHyperlinks(links, ps) + [MakeHyperlink(links, a, b)]
  {
    assert (ps + [(a, b)])[..|ps|] == ps;
  }

  /**
   * The inner loop of get_hyperlink for link a: it extends `acc`, the
   * hyperlinks of the pairs `done`, with those of (a, 1), ..., (a, |links|),
   * or stops at the first b without a correlation entry.
   */
  method HyperlinkRow(links: seq<Link>, a: nat, acc0: seq<Hyperlink>, ghost done: seq<Pair>)
    returns (r: Result<seq<Hyperlink>, GraphError>)
    requires 1 <= a <= |links|
    requires PairsCorrelated(links, done) && acc0 == MakeHyperlinks(links, done)
    ensures r.Ok? ==> PairsCorrelated(links, done + Row(a, |links|)) && r.value == MakeHyperlinks(links, done + Row(a, |links|))
    ensures r.Err? ==> r.error.MissingCorrelation? && r.error.a == a && 1 <= r.error.b <= |links| && r.error.b !in links[a - 1].rho
  {
    ghost var ps := done;
    var acc := acc0;
    var b := 1;
    assert done + Row(a, 0) == done;
    while b <= |links|
      invariant 1 <= b <= |links| + 1
      invariant ps == done + Row(a, b - 1)
      invariant PairsCorrelated(links, ps) && acc == MakeHyperlinks(links, ps)
    {
      if b !in links[a - 1].rho {
        return Err(MissingCorrelation(a, b));
      }
      MakeHyperlinksSnoc(links, ps, a, b);
      AppendAssoc(done, Row(a, b - 1), [(a, b)]);
      acc := acc + [MakeHyperlink(links, a, b)];
      ps := ps + [(a, b)];
      b := b + 1;
    }
    return Ok(acc);
  }

  /**
   * The two nested loops of get_hyperlink: one hyperlink per ordered pair of
   * links; a missing correlation makes `None * sigma` raise.
   */
  method CollectHyperlinks(links: seq<Link>) returns (r: Result<seq<Hyperlink>, GraphError>)
    ensures r.Ok? <==> AllCorrelated(links)
    ensures r.Ok? ==> r.value == HyperlinksOf(links)
    ensures r.Err? ==> r.error.MissingCorrelation? && 1 <= r.error.a <= |links| && 1 <= r.error.b <= |links| && r.error.b !in links[r.error.a - 1].rho
  {
    var L := |links|;
    var acc: seq<Hyperlink> := [];
    ghost var ps: seq<Pair> := [];
    var a := 1;
    while a <= L
      invariant 1 <= a <= L + 1
      invariant ps == Rows(a - 1, L)
      invariant PairsCorrelated(links, ps) && acc == MakeHyperlinks(links, ps)
    {
      var row := HyperlinkRow(links, a, acc, ps);
      if row.Err? {
        MissingCorrelationBreaks(links, a, row.error.b);
        return row;
      }
      acc := row.value;
      RowsStep(a, L);
      ps := ps + Row(a, L);
      a := a + 1;
    }
    CorrelatedFromPairs(links);
    return Ok(acc);
  }

  /** phi of each pair as get_hyperlink's table gives it; 0 for a pair outside the table. */
  function PhiOf(links: seq<Link>): Pair -> real
  {
    (p: Pair) => if Correlated(links, p.0, p.1) then MakeHyperlink(links, p.0, p.1).phi else 0.0
  }

  /** mu of each link label; 0 for a label outside the graph. */
  function MuOf(links: seq<Link>): nat -> real
  {
    (a: nat) => if 1 <= a <= |links| then links[a - 1].mu else 0.0
  }

  /** PhiOf reads the table: at the position of each pair it gives that entry's phi. */
  lemma PhiOfTable(links: seq<Link>, k: nat)
    requires AllCorrelated(links)
    requires k < |HyperlinksOf(links)|
    ensures PhiOf(links)(AllPairs(|links|)[k]) == HyperlinksOf(links)[k].phi
  {
    HyperlinksSpec(links, k);
  }

  /** Every link's correlation with every link b equals b's correlation with it. */
  ghost predicate SymmetricRho(links: seq<Link>)
  {
    forall a, b :: Correlated(links, a, b) && Correlated(links, b, a) ==> links[a - 1].rho[b] == links[b - 1].rho[a]
  }

  /**
   * With symmetric correlations the table get_hyperlink returns is
   * symmetric: the entry for (a, b) has a mirror entry for (b, a) with the
   * same rho and the same phi.
   */
  lemma HyperlinksSymmetric(links: seq<Link>, k: nat)
    requires AllCorrelated(links) && SymmetricRho(links)
    requires k < |HyperlinksOf(links)|
    ensures var hs := HyperlinksOf(links);
      exists j :: 0 <= j < |hs| && hs[j].a == hs[k].b && hs[j].b == hs[k].a && hs[j].rho == hs[k].rho && hs[j].phi == hs[k].phi
  {
    var hs, ps := HyperlinksOf(links), AllPairs(|links|);
    HyperlinksSpec(links, k);
    var a, b := ps[k].0, ps[k].1;
    assert Correlated(links, a, b) && Correlated(links, b, a);
    assert links[a - 1].rho[b] == links[b - 1].rho[a];
    var j := PairIndex(|links|, (b, a));
    HyperlinksSpec(links, j);
    PhiSwap(links[a - 1].rho[b], links[a - 1].sigma, links[b - 1].sigma);
    assert hs[j].a == hs[k].b && hs[j].b == hs[k].a && hs[j].rho == hs[k].rho && hs[j].phi == hs[k].phi;
  }

  /** The position of a pair of labels in the enumeration of all pairs. */
  lemma PairIndex(L: nat, p: Pair) returns (j: nat)
    requires 1 <= p.0 <= L && 1 <= p.1 <= L
    ensures j < |AllPairs(L)| && AllPairs(L)[j] == p
  {
    AllPairsExactlyOnce(L, p);
    assert p in multiset(AllPairs(L));
    j :| 0 <= j < |AllPairs(L)| && AllPairs(L)[j] == p;
  }

  lemma PhiSwap(rho: real, sigmaA: real, sigmaB: real)
    ensures Phi(rho, sigmaA, sigmaB) == Phi(rho, sigmaB, sigmaA)
  {
    assert rho * sigmaA * sigmaB == rho * sigmaB * sigmaA;
  }

  lemma {:induction false} NoneLeave(links: seq<Link>, n: nat)
    requires forall j :: 0 <= j < |links| ==> links[j].id == j + 1 && links[j].origin != n && links[j].destination != n
    ensures OutOf(links, n) == [] && InOf(links, n) == []
  {
    if OutOf(links, n) != [] {
      OutOfMembers(links, n, OutOf(links, n)[0]);
    }
    if InOf(links, n) != [] {
      InOfMembers(links, n, InOf(links, n)[0]);
    }
  }
  /**
   * A new link with the next label, registered with its origin's output and
   * its destination's input, keeps the graph invariant.
   */
  lemma AddLinkKeepsWf(nodes: seq<Node>, links: seq<Link>, ns: seq<Node>, l: Link)
    requires Wf(nodes, links)
    requires l.id == |links| + 1 && 1 <= l.origin <= |nodes| && 1 <= l.destination <= |nodes|
    requires |ns| == |nodes|
    requires forall i :: 0 <= i < |ns| ==>
      && ns[i].id == nodes[i].id
      && ns[i].output == nodes[i].output + (if i + 1 == l.origin then [l.id] else [])
      && ns[i].input == nodes[i].input + (if i + 1 == l.destination then [l.id] else [])
    ensures Wf(ns, links + [l])
  {
    var ls := links + [l];
    assert ls[..|ls| - 1] == links;
  }

  /** A new node with the next label and no links keeps the graph invariant. */
  lemma AddNodeKeepsWf(nodes: seq<Node>, links: seq<Link>)
    requires Wf(nodes, links)
    ensures Wf(nodes + [Node(|nodes| + 1, [], [])], links)
  {
    var node := Node(|nodes| + 1, [], []);
    NoneLeave(links, node.id);
    var ns := nodes + [node];
    forall i | 0 <= i < |ns|
      ensures ns[i].id == i + 1 && ns[i].output == OutOf(links, i + 1) && ns[i].input == InOf(links, i + 1)
    {
      if i < |nodes| {
        assert ns[i] == nodes[i];
      }
    }
  }


  class Graph {
    var nodes: seq<Node>
    var links: seq<Link>

    ghost predicate Valid()
      reads this
    {
      Wf(nodes, links)
    }

    constructor ()
      ensures Valid() && nodes == [] && links == []
    {
      nodes := [];
      links := [];
    }

    /** add_node: the new node gets the next dense label and empty lists. */
    method AddNode() returns (node: Node)
      requires Valid()
      modifies this
      ensures Valid()
      ensures node == Node(|old(nodes)| + 1, [], [])
      ensures nodes == old(nodes) + [node] && links == old(links)
    {
      node := Node(|nodes| + 1, [], []);
      AddNodeKeepsWf(nodes, links);
      nodes := nodes + [node];
    }

    /**
     * add_link: the new link gets label len(links) + 1, is appended to
     * `links`, and registers itself in its origin's output list and its
     * destination's input list; no other node list changes.
     */
    method AddLink(origin: nat, destination: nat, mu: real, sigma: real) returns (link: Link)
      requires Valid()
      requires 1 <= origin <= |nodes| && 1 <= destination <= |nodes|
      modifies this
      ensures Valid()
      ensures link == Link(|old(links)| + 1, origin, destination, mu, sigma, map[])
      ensures links == old(links) + [link]
      ensures |nodes| == |old(nodes)|
      ensures forall i :: 0 <= i < |nodes| ==>
        && nodes[i].id == old(nodes[i].id)
        && nodes[i].output == old(nodes[i].output) + (if i + 1 == origin then [link.id] else [])
        && nodes[i].input == old(nodes[i].input) + (if i + 1 == destination then [link.id] else [])
    {
      link := Link(|links| + 1, origin, destination, mu, sigma, map[]);
      var o := nodes[origin - 1];
      nodes := nodes[origin - 1 := o.(output := o.output + [link.id])];
      var d := nodes[destination - 1];
      nodes := nodes[destination - 1 := d.(input := d.input + [link.id])];
      AddLinkKeepsWf(old(nodes), links, nodes, link);
      links := links + [link];
    }

    /** get_node(label) = nodes[label - 1], with Python's negative indexing. */
    function GetNode(nodeLabel: int): (r: Result<Node, GraphError>)
      requires Valid()
      reads this
      ensures r.Ok? <==> -|nodes| < nodeLabel <= |nodes|
      ensures r.Ok? ==> r.value in nodes && r.value.id == if nodeLabel >= 1 then nodeLabel else nodeLabel + |nodes|
      ensures r.Err? ==> r.error == IndexError
    {
      var i := nodeLabel - 1;
      if 0 <= i < |nodes| then Ok(nodes[i])
      else if -|nodes| <= i < 0 then Ok(nodes[|nodes| + i])
      else Err(IndexError)
    }

    /** link_a.rho[link_b] = value, as the instance generators set correlations. */
    method SetCorrelation(a: nat, b: nat, value: real)
      requires Valid() && 1 <= a <= |links| && 1 <= b <= |links|
      modifies this
      ensures Valid() && nodes == old(nodes) && |links| == |old(links)|
      ensures links[a - 1] == old(links[a - 1]).(rho := old(links[a - 1].rho)[b := value])
      ensures forall j :: 0 <= j < |links| && j != a - 1 ==> links[j] == old(links[j])
    {
      var l := links[a - 1];
      ghost var before := links;
      links := links[a - 1 := l.(rho := l.rho[b := value])];
      forall n: nat ensures OutOf(links, n) == OutOf(before, n) && InOf(links, n) == InOf(before, n) {
        SameEndpoints(links, before, n);
      }
    }

    /**
     * get_hyperlink: one hyperlink per ordered pair of links, in two nested
     * loops over `links`; a missing correlation makes `None * sigma` raise.
     */
    method GetHyperlink() returns (r: Result<seq<Hyperlink>, GraphError>)
      requires Valid()
      ensures r.Ok? <==> AllCorrelated(links)
      ensures r.Ok? ==> r.value == HyperlinksOf(links)
      ensures r.Err? ==> r.error.MissingCorrelation? && 1 <= r.error.a <= |links| && 1 <= r.error.b <= |links| && r.error.b !in links[r.error.a - 1].rho
    {
      r := CollectHyperlinks(links);
    }

    /** to_incidence_matrix: row i, column j holds -1 at the origin and +1 at the destination of link j + 1. */
    method ToIncidenceMatrix() returns (m: seq<seq<int>>)
      requires Valid()
      ensures m == IncidenceOf(|nodes|, links)
    {
      var n, L := |nodes|, |links|;
      m := seq(n, i => seq(L, j => 0));
      var j := 0;
      while j < L
        invariant 0 <= j <= L
        invariant |m| == n
        invariant forall i :: 0 <= i < n ==> |m[i]| == L
        invariant forall i, k :: 0 <= i < n && 0 <= k < L ==> m[i][k] == if k < j then Entry(links[k], i + 1) else 0
      {
        var link := links[j];
        var o, d := link.origin - 1, link.destination - 1;
        m := m[o := m[o][j := -1]];
        m := m[d := m[d][j := 1]];
        j := j + 1;
      }
      assert forall i :: 0 <= i < n ==> m[i] == IncidenceOf(n, links)[i];
    }

    /** The first loop of from_incidence_matrix: one node per row. */
    method AddNodes(count: nat)
      requires Valid() && nodes == [] && links == []
      modifies this
      ensures Valid() && |nodes| == count && links == []
    {
      var i := 0;
      while i < count
        invariant 0 <= i <= count
        invariant Valid() && |nodes| == i && links == []
      {
        var _ := AddNode();
        i := i + 1;
      }
    }

    /** The second loop of from_incidence_matrix: one link per column, between the rows of its -1 and its +1. */
    method AddColumnLinks(m: seq<seq<int>>, mu: Option<seq<real>>, sigma: Option<seq<real>>)
      requires Accepted(m, mu, sigma)
      requires Valid() && |nodes| == |m| && links == []
      modifies this
      ensures Valid() && |nodes| == |m| && links == LinksFrom(m, mu, sigma)
    {
      ghost var target := LinksFrom(m, mu, sigma);
      var j := 0;
      while j < |m[0]|
        invariant 0 <= j <= |m[0]|
        invariant Valid() && |nodes| == |m| && links == target[..j]
      {
        assert ColumnOk(m, j);
        var o, d := ColumnEnds(m, j);
        var _ := AddLink(o + 1, d + 1, ValueAt(mu, j), ValueAt(sigma, j));
        assert target[..j + 1] == target[..j] + [target[j]];
        j := j + 1;
      }
      assert target[..|m[0]|] == target;
    }

    /**
     * from_incidence_matrix: the checks of Validate in order, then one node
     * per row and one link per column, from the row holding -1 to the row
     * holding +1, with mu and sigma from the lists (0.0 when absent).
     */
    static method FromIncidenceMatrix(m: seq<seq<int>>, mu: Option<seq<real>>, sigma: Option<seq<real>>)
      returns (r: Result<Graph, IncidenceError>)
      ensures r.Err? <==> !Accepted(m, mu, sigma)
      ensures r.Err? ==> Validate(m, mu, sigma) == Some(r.error)
      ensures r.Ok? ==> fresh(r.value) && r.value.Valid()
      ensures r.Ok? ==> Accepted(m, mu, sigma) && |r.value.nodes| == |m| && r.value.links == LinksFrom(m, mu, sigma)
    {
      ValidateSpec(m, mu, sigma);
      var err := CheckMatrix(m, mu, sigma);
      if err.Some? {
        return Err(err.value);
      }
      var g := new Graph();
      g.AddNodes(|m|);
      g.AddColumnLinks(m, mu, sigma);
      return Ok(g);
    }
  }

  lemma {:induction false} SameEndpoints(xs: seq<Link>, ys: seq<Link>, n: nat)
    requires |xs| == |ys|
    requires forall j :: 0 <= j < |xs| ==> xs[j].id == ys[j].id && xs[j].origin == ys[j].origin && xs[j].destination == ys[j].destination
    ensures OutOf(xs, n) == OutOf(ys, n) && InOf(xs, n) == InOf(ys, n)
  {
    if xs != [] {
      SameEndpoints(xs[..|xs| - 1], ys[..|ys| - 1], n);
    }
  }

  /** A travel between two nodes; the solvers append the labels of the links of the path found. */
  class Travel {
    const origin: nat
    const destination: nat
    var links: seq<nat>

    constructor (origin: nat, destination: nat)
      ensures this.origin == origin && this.destination == destination && links == []
    {
      this.origin := origin;
      this.destination := destination;
      links := [];
    }
  }
}
