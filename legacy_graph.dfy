/**
 * The older graph of creazione_problema.py. Nodes and links behave as in
 * graph_classes.py, but the list of links is the field `link`, there is no
 * to_incidence_matrix and no get_node, and a Hyperlink stores only its pair
 * of links: the correlation passed to it is dropped, so a missing
 * correlation is never an error.
 */
module LegacyGraphs {
  import opened Wrappers
  import opened GraphData
  import opened Incidence
  import Graphs

  class LegacyGraph {
    var nodes: seq<Node>
    var link: seq<Link>

    ghost predicate Valid()
      reads this
    {
      Wf(nodes, link)
    }

    constructor ()
      ensures Valid() && nodes == [] && link == []
    {
      nodes := [];
      link := [];
    }

    /** add_node: the new node gets the next dense label and empty lists. */
    method AddNode() returns (node: Node)
      requires Valid()
      modifies this
      ensures Valid()
      ensures node == Node(|old(nodes)| + 1, [], [])
      ensures nodes == old(nodes) + [node] && link == old(link)
    {
      node := Node(|nodes| + 1, [], []);
      Graphs.AddNodeKeepsWf(nodes, link);
      nodes := nodes + [node];
    }

    /**
     * add_link: label len(link) + 1, appended to `link`; the Link constructor
     * registers it with its origin's output and its destination's input.
     */
    method AddLink(origin: nat, destination: nat, mu: real, sigma: real) returns (l: Link)
      requires Valid()
      requires 1 <= origin <= |nodes| && 1 <= destination <= |nodes|
      modifies this
      ensures Valid()
      ensures l == Link(|old(link)| + 1, origin, destination, mu, sigma, map[])
      ensures link == old(link) + [l]
      ensures |nodes| == |old(nodes)|
      ensures forall i :: 0 <= i < |nodes| ==>
        && nodes[i].id == old(nodes[i].id)
        && nodes[i].output == old(nodes[i].output) + (if i + 1 == origin then [l.id] else [])
        && nodes[i].input == old(nodes[i].input) + (if i + 1 == destination then [l.id] else [])
    {
      l := Link(|link| + 1, origin, destination, mu, sigma, map[]);
      var o := nodes[origin - 1];
      nodes := nodes[origin - 1 := o.(output := o.output + [l.id])];
      var d := nodes[destination - 1];
      nodes := nodes[destination - 1 := d.(input := d.input + [l.id])];
      Graphs.AddLinkKeepsWf(old(nodes), link, nodes, l);
      link := link + [l];
    }

    /**
     * get_hyperlink: the keys (link_a, link_b) of the table, one per ordered
     * pair in two nested loops; no correlation is looked at, so it never fails.
     */
    method GetHyperlink() returns (keys: seq<Pair>)
      requires Valid()
      ensures keys == AllPairs(|link|)
      ensures |keys| == |link| * |link|
      ensures forall p :: p in keys <==> 1 <= p.0 <= |link| && 1 <= p.1 <= |link|
    {
      var L := |link|;
      keys := [];
      var a := 1;
      while a <= L
        invariant 1 <= a <= L + 1
        invariant keys == Rows(a - 1, L)
      {
        var b := 1;
        assert Rows(a - 1, L) + Row(a, 0) == Rows(a - 1, L);
        while b <= L
          invariant 1 <= b <= L + 1
          invariant keys == Rows(a - 1, L) + Row(a, b - 1)
        {
          keys := keys + [(a, b)];
          b := b + 1;
        }
        a := a + 1;
      }
      AllPairsMembers(L);
    }

    /** The first loop of from_incidence_matrix: one node per row. */
    method AddNodes(count: nat)
      requires Valid() && nodes == [] && link == []
      modifies this
      ensures Valid() && |nodes| == count && link == []
    {
      var i := 0;
      while i < count
        invariant 0 <= i <= count
        invariant Valid() && |nodes| == i && link == []
      {
        var _ := AddNode();
        i := i + 1;
      }
    }

    /** The second loop of from_incidence_matrix: one link per column, between the rows of its -1 and its +1. */
    method AddColumnLinks(m: seq<seq<int>>, mu: Option<seq<real>>, sigma: Option<seq<real>>)
      requires Accepted(m, mu, sigma)
      requires Valid() && |nodes| == |m| && link == []
      modifies this
      ensures Valid() && |nodes| == |m| && link == LinksFrom(m, mu, sigma)
    {
      ghost var target := LinksFrom(m, mu, sigma);
      var j := 0;
      while j < |m[0]|
        invariant 0 <= j <= |m[0]|
        invariant Valid() && |nodes| == |m| && link == target[..j]
      {
        assert ColumnOk(m, j);
        var o, d := ColumnEnds(m, j);
        var _ := AddLink(o + 1, d + 1, ValueAt(mu, j), ValueAt(sigma, j));
        assert target[..j + 1] == target[..j] + [target[j]];
        j := j + 1;
      }
      assert target[..|m[0]|] == target;
    }

    /**
     * from_incidence_matrix: the same checks and construction as in
     * graph_classes.py; one node per row, one link per column.
     */
    static method FromIncidenceMatrix(m: seq<seq<int>>, mu: Option<seq<real>>, sigma: Option<seq<real>>)
      returns (r: Result<LegacyGraph, IncidenceError>)
      ensures r.Err? <==> !Accepted(m, mu, sigma)
      ensures r.Err? ==> Validate(m, mu, sigma) == Some(r.error)
      ensures r.Ok? ==> fresh(r.value) && r.value.Valid()
      ensures r.Ok? ==> Accepted(m, mu, sigma) && |r.value.nodes| == |m| && r.value.link == LinksFrom(m, mu, sigma)
    {
      ValidateSpec(m, mu, sigma);
      var err := CheckMatrix(m, mu, sigma);
      if err.Some? {
        return Err(err.value);
      }
      var g := new LegacyGraph();
      g.AddNodes(|m|);
      g.AddColumnLinks(m, mu, sigma);
      return Ok(g);
    }
  }
}
