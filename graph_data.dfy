/**
 * Values shared by the graph model: nodes, links, hyperlinks, the ordered
 * pairs of link labels, and the adjacency invariant that ties every node's
 * input/output lists to the list of links.
 *
 * Nodes and links are identified by their dense 1-based labels; a node
 * records its incoming and outgoing links by label, in insertion order.
 */
module GraphData {

  /** An ordered pair of labels, e.g. the hyperlink (a, b) of links a and b. */
  type Pair = (nat, nat)

  datatype Node = Node(id: nat, input: seq<nat>, output: seq<nat>)

  /** A link. `rho` maps the label of another link to the correlation with it. */
  datatype Link = Link(id: nat, origin: nat, destination: nat, mu: real, sigma: real, rho: map<nat, real>)

  /** A hyperlink of graph_classes.py: the pair, its correlation and phi = rho * sigma_a * sigma_b. */
  datatype Hyperlink = Hyperlink(a: nat, b: nat, rho: real, phi: real)

  /** Labels of the links leaving node `n`, in the order of `links`. */
  function OutOf(links: seq<Link>, n: nat): seq<nat>
  {
    if links == [] then []
    else OutOf(links[..|links| - 1], n) + (if links[|links| - 1].origin == n then [links[|links| - 1].id] else [])
  }

  /** Labels of the links entering node `n`, in the order of `links`. */
  function InOf(links: seq<Link>, n: nat): seq<nat>
  {
    if links == [] then []
    else InOf(links[..|links| - 1], n) + (if links[|links| - 1].destination == n then [links[|links| - 1].id] else [])
  }

  /** Links carry the dense labels 1..|links| and join nodes of the graph. */
  predicate LinksWf(nodeCount: nat, links: seq<Link>)
  {
    forall j :: 0 <= j < |links| ==>
      links[j].id == j + 1 && 1 <= links[j].origin <= nodeCount && 1 <= links[j].destination <= nodeCount
  }

  /**
   * The graph invariant: dense node and link labels, endpoints inside the
   * graph, and every node's lists are exactly the links that leave / enter it.
   */
  predicate Wf(nodes: seq<Node>, links: seq<Link>)
  {
    && (forall i :: 0 <= i < |nodes| ==> nodes[i].id == i + 1)
    && LinksWf(|nodes|, links)
    && (forall i :: 0 <= i < |nodes| ==> nodes[i].output == OutOf(links, i + 1) && nodes[i].input == InOf(links, i + 1))
  }

  lemma {:induction false} OutOfMembers(links: seq<Link>, n: nat, x: nat)
    requires forall j :: 0 <= j < |links| ==> links[j].id == j + 1
    ensures x in OutOf(links, n) <==> 1 <= x <= |links| && links[x - 1].origin == n
  {
    if links != [] {
      var init := links[..|links| - 1];
      assert forall j :: 0 <= j < |init| ==> init[j].id == j + 1;
      OutOfMembers(init, n, x);
    }
  }

  lemma {:induction false} InOfMembers(links: seq<Link>, n: nat, x: nat)
    requires forall j :: 0 <= j < |links| ==> links[j].id == j + 1
    ensures x in InOf(links, n) <==> 1 <= x <= |links| && links[x - 1].destination == n
  {
    if links != [] {
      var init := links[..|links| - 1];
      assert forall j :: 0 <= j < |init| ==> init[j].id == j + 1;
      InOfMembers(init, n, x);
    }
  }

  /** The pairs (a, 1), ..., (a, c). */
  function Row(a: nat, c: nat): (r: seq<Pair>)
    ensures |r| == c
  {
    if c == 0 then [] else Row(a, c - 1) + [(a, c)]
  }

  /** Rows 1..r of the L x L pairs, row-major. */
  function Rows(r: nat, L: nat): seq<Pair>
  {
    if r == 0 then [] else Rows(r - 1, L) + Row(r, L)
  }

  lemma RowsStep(r: nat, L: nat)
    requires r > 0
    ensures Rows(r, L) == Rows(r - 1, L) + Row(r, L)
  {
  }

  /** Every ordered pair of link labels 1..L, in the order of two nested loops over the links. */
  function AllPairs(L: nat): seq<Pair>
  {
    Rows(L, L)
  }

  lemma {:induction false} RowAt(a: nat, c: nat, k: nat)
    requires k < c
    ensures Row(a, c)[k] == (a, k + 1)
  {
    if k < c - 1 {
      RowAt(a, c - 1, k);
    }
  }

  /** How often x occurs in s: the count of a multiset, by recursion on the last element. */
  function Occurrences<T(==)>(s: seq<T>, x: T): nat
  {
    if s == [] then 0 else Occurrences(s[..|s| - 1], x) + (if s[|s| - 1] == x then 1 else 0)
  }

  lemma {:induction false} OccurrencesAppend<T>(s: seq<T>, t: seq<T>, x: T)
    ensures Occurrences(s + t, x) == Occurrences(s, x) + Occurrences(t, x)
  {
    if t != [] {
      OccurrencesAppend(s, t[..|t| - 1], x);
      assert (s + t)[..|s + t| - 1] == s + t[..|t| - 1];
    } else {
      assert s + t == s;
    }
  }

  lemma {:induction false} OccurrencesMultiset<T>(s: seq<T>, x: T)
    ensures multiset(s)[x] == Occurrences(s, x)
  {
    if s != [] {
      OccurrencesMultiset(s[..|s| - 1], x);
      assert s == s[..|s| - 1] + [s[|s| - 1]];
    }
  }

  lemma {:induction false} RowOccurrences(a: nat, c: nat, p: Pair)
    ensures Occurrences(Row(a, c), p) == if p.0 == a && 1 <= p.1 <= c then 1 else 0
  {
    if c > 0 {
      RowOccurrences(a, c - 1, p);
      assert Row(a, c)[..c - 1] == Row(a, c - 1);
    }
  }

  lemma {:induction false} RowsOccurrences(r: nat, L: nat, p: Pair)
    ensures Occurrences(Rows(r, L), p) == if 1 <= p.0 <= r && 1 <= p.1 <= L then 1 else 0
  {
    if r > 0 {
      RowsOccurrences(r - 1, L, p);
      RowOccurrences(r, L, p);
      OccurrencesAppend(Rows(r - 1, L), Row(r, L), p);
    }
  }

  lemma {:induction false} RowsLength(r: nat, L: nat)
    ensures |Rows(r, L)| == r * L
  {
    if r > 0 {
      RowsLength(r - 1, L);
      assert (r - 1) * L + L == r * L;
    }
  }

  /** get_hyperlink enumerates |links|^2 pairs, each ordered pair of labels exactly once. */
  lemma AllPairsExactlyOnce(L: nat, p: Pair)
    ensures |AllPairs(L)| == L * L
    ensures multiset(AllPairs(L))[p] == if 1 <= p.0 <= L && 1 <= p.1 <= L then 1 else 0
  {
    RowsLength(L, L);
    RowsOccurrences(L, L, p);
    OccurrencesMultiset(AllPairs(L), p);
  }

  /** The pairs get_hyperlink enumerates are exactly those of two labels in 1..L. */
  lemma AllPairsMembers(L: nat)
    ensures |AllPairs(L)| == L * L
    ensures forall p :: p in AllPairs(L) <==> 1 <= p.0 <= L && 1 <= p.1 <= L
  {
    forall p ensures p in AllPairs(L) <==> 1 <= p.0 <= L && 1 <= p.1 <= L {
      AllPairsExactlyOnce(L, p);
      assert p in AllPairs(L) <==> p in multiset(AllPairs(L));
    }
    RowsLength(L, L);
  }
}
