/**
 * The link x link "hyperlink matrix" of semplificazione_con_grafo.py.
 * Entry (i, j) holds the label "i+1^j+1" while the hyperlink is active and
 * the string '0' once constraint (9a) or (9b) zeroes it; here an entry is
 * `true` while active. The matrix is filled in place in nested loops over
 * the nodes of the incidence matrix.
 */
module HyperlinkMatrix {
  import opened Wrappers

  /** A pair of 0-based link indices (i, j), i.e. the hyperlink i+1^j+1. */
  type Cell = (nat, nat)

  /** Why create_node_hyperlink_incidence_matrix raises. */
  datatype BuildError =
    | MissingEndpoint   // ValueError: origin or destination is 0 / None
    | UnboundInLinks    // no node rows: `in_links` is read before it is ever assigned
    | ColumnMismatch    // ValueError: Hp and J have different column counts

  /** A 2-D numpy incidence matrix: every node row has `numLinks` entries. */
  predicate Shaped(m: seq<seq<int>>, numLinks: nat)
  {
    forall k :: 0 <= k < |m| ==> |m[k]| == numLinks
  }

  /** A square boolean matrix of side n (a snapshot of the hyperlink matrix). */
  predicate Square(active: seq<seq<bool>>, n: nat)
  {
    |active| == n && forall i :: 0 <= i < n ==> |active[i]| == n
  }

  /** np.where(row == v)[0]: the positions holding v, ascending. */
  function Where(row: seq<int>, v: int): (w: seq<nat>)
    ensures forall x :: x in w <==> 0 <= x < |row| && row[x] == v
    ensures forall p, q :: 0 <= p < q < |w| ==> w[p] < w[q]
  {
    if row == [] then []
    else
      var init := row[..|row| - 1];
      var w := Where(init, v);
      assert forall p :: 0 <= p < |w| ==> w[p] in w && w[p] < |init|;
      w + (if row[|row| - 1] == v then [|row| - 1] else [])
  }

  /** Some node among the first `n` rows has both links i and j with coefficient v. */
  predicate SharedAmong(m: seq<seq<int>>, n: nat, i: nat, j: nat, v: int)
    requires n <= |m|
  {
    n > 0 && (SharedAmong(m, n - 1, i, j, v) || (i < |m[n - 1]| && j < |m[n - 1]| && m[n - 1][i] == v && m[n - 1][j] == v))
  }

  lemma {:induction false} SharedSymmetric(m: seq<seq<int>>, n: nat, i: nat, j: nat, v: int)
    requires n <= |m|
    ensures SharedAmong(m, n, i, j, v) == SharedAmong(m, n, j, i, v)
  {
    if n > 0 {
      SharedSymmetric(m, n - 1, i, j, v);
    }
  }

  /**
   * Entry (i, j) as generate_hyperlink_matrix leaves it: the diagonal stays,
   * a pair of distinct links leaving a common node is zeroed (9a), and a pair
   * of distinct links entering the LAST node is zeroed (9b) - the in-pair test
   * sits after the node loop, so only the last node's `in_links` is used.
   */
  predicate ActiveAsWritten(m: seq<seq<int>>, i: nat, j: nat)
    requires |m| > 0
  {
    var last := m[|m| - 1];
    i == j || (!SharedAmong(m, |m|, i, j, -1) && !(i < |last| && j < |last| && last[i] == 1 && last[j] == 1))
  }

  /** Entry (i, j) when (9b) is applied at every node, as constraints (9a)/(9b) state. */
  predicate ActiveIntended(m: seq<seq<int>>, i: nat, j: nat)
  {
    i == j || (!SharedAmong(m, |m|, i, j, -1) && !SharedAmong(m, |m|, i, j, 1))
  }

  /**
   * The double loop over a list of link indices that sets every entry (i, j)
   * with i != j to '0'.
   */
  method ZeroPairs(hm: array2<bool>, ls: seq<nat>)
    requires forall x :: x in ls ==> x < hm.Length0 && x < hm.Length1
    modifies hm
    ensures forall a, b :: 0 <= a < hm.Length0 && 0 <= b < hm.Length1 ==>
      hm[a, b] == (old(hm[a, b]) && !(a != b && a in ls && b in ls))
  {
    for p := 0 to |ls|
      invariant forall a, b :: 0 <= a < hm.Length0 && 0 <= b < hm.Length1 ==>
        hm[a, b] == (old(hm[a, b]) && !(a != b && a in ls[..p] && b in ls))
    {
      assert ls[..p + 1] == ls[..p] + [ls[p]];
      for q := 0 to |ls|
        invariant forall a, b :: 0 <= a < hm.Length0 && 0 <= b < hm.Length1 ==>
          hm[a, b] == (old(hm[a, b]) && !(a != b && ((a in ls[..p] && b in ls) || (a == ls[p] && b in ls[..q]))))
      {
        assert ls[..q + 1] == ls[..q] + [ls[q]];
        assert ls[p] in ls && ls[q] in ls;
        if ls[p] != ls[q] {
          hm[ls[p], ls[q]] := false;
        }
      }
      assert ls[..|ls|] == ls;
    }
  }

  /** A list of at most one index holds no pair of distinct indices. */
  lemma ShortListNoPair(ls: seq<nat>, a: nat, b: nat)
    requires |ls| <= 1 && a in ls && b in ls
    ensures a == b
  {
  }

  /** An n x n matrix with every entry set to its label: all hyperlinks active. */
  method AllActive(n: nat) returns (hm: array2<bool>)
    ensures fresh(hm) && hm.Length0 == n && hm.Length1 == n
    ensures forall a, b :: 0 <= a < n && 0 <= b < n ==> hm[a, b]
  {
    hm := new bool[n, n];
    for i := 0 to n
      invariant forall a, b :: 0 <= a < i && 0 <= b < n ==> hm[a, b]
    {
      for j := 0 to n
        invariant forall a, b :: 0 <= a < i && 0 <= b < n ==> hm[a, b]
        invariant forall b :: 0 <= b < j ==> hm[i, b]
      {
        hm[i, j] := true;
      }
    }
  }

  /**
   * generate_hyperlink_matrix as written: every entry starts active, the
   * out-pairs of every node are zeroed, and after the node loop the in-pairs
   * of the last node visited are zeroed. With no node rows the read of
   * `in_links` fails.
   */
  method GenerateHyperlinkMatrix(m: seq<seq<int>>, numLinks: nat) returns (r: Result<array2<bool>, BuildError>)
    requires Shaped(m, numLinks)
    ensures r.Err? <==> |m| == 0
    ensures r.Err? ==> r.error == UnboundInLinks
    ensures r.Ok? ==> fresh(r.value) && r.value.Length0 == numLinks && r.value.Length1 == numLinks
    ensures r.Ok? ==> forall a, b :: 0 <= a < numLinks && 0 <= b < numLinks ==> r.value[a, b] == ActiveAsWritten(m, a, b)
  {
    var hm := AllActive(numLinks);
    var inLinks: seq<nat> := [];
    for node := 0 to |m|
      invariant forall a, b :: 0 <= a < numLinks && 0 <= b < numLinks ==>
        hm[a, b] == (a == b || !SharedAmong(m, node, a, b, -1))
      invariant node > 0 ==> inLinks == Where(m[node - 1], 1)
    {
      var outLinks := Where(m[node], -1);
      if |outLinks| > 1 {
        ZeroPairs(hm, outLinks);
      } else {
        forall a, b | a in outLinks && b in outLinks ensures a == b {
          ShortListNoPair(outLinks, a, b);
        }
      }
      forall a, b | 0 <= a < numLinks && 0 <= b < numLinks
        ensures hm[a, b] == (a == b || !SharedAmong(m, node + 1, a, b, -1))
      {
      }
      inLinks := Where(m[node], 1);
    }
    if |m| == 0 {
      return Err(UnboundInLinks);
    }
    if |inLinks| > 1 {
      ZeroPairs(hm, inLinks);
    } else {
      forall a, b | a in inLinks && b in inLinks ensures a == b {
        ShortListNoPair(inLinks, a, b);
      }
    }
    return Ok(hm);
  }

  /**
   * The generator with the (9b) test inside the node loop, so that the
   * in-pairs of every node are zeroed.
   */
  method GenerateHyperlinkMatrixIntended(m: seq<seq<int>>, numLinks: nat) returns (hm: array2<bool>)
    requires Shaped(m, numLinks)
    ensures fresh(hm) && hm.Length0 == numLinks && hm.Length1 == numLinks
    ensures forall a, b :: 0 <= a < numLinks && 0 <= b < numLinks ==> hm[a, b] == ActiveIntended(m, a, b)
  {
    hm := AllActive(numLinks);
    for node := 0 to |m|
      invariant forall a, b :: 0 <= a < numLinks && 0 <= b < numLinks ==>
        hm[a, b] == (a == b || (!SharedAmong(m, node, a, b, -1) && !SharedAmong(m, node, a, b, 1)))
    {
      var outLinks := Where(m[node], -1);
      if |outLinks| > 1 {
        ZeroPairs(hm, outLinks);
      } else {
        forall a, b | a in outLinks && b in outLinks ensures a == b {
          ShortListNoPair(outLinks, a, b);
        }
      }
      var inLinks := Where(m[node], 1);
      if |inLinks| > 1 {
        ZeroPairs(hm, inLinks);
      } else {
        forall a, b | a in inLinks && b in inLinks ensures a == b {
          ShortListNoPair(inLinks, a, b);
        }
      }
      forall a, b | 0 <= a < numLinks && 0 <= b < numLinks
        ensures hm[a, b] == (a == b || (!SharedAmong(m, node + 1, a, b, -1) && !SharedAmong(m, node + 1, a, b, 1)))
      {
      }
    }
  }

  /** The hyperlink matrix read back as rows of booleans. */
  function Snapshot(hm: array2<bool>): (active: seq<seq<bool>>)
    reads hm
    ensures Square(active, hm.Length0) || hm.Length0 != hm.Length1
    ensures hm.Length0 == hm.Length1 ==> forall a, b :: 0 <= a < hm.Length0 && 0 <= b < hm.Length1 ==> active[a][b] == hm[a, b]
  {
    seq(hm.Length0, i reads hm => seq(hm.Length1, j reads hm => if 0 <= i < hm.Length0 && 0 <= j < hm.Length1 then hm[i, j] else false))
  }

  /**
   * Both rules zero pairs symmetrically, so the hyperlink matrix is
   * symmetric, and its diagonal is never zeroed.
   */
  lemma AsWrittenSymmetric(m: seq<seq<int>>, i: nat, j: nat)
    requires |m| > 0
    ensures ActiveAsWritten(m, i, j) == ActiveAsWritten(m, j, i)
    ensures ActiveAsWritten(m, i, i)
  {
    SharedSymmetric(m, |m|, i, j, -1);
  }

  /**
   * Zeroing at every node removes at least what the code removes: an entry
   * active in the intended matrix is active in the matrix as written.
   */
  lemma IntendedWithinAsWritten(m: seq<seq<int>>, i: nat, j: nat)
    requires |m| > 0
    ensures ActiveIntended(m, i, j) ==> ActiveAsWritten(m, i, j)
  {
    var last := m[|m| - 1];
    if i != j && i < |last| && j < |last| && last[i] == 1 && last[j] == 1 {
      assert SharedAmong(m, |m|, i, j, 1);
    }
  }

  /** Three nodes; link 1 runs from node 1 to node 2 and link 2 from node 3 to node 2. */
  function TwoInLinksExample(): seq<seq<int>>
  {
    [[-1, 0], [1, 1], [0, -1]]
  }

  /**
   * Links 1 and 2 both enter node 2, which is not the last node: as written
   * the hyperlink 1^2 stays active, while (9b) zeroes it.
   */
  lemma InPairOfInnerNodeStaysActive()
    ensures Shaped(TwoInLinksExample(), 2)
    ensures ActiveAsWritten(TwoInLinksExample(), 0, 1)
    ensures !ActiveIntended(TwoInLinksExample(), 0, 1)
  {
    var m := TwoInLinksExample();
    assert SharedAmong(m, 2, 0, 1, 1);
    assert !SharedAmong(m, 1, 0, 1, -1);
    assert !SharedAmong(m, 2, 0, 1, -1);
  }
}
