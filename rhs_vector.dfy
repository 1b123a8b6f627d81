/**
 * build_vector_J of semplificazione_con_grafo.py: the right-hand side h of
 * H omega = h. For each link n the part h_n has one entry per row of H_n
 * (the same rows_to_include), -1 for the source node, +1 for the sink and
 * 0 otherwise; the parts are concatenated and followed by one 0 per
 * symmetry constraint of J.
 *
 * The rows are 0-based node indices, while origin and destination are the
 * 1-based labels the caller passes (od_pair holds origin - 1 and
 * destination - 1). The source compares the row with origin and destination
 * themselves, so the -1 and +1 land one node further on; HPartAsWritten keeps
 * that comparison, HPartIntended compares with origin - 1 and
 * destination - 1.
 */
module RhsVector {
  import opened HyperlinkMatrix
  import opened NodeBlocks

  /** The coefficient of a node row when the source node is `src` and the sink `dst`. */
  function Coefficient(node: nat, src: int, dst: int): int
  {
    if node == src then -1 else if node == dst then 1 else 0
  }

  /** The coefficients of the listed rows. */
  function HPart(rows: seq<nat>, src: int, dst: int): (h: seq<int>)
    ensures |h| == |rows|
  {
    seq(|rows|, idx requires 0 <= idx < |rows| => Coefficient(rows[idx], src, dst))
  }

  /** h_n as the source builds it: rows compared with the 1-based labels. */
  function HPartAsWritten(m: seq<seq<int>>, od: seq<int>, a: nat, origin: int, destination: int): seq<int>
  {
    HPart(RowsToInclude(m, od, a), origin, destination)
  }

  /** h_n as evidently intended: rows compared with the 0-based indices of od_pair. */
  function HPartIntended(m: seq<seq<int>>, od: seq<int>, a: nat, origin: int, destination: int): seq<int>
  {
    HPart(RowsToInclude(m, od, a), origin - 1, destination - 1)
  }

  /** The rows_to_include of every block H_0 .. H_{n-1}. */
  function BlockRowsOf(m: seq<seq<int>>, od: seq<int>, n: nat): seq<seq<nat>>
  {
    seq(n, a requires 0 <= a => RowsToInclude(m, od, a))
  }

  /** h_0 + ... + h_{k-1} for the blocks' rows `rs`, compared with `src` and `dst`. */
  function HParts(rs: seq<seq<nat>>, k: nat, src: int, dst: int): seq<int>
    requires k <= |rs|
  {
    if k == 0 then [] else HParts(rs, k - 1, src, dst) + HPart(rs[k - 1], src, dst)
  }

  /** The inner loop of build_vector_J: h_n starts as zeros and is filled row by row. */
  method FillPart(rows: seq<nat>, src: int, dst: int) returns (hn: seq<int>)
    ensures hn == HPart(rows, src, dst)
  {
    hn := Zeros(|rows|);
    for idx := 0 to |rows|
      invariant |hn| == |rows|
      invariant forall t :: 0 <= t < idx ==> hn[t] == Coefficient(rows[t], src, dst)
      invariant forall t :: idx <= t < |rows| ==> hn[t] == 0
    {
      if rows[idx] == src {
        hn := hn[idx := -1];
      } else if rows[idx] == dst {
        hn := hn[idx := 1];
      } else {
        hn := hn[idx := 0];
      }
    }
    assert forall idx :: 0 <= idx < |rows| ==> hn[idx] == HPart(rows, src, dst)[idx];
  }

  /**
   * The loops of build_vector_J over the blocks and their rows. `src` and
   * `dst` are what each row index is compared with: origin and destination
   * in the source.
   */
  method BuildVectorH(m: seq<seq<int>>, od: seq<int>, n: nat, src: int, dst: int, numJ: nat) returns (h: seq<int>)
    ensures h == HParts(BlockRowsOf(m, od, n), n, src, dst) + Zeros(numJ)
  {
    ghost var rs := BlockRowsOf(m, od, n);
    var hp: seq<int> := [];
    for a := 0 to n
      invariant hp == HParts(rs, a, src, dst)
    {
      var rows := RowsToInclude(m, od, a);
      var hn := FillPart(rows, src, dst);
      assert rows == rs[a];
      hp := hp + hn;
    }
    var hJ := Zeros(numJ);
    if |hp| > 0 {
      h := hp + hJ;
    } else {
      h := hJ;
    }
  }

  /** H_a has one row per node row of h_a. */
  lemma BlockRows(m: seq<seq<int>>, active: seq<seq<bool>>, n: nat, od: seq<int>, a: nat)
    requires Shaped(m, n) && Square(active, n) && a < n
    ensures |NodeHyperlinkMatrices(m, active, n, od)[a].rows| == |BlockRowsOf(m, od, n)[a]|
  {
    BlockAt(m, active, n, od, a);
  }

  /** When each part is as long as its block is tall, the parts together are as long as the blocks. */
  lemma {:induction false} HPartsLength(rs: seq<seq<nat>>, hs: seq<Matrix>, k: nat, src: int, dst: int)
    requires |rs| == |hs| && k <= |hs|
    requires forall a :: 0 <= a < |hs| ==> |hs[a].rows| == |rs[a]|
    ensures |HParts(rs, k, src, dst)| == SumRows(hs, k)
  {
    if k > 0 {
      HPartsLength(rs, hs, k - 1, src, dst);
    }
  }

  /** h is exactly as long as Hp is tall, plus one entry per J constraint. */
  lemma RhsLength(m: seq<seq<int>>, active: seq<seq<bool>>, n: nat, od: seq<int>, src: int, dst: int)
    requires Shaped(m, n) && Square(active, n)
    ensures |HParts(BlockRowsOf(m, od, n), n, src, dst)| == SumRows(NodeHyperlinkMatrices(m, active, n, od), n)
  {
    var rs, hs := BlockRowsOf(m, od, n), NodeHyperlinkMatrices(m, active, n, od);
    forall a | 0 <= a < n ensures |hs[a].rows| == |rs[a]| {
      BlockRows(m, active, n, od, a);
    }
    HPartsLength(rs, hs, n, src, dst);
  }

  /** Entry idx of HPart is read off the row it stands for. */
  lemma HPartAt(rows: seq<nat>, src: int, dst: int, idx: nat)
    requires idx < |rows|
    ensures HPart(rows, src, dst)[idx] == -1 <==> rows[idx] == src
    ensures HPart(rows, src, dst)[idx] == 1 <==> rows[idx] == dst && rows[idx] != src
    ensures HPart(rows, src, dst)[idx] == 0 <==> rows[idx] != src && rows[idx] != dst
  {
  }

  /**
   * As written, the -1 of h_n marks the row of node index `origin`, the node
   * labelled origin + 1, and the +1 the node labelled destination + 1.
   */
  lemma AsWrittenMarksNextNode(m: seq<seq<int>>, od: seq<int>, a: nat, origin: int, destination: int, idx: nat)
    requires idx < |RowsToInclude(m, od, a)|
    ensures var h, rows := HPartAsWritten(m, od, a, origin, destination), RowsToInclude(m, od, a);
      && (h[idx] == -1 <==> rows[idx] == origin)
      && (h[idx] == 1 <==> rows[idx] == destination && rows[idx] != origin)
  {
    HPartAt(RowsToInclude(m, od, a), origin, destination, idx);
  }

  /** The -1 of a part is present exactly when the source row is listed, the +1 when the sink row is. */
  lemma HPartMarks(rows: seq<nat>, src: int, dst: int)
    ensures -1 in HPart(rows, src, dst) <==> src in rows
    ensures 1 in HPart(rows, src, dst) <==> dst in rows && dst != src
  {
    var h := HPart(rows, src, dst);
    if src in rows {
      var idx :| 0 <= idx < |rows| && rows[idx] == src;
      assert h[idx] == -1;
    }
    if dst in rows && dst != src {
      var idx :| 0 <= idx < |rows| && rows[idx] == dst;
      assert h[idx] == 1;
    }
  }

  /**
   * As intended, h_n has -1 exactly at the source's row and +1 exactly at the
   * sink's row, and the source's row is among the rows of H_n exactly when
   * link n touches the source node: the flow leaves the origin only along
   * links that touch it (and likewise for the sink).
   */
  lemma HPartIntendedSpec(m: seq<seq<int>>, od: seq<int>, a: nat, origin: int, destination: int)
    requires 1 <= origin <= |m| && 1 <= destination <= |m| && origin != destination
    requires od == [origin - 1, destination - 1]
    ensures var h, rows := HPartIntended(m, od, a, origin, destination), RowsToInclude(m, od, a);
      && (forall idx :: 0 <= idx < |h| ==> (h[idx] == -1 <==> rows[idx] == origin - 1))
      && (forall idx :: 0 <= idx < |h| ==> (h[idx] == 1 <==> rows[idx] == destination - 1))
      && (-1 in h <==> Touches(m, a, origin - 1))
      && (1 in h <==> Touches(m, a, destination - 1))
  {
    var rows := RowsToInclude(m, od, a);
    RowsToIncludeSpec(m, od, a);
    assert origin - 1 in rows <==> Touches(m, a, origin - 1);
    assert destination - 1 in rows <==> Touches(m, a, destination - 1);
    HPartMarks(rows, origin - 1, destination - 1);
  }

  /** The incidence matrix of the example in main(): links 1->2, 2->3, 2->3, 3->4. */
  function MainExample(): seq<seq<int>>
  {
    [[-1, 0, 0, 0], [1, -1, -1, 0], [0, 1, 1, -1], [0, 0, 0, 1]]
  }

  /**
   * With origin 1 and destination 4, link 1 leaves the origin, yet the
   * source's h_1 puts its -1 on node 2 (row 1) instead of node 1 (row 0).
   */
  lemma OriginCoefficientMisplaced()
    ensures RowsToInclude(MainExample(), [0, 3], 0) == [0, 1, 2]
    ensures HPartAsWritten(MainExample(), [0, 3], 0, 1, 4) == [0, -1, 0]
    ensures HPartIntended(MainExample(), [0, 3], 0, 1, 4) == [-1, 0, 0]
  {
    var m, od := MainExample(), [0, 3];
    assert Touches(m, 0, 0);
    assert TouchesOd(m, od, 0);
    assert SelectNodes(m, od, 0, 1, true) == [0];
    assert SelectNodes(m, od, 0, 2, true) == [0, 1];
    assert SelectNodes(m, od, 0, 3, true) == [0, 1, 2];
    assert !Touches(m, 0, 3);
    assert SelectNodes(m, od, 0, 4, true) == [0, 1, 2];
  }
}
