/**
 * The blocks of the constraint matrix H in semplificazione_con_grafo.py:
 * for every link a the sub-matrix H_a of the incidence matrix (selected
 * node rows x active hyperlink columns of row a), the block-diagonal Hp of
 * all of them (scipy.linalg.block_diag), the symmetry rows of J, and H as
 * Hp stacked over J.
 */
module NodeBlocks {
  import opened Wrappers
  import opened HyperlinkMatrix
  import opened SymmetryPairs
  import opened HyperlinkColumns

  /** A numpy integer matrix: its rows and its column count (a matrix without rows keeps its width). */
  datatype Matrix = Matrix(rows: seq<seq<int>>, width: nat)

  predicate WellShaped(x: Matrix)
  {
    forall r :: 0 <= r < |x.rows| ==> |x.rows[r]| == x.width
  }

  function Zeros(k: nat): (z: seq<int>)
    ensures |z| == k && forall t :: 0 <= t < k ==> z[t] == 0
  {
    seq(k, _ => 0)
  }

  lemma ZerosAppend(x: nat, y: nat)
    ensures Zeros(x) + Zeros(y) == Zeros(x + y)
  {
  }

  /** Link a has a non-zero coefficient in the row of `node`. */
  predicate Touches(m: seq<seq<int>>, a: nat, node: nat)
    requires node < |m|
  {
    a < |m[node]| && m[node][a] != 0
  }

  /**
   * The nodes 0 .. k - 1 that are not in the OD pair, or, when
   * `keepTouched`, that link a touches.
   */
  function SelectNodes(m: seq<seq<int>>, od: seq<int>, a: nat, k: nat, keepTouched: bool): seq<nat>
    requires k <= |m|
  {
    if k == 0 then []
    else SelectNodes(m, od, a, k - 1, keepTouched) + (if k - 1 !in od || (keepTouched && Touches(m, a, k - 1)) then [k - 1] else [])
  }

  lemma {:induction false} SelectNodesMember(m: seq<seq<int>>, od: seq<int>, a: nat, k: nat, keepTouched: bool, x: int)
    requires k <= |m|
    ensures x in SelectNodes(m, od, a, k, keepTouched) <==> 0 <= x < k && (x !in od || (keepTouched && Touches(m, a, x)))
  {
    if k > 0 {
      SelectNodesMember(m, od, a, k - 1, keepTouched, x);
    }
  }

  lemma {:induction false} SelectNodesSorted(m: seq<seq<int>>, od: seq<int>, a: nat, k: nat, keepTouched: bool)
    requires k <= |m|
    ensures forall p, q :: 0 <= p < q < |SelectNodes(m, od, a, k, keepTouched)| ==>
      SelectNodes(m, od, a, k, keepTouched)[p] < SelectNodes(m, od, a, k, keepTouched)[q]
  {
    if k > 0 {
      SelectNodesSorted(m, od, a, k - 1, keepTouched);
      var init := SelectNodes(m, od, a, k - 1, keepTouched);
      forall p | 0 <= p < |init| ensures init[p] < k - 1 {
        SelectNodesMember(m, od, a, k - 1, keepTouched, init[p]);
      }
    }
  }

  /** The selection lists exactly those nodes, in ascending order. */
  lemma SelectNodesSpec(m: seq<seq<int>>, od: seq<int>, a: nat, k: nat, keepTouched: bool)
    requires k <= |m|
    ensures var rows := SelectNodes(m, od, a, k, keepTouched);
      && (forall x :: x in rows <==> 0 <= x < k && (x !in od || (keepTouched && Touches(m, a, x))))
      && (forall p, q :: 0 <= p < q < |rows| ==> rows[p] < rows[q])
  {
    forall x: int ensures x in SelectNodes(m, od, a, k, keepTouched) <==> 0 <= x < k && (x !in od || (keepTouched && Touches(m, a, x))) {
      SelectNodesMember(m, od, a, k, keepTouched, x);
    }
    SelectNodesSorted(m, od, a, k, keepTouched);
  }

  /** link_a_nodes.intersection(od_pair) is non-empty. */
  predicate TouchesOd(m: seq<seq<int>>, od: seq<int>, a: nat)
  {
    exists node :: 0 <= node < |m| && node in od && Touches(m, a, node)
  }

  /** rows_to_include of H_a, with both branches of the source. */
  function RowsToInclude(m: seq<seq<int>>, od: seq<int>, a: nat): seq<nat>
  {
    if TouchesOd(m, od, a) then SelectNodes(m, od, a, |m|, true)
    else SelectNodes(m, od, a, |m|, false)
  }

  lemma {:induction false} SelectNodesUntouched(m: seq<seq<int>>, od: seq<int>, a: nat, k: nat)
    requires k <= |m| && !TouchesOd(m, od, a)
    ensures SelectNodes(m, od, a, k, true) == SelectNodes(m, od, a, k, false)
  {
    if k > 0 {
      SelectNodesUntouched(m, od, a, k - 1);
      assert k - 1 in od ==> !Touches(m, a, k - 1);
    }
  }

  /**
   * The rows of H_a are, in ascending order, the nodes outside the OD pair
   * together with the OD nodes that link a touches; when a touches no OD
   * node the second branch of the source selects the same list.
   */
  lemma RowsToIncludeSpec(m: seq<seq<int>>, od: seq<int>, a: nat)
    ensures RowsToInclude(m, od, a) == SelectNodes(m, od, a, |m|, true)
    ensures forall x :: x in RowsToInclude(m, od, a) <==> 0 <= x < |m| && (x !in od || Touches(m, a, x))
    ensures !TouchesOd(m, od, a) ==> forall x :: x in RowsToInclude(m, od, a) <==> 0 <= x < |m| && x !in od
  {
    SelectNodesSpec(m, od, a, |m|, true);
    if !TouchesOd(m, od, a) {
      SelectNodesUntouched(m, od, a, |m|);
    }
  }

  /** The positions j < c with hyperlink a^j active. */
  function ColumnsUpTo(active: seq<seq<bool>>, n: nat, a: nat, c: nat): (cols: seq<nat>)
    requires Square(active, n) && a < n && c <= n
    ensures |cols| == |ActiveRow(active, n, a, c)|
    ensures forall t :: 0 <= t < |cols| ==> ActiveRow(active, n, a, c)[t] == (a, cols[t])
  {
    if c == 0 then [] else ColumnsUpTo(active, n, a, c - 1) + (if active[a][c - 1] then [c - 1] else [])
  }

  /** columns_to_include of H_a: the active entries of row a of the hyperlink matrix. */
  function ColumnsToInclude(active: seq<seq<bool>>, n: nat, a: nat): (cols: seq<nat>)
    requires Square(active, n) && a < n
    ensures forall x :: x in cols <==> 0 <= x < n && active[a][x]
  {
    var cols := ColumnsUpTo(active, n, a, n);
    ActiveRowMembers(active, n, a, n);
    assert forall x: nat :: x in cols <==> (a, x) in ActiveRow(active, n, a, n) by {
      forall x: nat ensures x in cols <==> (a, x) in ActiveRow(active, n, a, n) {
        if (a, x) in ActiveRow(active, n, a, n) {
          var t :| 0 <= t < |cols| && ActiveRow(active, n, a, n)[t] == (a, x);
        }
      }
    }
    cols
  }

  /** incidence_matrix[np.ix_(rows, cols)]. */
  function SubMatrix(m: seq<seq<int>>, numLinks: nat, rows: seq<nat>, cols: seq<nat>): (x: Matrix)
    requires Shaped(m, numLinks)
    requires forall t :: 0 <= t < |rows| ==> rows[t] < |m|
    requires forall t :: 0 <= t < |cols| ==> cols[t] < numLinks
    ensures WellShaped(x) && |x.rows| == |rows| && x.width == |cols|
  {
    Matrix(seq(|rows|, r requires 0 <= r < |rows| => seq(|cols|, c requires 0 <= c < |cols| => m[rows[r]][cols[c]])), |cols|)
  }

  /** H_a of generate_node_hyperlink_incidence_matrix_link_a. */
  function NodeHyperlinkMatrix(m: seq<seq<int>>, active: seq<seq<bool>>, n: nat, od: seq<int>, a: nat): Matrix
    requires Shaped(m, n) && Square(active, n) && a < n
  {
    RowsToIncludeSpec(m, od, a);
    var rows, cols := RowsToInclude(m, od, a), ColumnsToInclude(active, n, a);
    assert forall t :: 0 <= t < |rows| ==> rows[t] in rows;
    assert forall t :: 0 <= t < |cols| ==> cols[t] in cols;
    SubMatrix(m, n, RowsToInclude(m, od, a), ColumnsToInclude(active, n, a))
  }

  /** H_0, ..., H_{k-1}. */
  function NodeHyperlinkMatricesUpTo(m: seq<seq<int>>, active: seq<seq<bool>>, n: nat, od: seq<int>, k: nat): (hs: seq<Matrix>)
    requires Shaped(m, n) && Square(active, n) && k <= n
    ensures |hs| == k
  {
    if k == 0 then [] else NodeHyperlinkMatricesUpTo(m, active, n, od, k - 1) + [NodeHyperlinkMatrix(m, active, n, od, k - 1)]
  }

  /** generate_node_hyperlink_incidence_matrices: H_a for a = 0 .. n - 1. */
  function NodeHyperlinkMatrices(m: seq<seq<int>>, active: seq<seq<bool>>, n: nat, od: seq<int>): (hs: seq<Matrix>)
    requires Shaped(m, n) && Square(active, n)
    ensures |hs| == n
  {
    NodeHyperlinkMatricesUpTo(m, active, n, od, n)
  }

  lemma {:induction false} BlockAtUpTo(m: seq<seq<int>>, active: seq<seq<bool>>, n: nat, od: seq<int>, k: nat, a: nat)
    requires Shaped(m, n) && Square(active, n) && a < k <= n
    ensures NodeHyperlinkMatricesUpTo(m, active, n, od, k)[a] == NodeHyperlinkMatrix(m, active, n, od, a)
  {
    var init := NodeHyperlinkMatricesUpTo(m, active, n, od, k - 1);
    if a < k - 1 {
      BlockAtUpTo(m, active, n, od, k - 1, a);
      assert init[a] == NodeHyperlinkMatrix(m, active, n, od, a);
      assert NodeHyperlinkMatricesUpTo(m, active, n, od, k)[a] == init[a] by {
        assert NodeHyperlinkMatricesUpTo(m, active, n, od, k) == init + [NodeHyperlinkMatrix(m, active, n, od, k - 1)];
      }
    }
  }

  /** Block a of the list is H_a, a rectangular matrix. */
  lemma BlockAt(m: seq<seq<int>>, active: seq<seq<bool>>, n: nat, od: seq<int>, a: nat)
    requires Shaped(m, n) && Square(active, n) && a < n
    ensures NodeHyperlinkMatrices(m, active, n, od)[a] == NodeHyperlinkMatrix(m, active, n, od, a)
    ensures WellShaped(NodeHyperlinkMatrices(m, active, n, od)[a])
  {
    BlockAtUpTo(m, active, n, od, n, a);
  }

  /** The block-diagonal matrix of one or more blocks. */
  function BlockDiag(bs: seq<Matrix>): Matrix
  {
    if bs == [] then Matrix([], 0)
    else
      var p, b := BlockDiag(bs[..|bs| - 1]), bs[|bs| - 1];
      Matrix(seq(|p.rows|, r requires 0 <= r < |p.rows| => p.rows[r] + Zeros(b.width))
          + seq(|b.rows|, r requires 0 <= r < |b.rows| => Zeros(p.width) + b.rows[r]),
        p.width + b.width)
  }

  /** scipy.linalg.block_diag(*bs): called with no blocks it returns one empty row (shape (1, 0)). */
  function BlockDiagCall(bs: seq<Matrix>): Matrix
  {
    if bs == [] then Matrix([[]], 0) else BlockDiag(bs)
  }

  /** Rows of the first k blocks. */
  function SumRows(bs: seq<Matrix>, k: nat): nat
    requires k <= |bs|
  {
    if k == 0 then 0 else SumRows(bs, k - 1) + |bs[k - 1].rows|
  }

  /** Columns of the first k blocks. */
  function SumWidth(bs: seq<Matrix>, k: nat): nat
    requires k <= |bs|
  {
    if k == 0 then 0 else SumWidth(bs, k - 1) + bs[k - 1].width
  }

  lemma {:induction false} SumsOfPrefix(bs: seq<Matrix>, j: nat, k: nat)
    requires k <= j <= |bs|
    ensures SumRows(bs[..j], k) == SumRows(bs, k) && SumWidth(bs[..j], k) == SumWidth(bs, k)
  {
    if k > 0 {
      SumsOfPrefix(bs, j, k - 1);
    }
  }

  lemma {:induction false} SumsMonotone(bs: seq<Matrix>, k: nat, j: nat)
    requires k <= j <= |bs|
    ensures SumRows(bs, k) <= SumRows(bs, j) && SumWidth(bs, k) <= SumWidth(bs, j)
    decreases j - k
  {
    if k < j {
      SumsMonotone(bs, k, j - 1);
    }
  }

  /** block_diag's shape is the sum of the blocks' shapes. */
  lemma {:induction false} BlockDiagShape(bs: seq<Matrix>)
    requires forall k :: 0 <= k < |bs| ==> WellShaped(bs[k])
    ensures var d := BlockDiag(bs);
      WellShaped(d) && |d.rows| == SumRows(bs, |bs|) && d.width == SumWidth(bs, |bs|)
  {
    if bs != [] {
      var init, b := bs[..|bs| - 1], bs[|bs| - 1];
      BlockDiagShape(init);
      SumsOfPrefix(bs, |bs| - 1, |bs| - 1);
      var p, d := BlockDiag(init), BlockDiag(bs);
      assert WellShaped(b);
      forall r | 0 <= r < |d.rows| ensures |d.rows[r]| == d.width {
        if r < |p.rows| {
          assert d.rows[r] == p.rows[r] + Zeros(b.width);
        } else {
          assert d.rows[r] == Zeros(p.width) + b.rows[r - |p.rows|];
        }
      }
    }
  }

  /**
   * Row r of block k sits at row SumRows(bs, k) + r of block_diag, preceded
   * by the columns of the earlier blocks and followed by those of the later
   * ones, all zero.
   */
  lemma {:induction false} BlockDiagRow(bs: seq<Matrix>, k: nat, r: nat)
    requires forall t :: 0 <= t < |bs| ==> WellShaped(bs[t])
    requires k < |bs| && r < |bs[k].rows|
    ensures SumRows(bs, k) + r < |BlockDiag(bs).rows|
    ensures SumWidth(bs, k + 1) <= SumWidth(bs, |bs|)
    ensures BlockDiag(bs).rows[SumRows(bs, k) + r]
      == Zeros(SumWidth(bs, k)) + bs[k].rows[r] + Zeros(SumWidth(bs, |bs|) - SumWidth(bs, k + 1))
  {
    if k == |bs| - 1 {
      BlockDiagLastRow(bs, r);
    } else {
      var init := bs[..|bs| - 1];
      BlockDiagRow(init, k, r);
      BlockDiagEarlierRow(bs, k, r);
    }
  }

  /** A row of the last block sits under all the other blocks, padded on the left. */
  lemma BlockDiagLastRow(bs: seq<Matrix>, r: nat)
    requires forall t :: 0 <= t < |bs| ==> WellShaped(bs[t])
    requires |bs| > 0 && r < |bs[|bs| - 1].rows|
    ensures SumRows(bs, |bs| - 1) + r < |BlockDiag(bs).rows|
    ensures BlockDiag(bs).rows[SumRows(bs, |bs| - 1) + r]
      == Zeros(SumWidth(bs, |bs| - 1)) + bs[|bs| - 1].rows[r] + Zeros(SumWidth(bs, |bs|) - SumWidth(bs, |bs|))
  {
    var init, b := bs[..|bs| - 1], bs[|bs| - 1];
    BlockDiagShape(init);
    SumsOfPrefix(bs, |bs| - 1, |bs| - 1);
    var p := BlockDiag(init);
    assert BlockDiag(bs).rows[|p.rows| + r] == Zeros(p.width) + b.rows[r];
    assert Zeros(p.width) + b.rows[r] + Zeros(0) == Zeros(p.width) + b.rows[r];
  }

  /** A row of an earlier block is its row in the block-diagonal of the other blocks, padded on the right. */
  lemma BlockDiagEarlierRow(bs: seq<Matrix>, k: nat, r: nat)
    requires forall t :: 0 <= t < |bs| ==> WellShaped(bs[t])
    requires k < |bs| - 1 && r < |bs[k].rows|
    requires var init := bs[..|bs| - 1];
      && SumRows(init, k) + r < |BlockDiag(init).rows|
      && SumWidth(init, k + 1) <= SumWidth(init, |init|)
      && BlockDiag(init).rows[SumRows(init, k) + r]
        == Zeros(SumWidth(init, k)) + init[k].rows[r] + Zeros(SumWidth(init, |init|) - SumWidth(init, k + 1))
    ensures SumRows(bs, k) + r < |BlockDiag(bs).rows|
    ensures SumWidth(bs, k + 1) <= SumWidth(bs, |bs|)
    ensures BlockDiag(bs).rows[SumRows(bs, k) + r]
      == Zeros(SumWidth(bs, k)) + bs[k].rows[r] + Zeros(SumWidth(bs, |bs|) - SumWidth(bs, k + 1))
  {
    var init, b := bs[..|bs| - 1], bs[|bs| - 1];
    BlockDiagShape(bs);
    BlockDiagShape(init);
    SumsOfPrefix(bs, |bs| - 1, |bs| - 1);
    SumsOfPrefix(bs, |bs| - 1, k);
    SumsOfPrefix(bs, |bs| - 1, k + 1);
    SumsMonotone(bs, k + 1, |bs|);
    var tail := SumWidth(init, |init|) - SumWidth(bs, k + 1);
    ZerosAppend(tail, b.width);
    var p := BlockDiag(init);
    assert init[k] == bs[k];
    assert BlockDiag(bs).rows[SumRows(bs, k) + r] == p.rows[SumRows(bs, k) + r] + Zeros(b.width);
    AppendAssoc(Zeros(SumWidth(bs, k)) + bs[k].rows[r], Zeros(tail), Zeros(b.width));
  }

  /** Blocks as wide as the rows of active entries are, together, as wide as all active entries. */
  lemma {:induction false} BlocksWidth(active: seq<seq<bool>>, n: nat, hs: seq<Matrix>, k: nat)
    requires Square(active, n) && |hs| == n && k <= n
    requires forall a :: 0 <= a < n ==> hs[a].width == |ActiveRow(active, n, a, n)|
    ensures SumWidth(hs, k) == |ActiveBefore(active, n, k, 0)|
  {
    if k > 0 {
      BlocksWidth(active, n, hs, k - 1);
      NextRowLength(active, n, k - 1);
    }
  }

  /** Hp is exactly as wide as the omega vector: one column per active hyperlink. */
  lemma HpWidth(m: seq<seq<int>>, active: seq<seq<bool>>, n: nat, od: seq<int>)
    requires Shaped(m, n) && Square(active, n)
    ensures var hs := NodeHyperlinkMatrices(m, active, n, od);
      && (forall a :: 0 <= a < n ==> WellShaped(hs[a]))
      && BlockDiag(hs).width == |ActiveCells(active, n)|
      && |BlockDiag(hs).rows| == SumRows(hs, n)
  {
    var hs := NodeHyperlinkMatrices(m, active, n, od);
    forall a | 0 <= a < n ensures WellShaped(hs[a]) && hs[a].width == |ActiveRow(active, n, a, n)| {
      BlockAt(m, active, n, od, a);
      assert hs[a].width == |ColumnsToInclude(active, n, a)|;
    }
    BlocksWidth(active, n, hs, n);
    BlockDiagShape(hs);
  }

  /**
   * The row vector of constraint J_x^y: +1 in the column of x^y, -1 in the
   * column of y^x (when present; the -1 is written last), 0 elsewhere.
   */
  function JRow(positions: map<Cell, nat>, width: nat, p: Cell): (row: seq<int>)
    ensures |row| == width
  {
    seq(width, t =>
      if Swap(p) in positions && positions[Swap(p)] == t then -1
      else if p in positions && positions[p] == t then 1
      else 0)
  }

  /** generate_row_vector_J: one row per element of J, each as long as Hp is wide. */
  method RowVectorsJ(J: seq<Cell>, positions: map<Cell, nat>, width: nat) returns (rows: seq<seq<int>>)
    requires forall c :: c in positions ==> positions[c] < width
    ensures |rows| == |J|
    ensures forall k :: 0 <= k < |J| ==> rows[k] == JRow(positions, width, J[k])
  {
    rows := [];
    for k := 0 to |J|
      invariant |rows| == k
      invariant forall t :: 0 <= t < k ==> rows[t] == JRow(positions, width, J[t])
    {
      var x, y := J[k].0, J[k].1;
      var row := Zeros(width);
      if (x, y) in positions {
        row := row[positions[(x, y)] := 1];
      }
      if (y, x) in positions {
        row := row[positions[(y, x)] := -1];
      }
      assert row == JRow(positions, width, J[k]);
      rows := rows + [row];
    }
  }

  /**
   * When both orientations of a J pair are active (the hyperlink matrix is
   * symmetric), its row has exactly one +1, at the column of x^y, and one
   * -1, at the different column of y^x, and zeros elsewhere.
   */
  lemma JRowSpec(active: seq<seq<bool>>, n: nat, p: Cell)
    requires Square(active, n) && Candidate(active, n, p) && active[p.1][p.0]
    ensures var positions := PositionsOf(ActiveCells(active, n));
      var row := JRow(positions, |ActiveCells(active, n)|, p);
      && p in positions && Swap(p) in positions && positions[p] != positions[Swap(p)]
      && positions[p] < |row| && positions[Swap(p)] < |row|
      && row[positions[p]] == 1 && row[positions[Swap(p)]] == -1
      && forall t :: 0 <= t < |row| && t != positions[p] && t != positions[Swap(p)] ==> row[t] == 0
  {
    ColumnMapSpec(active, n);
  }

  /**
   * create_complete_J_matrix and create_node_hyperlink_incidence_matrix: H is
   * Hp when J is empty (an empty J matrix has size 0), otherwise Hp stacked
   * over the J rows, after a check that both have the same column count.
   */
  function StackH(hp: Matrix, jRows: seq<seq<int>>): Result<Matrix, BuildError>
  {
    if |jRows| == 0 || |jRows[0]| == 0 then Ok(hp)
    else if hp.width != |jRows[0]| then Err(ColumnMismatch)
    else Ok(Matrix(hp.rows + jRows, hp.width))
  }
}
