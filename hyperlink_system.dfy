/**
 * create_node_hyperlink_incidence_matrix of semplificazione_con_grafo.py:
 * from the incidence matrix and the OD pair it builds the hyperlink matrix,
 * the symmetry list J, the blocks H_a, Hp = block_diag(H_0, ..., H_{n-1}),
 * the J rows, H = Hp over J, the variable vector omega and the right-hand
 * side h, and returns (H, omega, h).
 */
module HyperlinkSystem {
  import opened Wrappers
  import opened HyperlinkMatrix
  import opened SymmetryPairs
  import opened HyperlinkColumns
  import opened NodeBlocks
  import opened RhsVector

  /** The triple (H, omega_vars, h_vector). */
  datatype LinearSystem = LinearSystem(matrix: Matrix, omega: seq<(nat, nat)>, rhs: seq<int>)

  /** The hyperlink matrix the source builds, as rows of booleans. */
  function AsWrittenActive(m: seq<seq<int>>, n: nat): (active: seq<seq<bool>>)
    requires |m| > 0
    ensures Square(active, n)
  {
    seq(n, i requires 0 <= i => seq(n, j requires 0 <= j => ActiveAsWritten(m, i, j)))
  }

  /** The hyperlink matrix under the intended rule (9b). */
  function IntendedActive(m: seq<seq<int>>, n: nat): (active: seq<seq<bool>>)
    ensures Square(active, n)
  {
    seq(n, i requires 0 <= i => seq(n, j requires 0 <= j => ActiveIntended(m, i, j)))
  }

  /** Two square tables with the same entries are equal. */
  lemma SquareEqual(a: seq<seq<bool>>, b: seq<seq<bool>>, n: nat)
    requires Square(a, n) && Square(b, n)
    requires forall i, j :: 0 <= i < n && 0 <= j < n ==> a[i][j] == b[i][j]
    ensures a == b
  {
    forall i | 0 <= i < n ensures a[i] == b[i] {
      assert forall j :: 0 <= j < n ==> a[i][j] == b[i][j];
    }
  }

  /** What generate_J_vector promises about J (the postcondition of GenerateJ). */
  ghost predicate SymmetryList(active: seq<seq<bool>>, n: nat, J: seq<Cell>)
    requires Square(active, n)
  {
    && (forall k :: 0 <= k < |J| ==> Candidate(active, n, J[k]))
    && (forall p, q :: 0 <= p < q < |J| ==> Before(J[p], J[q]) && J[p] != Swap(J[q]))
    && (forall c: Cell :: Candidate(active, n, c) ==> c in J || Swap(c) in J)
  }

  /**
   * The system built from the hyperlink matrix `active` and the list J: omega
   * lists the active entries row-major; with links, H is Hp over one J row per
   * element of J and h is h_0 + ... + h_{n-1} followed by one 0 per J row; with
   * no links, H is block_diag() of nothing (one empty row) and h is empty.
   */
  predicate SystemOf(m: seq<seq<int>>, n: nat, od: seq<int>, active: seq<seq<bool>>, src: int, dst: int, J: seq<Cell>, s: LinearSystem)
    requires Shaped(m, n) && Square(active, n)
  {
    var hs, cells := NodeHyperlinkMatrices(m, active, n, od), ActiveCells(active, n);
    && s.omega == seq(|cells|, t requires 0 <= t < |cells| => OmegaOf(cells[t]))
    && s.matrix.width == |cells|
    && (n == 0 ==> s.matrix == Matrix([[]], 0) && s.rhs == [])
    && (n > 0 ==>
      && s.matrix.rows == BlockDiag(hs).rows + seq(|J|, k requires 0 <= k < |J| => JRow(PositionsOf(cells), |cells|, J[k]))
      && s.rhs == HParts(BlockRowsOf(m, od, n), n, src, dst) + Zeros(|J|))
  }

  /** An off-diagonal active entry makes Hp at least one column wide. */
  lemma CandidateWidens(active: seq<seq<bool>>, n: nat, c: Cell)
    requires Square(active, n) && Candidate(active, n, c)
    ensures |ActiveCells(active, n)| > 0
  {
    ActiveBeforeMember(active, n, n, 0, c);
  }

  /** Every position of the column map is a column of Hp. */
  lemma PositionsBounded(active: seq<seq<bool>>, n: nat)
    requires Square(active, n)
    ensures forall c :: c in PositionsOf(ActiveCells(active, n)) ==> PositionsOf(ActiveCells(active, n))[c] < |ActiveCells(active, n)|
  {
    ColumnMapSpec(active, n);
  }

  /**
   * Steps 4 and 5 of create_node_hyperlink_incidence_matrix, given the
   * blocks H_a: Hp, the column map, the J rows and H (the column check of
   * create_node_hyperlink_incidence_matrix never fails, since both are as
   * wide as the number of active hyperlinks).
   */
  method BuildH(hs: seq<Matrix>, n: nat, active: seq<seq<bool>>, J: seq<Cell>) returns (h: Matrix)
    requires Square(active, n) && |hs| == n
    requires BlockDiag(hs).width == |ActiveCells(active, n)|
    requires forall k :: 0 <= k < |J| ==> Candidate(active, n, J[k])
    ensures h.width == |ActiveCells(active, n)|
    ensures n == 0 ==> h == Matrix([[]], 0)
    ensures n > 0 ==>
      h.rows == BlockDiag(hs).rows + seq(|J|, k requires 0 <= k < |J| => JRow(PositionsOf(ActiveCells(active, n)), |ActiveCells(active, n)|, J[k]))
  {
    var hp := BlockDiagCall(hs);
    var positions := ColumnMap(active, n);
    PositionsBounded(active, n);
    var jRows := RowVectorsJ(J, positions, hp.width);
    if |J| > 0 {
      CandidateWidens(active, n, J[0]);
    }
    var stacked := StackH(hp, jRows);
    h := stacked.value;
  }

  /**
   * Steps 2 to 6 of create_node_hyperlink_incidence_matrix, once the
   * hyperlink matrix is known: J, H, omega and h, whose rows are compared
   * with `src` and `dst`.
   */
  method Assemble(m: seq<seq<int>>, n: nat, od: seq<int>, active: seq<seq<bool>>, src: int, dst: int)
    returns (s: LinearSystem, J: seq<Cell>)
    requires Shaped(m, n) && Square(active, n)
    ensures SymmetryList(active, n, J)
    ensures SystemOf(m, n, od, active, src, dst, J, s)
  {
    J := GenerateJ(active, n);
    var hs := NodeHyperlinkMatrices(m, active, n, od);
    HpWidth(m, active, n, od);
    var h := BuildH(hs, n, active, J);
    var omega := OmegaVector(active, n);
    var rhs := BuildVectorH(m, od, n, src, dst, |J|);
    assert |J| > 0 ==> Candidate(active, n, J[0]);
    s := LinearSystem(h, omega, rhs);
  }

  /**
   * create_node_hyperlink_incidence_matrix as written: ValueError when the
   * origin or the destination is 0, the unbound `in_links` when the incidence
   * matrix has no rows, otherwise the system of the source's hyperlink matrix
   * with h compared with the 1-based origin and destination.
   */
  method CreateNodeHyperlinkIncidenceMatrix(m: seq<seq<int>>, numLinks: nat, origin: int, destination: int)
    returns (r: Result<LinearSystem, BuildError>, J: seq<Cell>)
    requires Shaped(m, numLinks)
    ensures r.Err? <==> origin == 0 || destination == 0 || |m| == 0
    ensures r.Err? ==> r.error == (if origin == 0 || destination == 0 then MissingEndpoint else UnboundInLinks)
    ensures r.Ok? ==> |m| > 0 && SymmetryList(AsWrittenActive(m, numLinks), numLinks, J)
    ensures r.Ok? ==> SystemOf(m, numLinks, [origin - 1, destination - 1], AsWrittenActive(m, numLinks), origin, destination, J, r.value)
  {
    if origin == 0 || destination == 0 {
      return Err(MissingEndpoint), [];
    }
    var od := [origin - 1, destination - 1];
    var built := GenerateHyperlinkMatrix(m, numLinks);
    if built.Err? {
      return Err(built.error), [];
    }
    var active := Snapshot(built.value);
    forall i, j | 0 <= i < numLinks && 0 <= j < numLinks ensures active[i][j] == AsWrittenActive(m, numLinks)[i][j] {
      assert active[i][j] == built.value[i, j] == ActiveAsWritten(m, i, j);
    }
    SquareEqual(active, AsWrittenActive(m, numLinks), numLinks);
    var s;
    s, J := Assemble(m, numLinks, od, active, origin, destination);
    r := Ok(s);
  }

  /**
   * The same construction with both corrections: the intended rule (9b) for
   * the hyperlink matrix and h compared with the 0-based od_pair.
   */
  method CreateNodeHyperlinkIncidenceMatrixIntended(m: seq<seq<int>>, numLinks: nat, origin: int, destination: int)
    returns (r: Result<LinearSystem, BuildError>, J: seq<Cell>)
    requires Shaped(m, numLinks)
    ensures r.Err? <==> origin == 0 || destination == 0
    ensures r.Err? ==> r.error == MissingEndpoint
    ensures r.Ok? ==> SymmetryList(IntendedActive(m, numLinks), numLinks, J)
    ensures r.Ok? ==> SystemOf(m, numLinks, [origin - 1, destination - 1], IntendedActive(m, numLinks), origin - 1, destination - 1, J, r.value)
  {
    if origin == 0 || destination == 0 {
      return Err(MissingEndpoint), [];
    }
    var od := [origin - 1, destination - 1];
    var hm := GenerateHyperlinkMatrixIntended(m, numLinks);
    var active := Snapshot(hm);
    forall i, j | 0 <= i < numLinks && 0 <= j < numLinks ensures active[i][j] == IntendedActive(m, numLinks)[i][j] {
      assert active[i][j] == hm[i, j] == ActiveIntended(m, i, j);
    }
    SquareEqual(active, IntendedActive(m, numLinks), numLinks);
    var s;
    s, J := Assemble(m, numLinks, od, active, origin - 1, destination - 1);
    r := Ok(s);
  }

  /**
   * The shapes of the returned triple: H is rectangular and has one column
   * per omega variable; with links, h has one entry per row of H; with no
   * links, H has one (empty) row while h has none.
   */
  lemma SystemShape(m: seq<seq<int>>, n: nat, od: seq<int>, active: seq<seq<bool>>, src: int, dst: int, J: seq<Cell>, s: LinearSystem)
    requires Shaped(m, n) && Square(active, n)
    requires SymmetryList(active, n, J) && SystemOf(m, n, od, active, src, dst, J, s)
    ensures WellShaped(s.matrix) && s.matrix.width == |s.omega|
    ensures n > 0 ==> |s.rhs| == |s.matrix.rows|
    ensures n == 0 ==> |s.matrix.rows| == 1 && |s.rhs| == 0
  {
    if n > 0 {
      var hs := NodeHyperlinkMatrices(m, active, n, od);
      HpWidth(m, active, n, od);
      BlockDiagShape(hs);
      RhsLength(m, active, n, od, src, dst);
    }
  }

  /** The prefix h_0 + ... + h_{a-1} is followed by h_a. */
  lemma {:induction false} HPartsAt(rs: seq<seq<nat>>, k: nat, a: nat, idx: nat, src: int, dst: int)
    requires a < k <= |rs| && idx < |rs[a]|
    ensures |HParts(rs, a, src, dst)| + idx < |HParts(rs, k, src, dst)|
    ensures HParts(rs, k, src, dst)[|HParts(rs, a, src, dst)| + idx] == HPart(rs[a], src, dst)[idx]
  {
    if a < k - 1 {
      HPartsAt(rs, k - 1, a, idx, src, dst);
    }
  }

  /**
   * Row SumRows(a) + idx of H is row idx of the block H_a, padded with zeros
   * to the columns of H_a, and the entry of h at the same index is the
   * coefficient of the node that row stands for: H and h are aligned.
   */
  lemma RowAlignment(m: seq<seq<int>>, n: nat, od: seq<int>, active: seq<seq<bool>>, src: int, dst: int,
                     J: seq<Cell>, s: LinearSystem, a: nat, idx: nat)
    requires Shaped(m, n) && Square(active, n) && a < n
    requires SystemOf(m, n, od, active, src, dst, J, s)
    requires idx < |RowsToInclude(m, od, a)|
    ensures var hs := NodeHyperlinkMatrices(m, active, n, od);
      var r := SumRows(hs, a) + idx;
      && |hs[a].rows| == |RowsToInclude(m, od, a)|
      && r < |s.matrix.rows| && r < |s.rhs|
      && SumWidth(hs, a + 1) <= s.matrix.width
      && s.matrix.rows[r] == Zeros(SumWidth(hs, a)) + hs[a].rows[idx] + Zeros(s.matrix.width - SumWidth(hs, a + 1))
      && s.rhs[r] == Coefficient(RowsToInclude(m, od, a)[idx], src, dst)
  {
    var hs := NodeHyperlinkMatrices(m, active, n, od);
    var r := SumRows(hs, a) + idx;
    RhsAt(m, active, n, od, src, dst, a, idx);
    var J' := seq(|J|, k requires 0 <= k < |J| => JRow(PositionsOf(ActiveCells(active, n)), |ActiveCells(active, n)|, J[k]));
    assert s.matrix.rows == BlockDiag(hs).rows + J';
    assert s.matrix.rows[..|BlockDiag(hs).rows|] == BlockDiag(hs).rows;
    assert s.rhs[r] == Coefficient(RowsToInclude(m, od, a)[idx], src, dst);
    assert |hs[a].rows| == |RowsToInclude(m, od, a)| && WellShaped(hs[a]) by {
      BlockRows(m, active, n, od, a);
      BlockAt(m, active, n, od, a);
    }
    HpWidth(m, active, n, od);
    StackedRow(hs, s.matrix.rows, s.matrix.width, a, idx);
  }

  /** Row SumRows(a) + idx of a block-diagonal matrix with rows stacked under it is row idx of block a, padded. */
  lemma StackedRow(hs: seq<Matrix>, rows: seq<seq<int>>, width: nat, a: nat, idx: nat)
    requires forall t :: 0 <= t < |hs| ==> WellShaped(hs[t])
    requires a < |hs| && idx < |hs[a].rows|
    requires |BlockDiag(hs).rows| <= |rows| && rows[..|BlockDiag(hs).rows|] == BlockDiag(hs).rows && width == BlockDiag(hs).width
    ensures SumRows(hs, a) + idx < |rows| && SumWidth(hs, a + 1) <= width
    ensures rows[SumRows(hs, a) + idx] == Zeros(SumWidth(hs, a)) + hs[a].rows[idx] + Zeros(width - SumWidth(hs, a + 1))
  {
    BlockDiagShape(hs);
    BlockDiagRow(hs, a, idx);
    assert rows[SumRows(hs, a) + idx] == rows[..|BlockDiag(hs).rows|][SumRows(hs, a) + idx];
  }

  /** Entry SumRows(a) + idx of h_0 + ... + h_{n-1} is entry idx of h_a. */
  lemma RhsAt(m: seq<seq<int>>, active: seq<seq<bool>>, n: nat, od: seq<int>, src: int, dst: int, a: nat, idx: nat)
    requires Shaped(m, n) && Square(active, n) && a < n
    requires idx < |RowsToInclude(m, od, a)|
    ensures var hs, h := NodeHyperlinkMatrices(m, active, n, od), HParts(BlockRowsOf(m, od, n), n, src, dst);
      && SumRows(hs, a) + idx < |h|
      && h[SumRows(hs, a) + idx] == Coefficient(RowsToInclude(m, od, a)[idx], src, dst)
  {
    var hs, rs := NodeHyperlinkMatrices(m, active, n, od), BlockRowsOf(m, od, n);
    AllBlockRows(m, active, n, od);
    assert rs[a] == RowsToInclude(m, od, a);
    PartsAt(rs, hs, n, a, idx, src, dst);
  }

  /** Entry SumRows(a) + idx of the concatenated parts is entry idx of part a. */
  lemma PartsAt(rs: seq<seq<nat>>, hs: seq<Matrix>, n: nat, a: nat, idx: nat, src: int, dst: int)
    requires |rs| == n && |hs| == n && a < n && idx < |rs[a]|
    requires forall b :: 0 <= b < n ==> |hs[b].rows| == |rs[b]|
    ensures SumRows(hs, a) + idx < |HParts(rs, n, src, dst)|
    ensures HParts(rs, n, src, dst)[SumRows(hs, a) + idx] == Coefficient(rs[a][idx], src, dst)
  {
    HPartsLength(rs, hs, a, src, dst);
    HPartsAt(rs, n, a, idx, src, dst);
    assert HPart(rs[a], src, dst)[idx] == Coefficient(rs[a][idx], src, dst);
  }

  lemma AllBlockRows(m: seq<seq<int>>, active: seq<seq<bool>>, n: nat, od: seq<int>)
    requires Shaped(m, n) && Square(active, n)
    ensures |NodeHyperlinkMatrices(m, active, n, od)| == n && |BlockRowsOf(m, od, n)| == n
    ensures forall b :: 0 <= b < n ==> |NodeHyperlinkMatrices(m, active, n, od)[b].rows| == |BlockRowsOf(m, od, n)[b]|
  {
    forall b | 0 <= b < n
      ensures |NodeHyperlinkMatrices(m, active, n, od)[b].rows| == |BlockRowsOf(m, od, n)[b]|
    {
      BlockRows(m, active, n, od, b);
    }
  }

  /**
   * In the source's hyperlink matrix both orientations of an off-diagonal
   * entry are active together, so every J row of H has exactly one +1 (at the
   * column of x^y) and one -1 (at the column of y^x).
   */
  lemma SymmetryRows(m: seq<seq<int>>, n: nat, od: seq<int>, origin: int, destination: int, J: seq<Cell>, s: LinearSystem, k: nat)
    requires Shaped(m, n) && |m| > 0 && n > 0 && k < |J|
    requires SymmetryList(AsWrittenActive(m, n), n, J)
    requires SystemOf(m, n, od, AsWrittenActive(m, n), origin, destination, J, s)
    ensures var active := AsWrittenActive(m, n);
      var hs := NodeHyperlinkMatrices(m, active, n, od);
      var positions, row := PositionsOf(ActiveCells(active, n)), s.matrix.rows[|BlockDiag(hs).rows| + k];
      && J[k] in positions && Swap(J[k]) in positions && positions[J[k]] != positions[Swap(J[k])]
      && |row| == s.matrix.width && positions[J[k]] < |row| && positions[Swap(J[k])] < |row|
      && row[positions[J[k]]] == 1 && row[positions[Swap(J[k])]] == -1
      && forall t :: 0 <= t < |row| && t != positions[J[k]] && t != positions[Swap(J[k])] ==> row[t] == 0
  {
    var active := AsWrittenActive(m, n);
    AsWrittenSymmetric(m, J[k].0, J[k].1);
    JRowSpec(active, n, J[k]);
  }
}
