/**
 * The column layout of Hp in semplificazione_con_grafo.py: the active
 * entries of the hyperlink matrix, taken in row-major order, are the
 * columns of Hp. create_map_hyperlink_column numbers them 0, 1, ..., and
 * build_omega_vector lists the variable omega_{i+1}^{j+1} of each.
 */
module HyperlinkColumns {
  import opened Wrappers
  import opened HyperlinkMatrix
  import opened SymmetryPairs

  /** The active cells (i, 0), ..., (i, c - 1) of row i. */
  function ActiveRow(active: seq<seq<bool>>, n: nat, i: nat, c: nat): seq<Cell>
    requires Square(active, n) && i < n && c <= n
  {
    if c == 0 then [] else ActiveRow(active, n, i, c - 1) + (if active[i][c - 1] then [(i, c - 1)] else [])
  }

  /** The active cells that come before (i, j) in a row-major scan. */
  function ActiveBefore(active: seq<seq<bool>>, n: nat, i: nat, j: nat): seq<Cell>
    requires Square(active, n) && i <= n && j <= n && (i == n ==> j == 0)
    decreases i, j
  {
    if j > 0 then ActiveBefore(active, n, i, j - 1) + (if active[i][j - 1] then [(i, j - 1)] else [])
    else if i > 0 then ActiveBefore(active, n, i - 1, n)
    else []
  }

  /** The columns of Hp: every active entry of the hyperlink matrix, row-major. */
  function ActiveCells(active: seq<seq<bool>>, n: nat): seq<Cell>
    requires Square(active, n)
  {
    ActiveBefore(active, n, n, 0)
  }

  lemma {:induction false} ActiveRowMember(active: seq<seq<bool>>, n: nat, i: nat, c: nat, x: Cell)
    requires Square(active, n) && i < n && c <= n
    ensures x in ActiveRow(active, n, i, c) <==> x.0 == i && x.1 < c && active[i][x.1]
  {
    if c > 0 {
      ActiveRowMember(active, n, i, c - 1, x);
    }
  }

  lemma ActiveRowMembers(active: seq<seq<bool>>, n: nat, i: nat, c: nat)
    requires Square(active, n) && i < n && c <= n
    ensures forall x :: x in ActiveRow(active, n, i, c) <==> x.0 == i && x.1 < c && active[i][x.1]
  {
    forall x: Cell ensures x in ActiveRow(active, n, i, c) <==> x.0 == i && x.1 < c && active[i][x.1] {
      ActiveRowMember(active, n, i, c, x);
    }
  }

  lemma {:induction false} ActiveBeforeMember(active: seq<seq<bool>>, n: nat, i: nat, j: nat, x: Cell)
    requires Square(active, n) && i <= n && j <= n && (i == n ==> j == 0)
    ensures x in ActiveBefore(active, n, i, j) <==> (x.0 < i || (x.0 == i && x.1 < j)) && x.1 < n && active[x.0][x.1]
    decreases i, j
  {
    if j > 0 {
      ActiveBeforeMember(active, n, i, j - 1, x);
    } else if i > 0 {
      ActiveBeforeMember(active, n, i - 1, n, x);
    }
  }

  /** The scan meets exactly the active entries. */
  lemma ActiveCellsMembers(active: seq<seq<bool>>, n: nat)
    requires Square(active, n)
    ensures forall x :: x in ActiveCells(active, n) <==> x.0 < n && x.1 < n && active[x.0][x.1]
  {
    forall x: Cell ensures x in ActiveCells(active, n) <==> x.0 < n && x.1 < n && active[x.0][x.1] {
      ActiveBeforeMember(active, n, n, 0, x);
    }
  }

  /** Up to (i, c), the scan is the rows before i followed by the first c cells of row i. */
  lemma {:induction false} ActiveBeforeRow(active: seq<seq<bool>>, n: nat, i: nat, c: nat)
    requires Square(active, n) && i < n && c <= n
    ensures ActiveBefore(active, n, i, c) == ActiveBefore(active, n, i, 0) + ActiveRow(active, n, i, c)
  {
    if c > 0 {
      ActiveBeforeRow(active, n, i, c - 1);
      AppendAssoc(ActiveBefore(active, n, i, 0), ActiveRow(active, n, i, c - 1), if active[i][c - 1] then [(i, c - 1)] else []);
    } else {
      assert ActiveRow(active, n, i, 0) == [];
    }
  }

  /** Each row adds its own active cells to the length of the scan. */
  lemma NextRowLength(active: seq<seq<bool>>, n: nat, i: nat)
    requires Square(active, n) && i < n
    ensures |ActiveBefore(active, n, i + 1, 0)| == |ActiveBefore(active, n, i, 0)| + |ActiveRow(active, n, i, n)|
  {
    ActiveBeforeRow(active, n, i, n);
    assert ActiveBefore(active, n, i + 1, 0) == ActiveBefore(active, n, i, n);
  }

  predicate RowMajor(s: seq<Cell>)
  {
    forall p, q :: 0 <= p < q < |s| ==> Before(s[p], s[q])
  }

  /** The scan order of the column map is strictly row-major, so no cell repeats. */
  lemma {:induction false} ActiveBeforeSorted(active: seq<seq<bool>>, n: nat, i: nat, j: nat)
    requires Square(active, n) && i <= n && j <= n && (i == n ==> j == 0)
    ensures RowMajor(ActiveBefore(active, n, i, j))
    decreases i, j
  {
    if j > 0 {
      ActiveBeforeSorted(active, n, i, j - 1);
      var s := ActiveBefore(active, n, i, j - 1);
      forall p | 0 <= p < |s| ensures Before(s[p], (i, j - 1)) {
        ActiveBeforeMember(active, n, i, j - 1, s[p]);
      }
    } else if i > 0 {
      ActiveBeforeSorted(active, n, i - 1, n);
    }
  }

  /** The map from each element of a list to its position, built by appending. */
  function PositionsOf(s: seq<Cell>): map<Cell, nat>
  {
    if s == [] then map[] else PositionsOf(s[..|s| - 1])[s[|s| - 1] := |s| - 1]
  }

  lemma PositionsOfAppend(s: seq<Cell>, x: Cell)
    ensures PositionsOf(s + [x]) == PositionsOf(s)[x := |s|]
  {
    assert (s + [x])[..|s|] == s;
  }

  /** On a list without repeats, PositionsOf is the inverse of indexing. */
  lemma {:induction false} PositionsOfSpec(s: seq<Cell>)
    requires RowMajor(s)
    ensures forall x :: x in PositionsOf(s) <==> x in s
    ensures forall t :: 0 <= t < |s| ==> PositionsOf(s)[s[t]] == t
  {
    if s != [] {
      var init := s[..|s| - 1];
      PositionsOfSpec(init);
      forall t | 0 <= t < |init| ensures s[t] != s[|s| - 1] {
        assert Before(s[t], s[|s| - 1]);
      }
    }
  }

  /**
   * create_map_hyperlink_column: a row-major scan that gives the next column
   * position to each active entry.
   */
  method ColumnMap(active: seq<seq<bool>>, n: nat) returns (positions: map<Cell, nat>)
    requires Square(active, n)
    ensures positions == PositionsOf(ActiveCells(active, n))
  {
    positions := map[];
    var column := 0;
    for i := 0 to n
      invariant positions == PositionsOf(ActiveBefore(active, n, i, 0)) && column == |ActiveBefore(active, n, i, 0)|
    {
      positions, column := MapRow(active, n, i, positions, column);
      assert ActiveBefore(active, n, i + 1, 0) == ActiveBefore(active, n, i, n);
    }
  }

  /** The inner loop of create_map_hyperlink_column over row i, continuing the numbering of the rows before. */
  method MapRow(active: seq<seq<bool>>, n: nat, i: nat, positions0: map<Cell, nat>, column0: nat)
    returns (positions: map<Cell, nat>, column: nat)
    requires Square(active, n) && i < n
    requires positions0 == PositionsOf(ActiveBefore(active, n, i, 0)) && column0 == |ActiveBefore(active, n, i, 0)|
    ensures positions == PositionsOf(ActiveBefore(active, n, i, n)) && column == |ActiveBefore(active, n, i, n)|
  {
    positions, column := positions0, column0;
    for j := 0 to n
      invariant positions == PositionsOf(ActiveBefore(active, n, i, j)) && column == |ActiveBefore(active, n, i, j)|
    {
      if !active[i][j] {
        assert ActiveBefore(active, n, i, j + 1) == ActiveBefore(active, n, i, j);
      } else {
        var cell: Cell := (i, j);
        assert ActiveBefore(active, n, i, j + 1) == ActiveBefore(active, n, i, j) + [cell];
        PositionsOfAppend(ActiveBefore(active, n, i, j), cell);
        positions := positions[cell := column];
        column := column + 1;
      }
    }
  }

  /** The variable of an active entry: omega_{i+1}^{j+1}, kept as its 1-based pair of link labels. */
  function OmegaOf(c: Cell): (nat, nat)
  {
    (c.0 + 1, c.1 + 1)
  }

  /** The variables of the cells of s, in order, built by appending. */
  function Omegas(s: seq<Cell>): seq<(nat, nat)>
  {
    if s == [] then [] else Omegas(s[..|s| - 1]) + [OmegaOf(s[|s| - 1])]
  }

  lemma OmegasAppend(s: seq<Cell>, c: Cell)
    ensures Omegas(s + [c]) == Omegas(s) + [OmegaOf(c)]
  {
    assert (s + [c])[..|s|] == s;
  }

  lemma {:induction false} OmegasAt(s: seq<Cell>)
    ensures |Omegas(s)| == |s| && forall t :: 0 <= t < |s| ==> Omegas(s)[t] == OmegaOf(s[t])
  {
    if s != [] {
      OmegasAt(s[..|s| - 1]);
    }
  }

  /** build_omega_vector: one variable per active entry, in row-major order. */
  method OmegaVector(active: seq<seq<bool>>, n: nat) returns (omega: seq<(nat, nat)>)
    requires Square(active, n)
    ensures |omega| == |ActiveCells(active, n)|
    ensures forall t :: 0 <= t < |omega| ==> omega[t] == OmegaOf(ActiveCells(active, n)[t])
  {
    omega := [];
    for i := 0 to n
      invariant omega == Omegas(ActiveBefore(active, n, i, 0))
    {
      omega := OmegaRow(active, n, i, omega);
      assert ActiveBefore(active, n, i + 1, 0) == ActiveBefore(active, n, i, n);
    }
    OmegasAt(ActiveCells(active, n));
  }

  /** The inner loop of build_omega_vector over row i, extending the variables of the rows before. */
  method OmegaRow(active: seq<seq<bool>>, n: nat, i: nat, omega0: seq<(nat, nat)>) returns (omega: seq<(nat, nat)>)
    requires Square(active, n) && i < n
    requires omega0 == Omegas(ActiveBefore(active, n, i, 0))
    ensures omega == Omegas(ActiveBefore(active, n, i, n))
  {
    omega := omega0;
    for j := 0 to n
      invariant omega == Omegas(ActiveBefore(active, n, i, j))
    {
      if !active[i][j] {
        assert ActiveBefore(active, n, i, j + 1) == ActiveBefore(active, n, i, j);
      } else {
        var cell: Cell := (i, j);
        assert ActiveBefore(active, n, i, j + 1) == ActiveBefore(active, n, i, j) + [cell];
        OmegasAppend(ActiveBefore(active, n, i, j), cell);
        omega := omega + [OmegaOf(cell)];
      }
    }
  }

  /**
   * The column map numbers exactly the active entries with the consecutive
   * positions 0 .. k - 1 (k the number of active entries), no two entries
   * share a position, and the omega vector lists, at each position, the
   * variable of the entry mapped there.
   */
  lemma ColumnMapSpec(active: seq<seq<bool>>, n: nat)
    requires Square(active, n)
    ensures var cells, positions := ActiveCells(active, n), PositionsOf(ActiveCells(active, n));
      && (forall c :: c in positions <==> c.0 < n && c.1 < n && active[c.0][c.1])
      && (forall c :: c in positions ==> positions[c] < |cells| && cells[positions[c]] == c)
      && (forall c, d :: c in positions && d in positions && positions[c] == positions[d] ==> c == d)
      && (forall t :: 0 <= t < |cells| ==> cells[t] in positions && positions[cells[t]] == t)
  {
    var cells := ActiveCells(active, n);
    ActiveCellsMembers(active, n);
    ActiveBeforeSorted(active, n, n, 0);
    PositionsOfSpec(cells);
    forall c | c in PositionsOf(cells) ensures PositionsOf(cells)[c] < |cells| && cells[PositionsOf(cells)[c]] == c {
      var t :| 0 <= t < |cells| && cells[t] == c;
    }
  }

  /** Diagonal entries are never zeroed, so every link a has its variable omega_a^a. */
  lemma DiagonalVariables(m: seq<seq<int>>, active: seq<seq<bool>>, n: nat, a: nat)
    requires |m| > 0 && Square(active, n) && a < n
    requires forall i, j :: 0 <= i < n && 0 <= j < n ==> active[i][j] == ActiveAsWritten(m, i, j)
    ensures (a, a) in ActiveCells(active, n)
    ensures OmegaOf((a, a)) == (a + 1, a + 1)
  {
    ActiveBeforeMember(active, n, n, 0, (a, a));
  }
}
