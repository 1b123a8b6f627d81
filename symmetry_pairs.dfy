/**
 * generate_J_vector of semplificazione_con_grafo.py: the list J of symmetry
 * constraints J_i^j, one per unordered pair of distinct active hyperlinks,
 * found by a row-major scan of the hyperlink matrix that remembers the pairs
 * already handled in both orientations. The string "J_{i+1}^{j+1}" is kept
 * as the 0-based pair (i, j) it encodes.
 */
module SymmetryPairs {
  import opened HyperlinkMatrix

  /** Cell p comes before cell q in the row-major order of np.ndenumerate. */
  predicate Before(p: Cell, q: Cell)
  {
    p.0 < q.0 || (p.0 == q.0 && p.1 < q.1)
  }

  function Swap(p: Cell): Cell
  {
    (p.1, p.0)
  }

  /** An off-diagonal active entry of the hyperlink matrix. */
  predicate Candidate(active: seq<seq<bool>>, n: nat, p: Cell)
    requires Square(active, n)
  {
    p.0 < n && p.1 < n && p.0 != p.1 && active[p.0][p.1]
  }

  /**
   * What the scan of generate_J_vector has established once every cell
   * before `cursor` is visited: `processed` holds both orientations of each
   * pair in J; J holds off-diagonal active cells before the cursor, in
   * row-major order, never both orientations of a pair; every candidate
   * before the cursor is in J in one orientation; and J keeps (j, i) with
   * j > i only when (i, j) is not a candidate.
   */
  ghost predicate ScanInv(active: seq<seq<bool>>, n: nat, J: seq<Cell>, processed: set<Cell>, cursor: Cell)
    requires Square(active, n)
  {
    && (forall c :: c in processed <==> c in J || Swap(c) in J)
    && (forall k :: 0 <= k < |J| ==> Candidate(active, n, J[k]) && Before(J[k], cursor))
    && (forall p, q :: 0 <= p < q < |J| ==> Before(J[p], J[q]) && J[p] != Swap(J[q]))
    && (forall c: Cell :: Candidate(active, n, c) && Before(c, cursor) ==> c in J || Swap(c) in J)
    && (forall k :: 0 <= k < |J| && J[k].0 > J[k].1 ==> !Candidate(active, n, Swap(J[k])))
  }

  /** Visiting a cell that is skipped keeps the invariant. */
  lemma SkipKeeps(active: seq<seq<bool>>, n: nat, J: seq<Cell>, processed: set<Cell>, i: nat, j: nat)
    requires Square(active, n) && i < n && j < n
    requires ScanInv(active, n, J, processed, (i, j))
    requires !(i != j && active[i][j]) || (i, j) in processed || (j, i) in processed
    ensures ScanInv(active, n, J, processed, (i, j + 1))
  {
  }

  /** Visiting a new candidate cell and appending it keeps the invariant. */
  lemma AppendKeeps(active: seq<seq<bool>>, n: nat, J: seq<Cell>, processed: set<Cell>, i: nat, j: nat)
    requires Square(active, n) && i < n && j < n
    requires ScanInv(active, n, J, processed, (i, j))
    requires i != j && active[i][j] && (i, j) !in processed && (j, i) !in processed
    ensures ScanInv(active, n, J + [(i, j)], processed + {(i, j), (j, i)}, (i, j + 1))
  {
    assert i > j && active[j][i] ==> Candidate(active, n, (j, i)) && Before((j, i), (i, j));
    var J' := J + [(i, j)];
    forall p, q | 0 <= p < q < |J'| ensures Before(J'[p], J'[q]) && J'[p] != Swap(J'[q]) {
      if q == |J| {
        assert J'[p] in J;
      }
    }
  }

  /** The end of a row is the start of the next one. */
  lemma NextRow(active: seq<seq<bool>>, n: nat, J: seq<Cell>, processed: set<Cell>, i: nat)
    requires Square(active, n)
    requires ScanInv(active, n, J, processed, (i, n))
    ensures ScanInv(active, n, J, processed, (i + 1, 0))
  {
  }

  /**
   * The scan of generate_J_vector. J holds only off-diagonal active entries,
   * in row-major order, never both orientations of a pair, and at least one
   * orientation of every off-diagonal active pair; of a pair whose two
   * orientations are both active it keeps the one seen first, (min, max).
   */
  method GenerateJ(active: seq<seq<bool>>, n: nat) returns (J: seq<Cell>)
    requires Square(active, n)
    ensures forall k :: 0 <= k < |J| ==> Candidate(active, n, J[k])
    ensures forall p, q :: 0 <= p < q < |J| ==> Before(J[p], J[q]) && J[p] != Swap(J[q])
    ensures forall c: Cell :: Candidate(active, n, c) ==> c in J || Swap(c) in J
    ensures forall k :: 0 <= k < |J| && J[k].0 > J[k].1 ==> !Candidate(active, n, Swap(J[k]))
  {
    J := [];
    var processed: set<Cell> := {};
    for i := 0 to n
      invariant ScanInv(active, n, J, processed, (i, 0))
    {
      for j := 0 to n
        invariant ScanInv(active, n, J, processed, (i, j))
      {
        if i != j && active[i][j] && (i, j) !in processed && (j, i) !in processed {
          AppendKeeps(active, n, J, processed, i, j);
          J := J + [(i, j)];
          processed := processed + {(i, j), (j, i)};
        } else {
          SkipKeeps(active, n, J, processed, i, j);
        }
      }
      NextRow(active, n, J, processed, i);
    }
  }
}
