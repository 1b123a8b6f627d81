/**
 * Node x link incidence matrices: the validation that `from_incidence_matrix`
 * performs before building a graph, the links it then builds, and the matrix
 * that `to_incidence_matrix` produces from a list of links.
 *
 * Row i is node i + 1, column j is link j + 1; -1 marks the origin and +1 the
 * destination of a link.
 */
module Incidence {
  import opened Wrappers
  import opened GraphData

  /** The ValueError raised by the validation, one per check, in the order they run. */
  datatype IncidenceError = EmptyMatrix | RaggedRows | MuLength | SigmaLength | BadColumn(column: nat)

  /** Number of occurrences of `v` in `s` (Python's list.count). */
  function Count(s: seq<int>, v: int): nat
  {
    if s == [] then 0 else (if s[0] == v then 1 else 0) + Count(s[1..], v)
  }

  /** Index of the first occurrence of `v` in `s`, or |s| when there is none. */
  function IndexOf(s: seq<int>, v: int): (r: nat)
    ensures r <= |s|
    ensures r < |s| ==> s[r] == v
    ensures v in s ==> r < |s|
  {
    if s == [] then 0 else if s[0] == v then 0 else 1 + IndexOf(s[1..], v)
  }

  predicate Rectangular(m: seq<seq<int>>)
  {
    forall i :: 0 <= i < |m| ==> |m[i]| == |m[0]|
  }

  /** Column j of the matrix: [matrix[i][j] for i in range(num_nodes)]. */
  function Column(m: seq<seq<int>>, j: nat): (c: seq<int>)
    requires forall i :: 0 <= i < |m| ==> j < |m[i]|
    ensures |c| == |m|
  {
    seq(|m|, i requires 0 <= i < |m| => m[i][j])
  }

  /** A column names exactly one origin and one destination. */
  predicate ColumnOk(m: seq<seq<int>>, j: nat)
    requires forall i :: 0 <= i < |m| ==> j < |m[i]|
  {
    Count(Column(m, j), -1) == 1 && Count(Column(m, j), 1) == 1
  }

  /** The first column at or after `j` that fails ColumnOk. */
  function FirstBadColumn(m: seq<seq<int>>, j: nat): Option<nat>
    requires |m| > 0 && Rectangular(m) && j <= |m[0]|
    decreases |m[0]| - j
  {
    if j == |m[0]| then None
    else if !ColumnOk(m, j) then Some(j)
    else FirstBadColumn(m, j + 1)
  }

  /** The checks of from_incidence_matrix, in order; None when the matrix is accepted. */
  function Validate(m: seq<seq<int>>, mu: Option<seq<real>>, sigma: Option<seq<real>>): Option<IncidenceError>
  {
    if |m| == 0 then Some(EmptyMatrix)
    else if !Rectangular(m) then Some(RaggedRows)
    else if mu.Some? && |mu.value| != |m[0]| then Some(MuLength)
    else if sigma.Some? && |sigma.value| != |m[0]| then Some(SigmaLength)
    else match FirstBadColumn(m, 0)
      case Some(j) => Some(BadColumn(j))
      case None => None
  }

  /** The matrix is accepted: non-empty, rectangular, parameter lists of the right length, every column valid. */
  predicate Accepted(m: seq<seq<int>>, mu: Option<seq<real>>, sigma: Option<seq<real>>)
  {
    && |m| > 0
    && Rectangular(m)
    && (mu.Some? ==> |mu.value| == |m[0]|)
    && (sigma.Some? ==> |sigma.value| == |m[0]|)
    && forall j :: 0 <= j < |m[0]| ==> ColumnOk(m, j)
  }

  lemma {:induction false} FirstBadColumnSpec(m: seq<seq<int>>, j: nat)
    requires |m| > 0 && Rectangular(m) && j <= |m[0]|
    ensures FirstBadColumn(m, j).None? <==> forall k :: j <= k < |m[0]| ==> ColumnOk(m, k)
    ensures FirstBadColumn(m, j).Some? ==>
      var b := FirstBadColumn(m, j).value;
      j <= b < |m[0]| && !ColumnOk(m, b) && forall k :: j <= k < b ==> ColumnOk(m, k)
    decreases |m[0]| - j
  {
    if j < |m[0]| && ColumnOk(m, j) {
      FirstBadColumnSpec(m, j + 1);
    }
  }

  /**
   * from_incidence_matrix raises exactly when one of its checks fails, and a
   * bad column is reported at the first failing column.
   */
  lemma ValidateSpec(m: seq<seq<int>>, mu: Option<seq<real>>, sigma: Option<seq<real>>)
    ensures Validate(m, mu, sigma).None? <==> Accepted(m, mu, sigma)
    ensures Validate(m, mu, sigma) == Some(EmptyMatrix) <==> |m| == 0
    ensures Validate(m, mu, sigma) == Some(RaggedRows) <==> |m| > 0 && !Rectangular(m)
    ensures Validate(m, mu, sigma).Some? && Validate(m, mu, sigma).value.BadColumn? ==>
      var b := Validate(m, mu, sigma).value.column;
      |m| > 0 && Rectangular(m) && b < |m[0]| && !ColumnOk(m, b) && forall k :: 0 <= k < b ==> ColumnOk(m, k)
  {
    if |m| > 0 && Rectangular(m) {
      FirstBadColumnSpec(m, 0);
    }
  }

  /** The validation loop of from_incidence_matrix. */
  method CheckMatrix(m: seq<seq<int>>, mu: Option<seq<real>>, sigma: Option<seq<real>>) returns (err: Option<IncidenceError>)
    ensures err == Validate(m, mu, sigma)
  {
    if |m| == 0 {
      return Some(EmptyMatrix);
    }
    var numLinks := |m[0]|;
    if exists i :: 0 <= i < |m| && |m[i]| != numLinks {
      return Some(RaggedRows);
    }
    if mu.Some? && |mu.value| != numLinks {
      return Some(MuLength);
    }
    if sigma.Some? && |sigma.value| != numLinks {
      return Some(SigmaLength);
    }
    var j := 0;
    while j < numLinks
      invariant 0 <= j <= numLinks
      invariant FirstBadColumn(m, 0) == FirstBadColumn(m, j)
    {
      var column := Column(m, j);
      if Count(column, -1) != 1 || Count(column, 1) != 1 {
        return Some(BadColumn(j));
      }
      j := j + 1;
    }
    return None;
  }

  lemma {:induction false} CountPositive(s: seq<int>, v: int)
    ensures Count(s, v) > 0 <==> v in s
  {
    if s != [] {
      CountPositive(s[1..], v);
      assert v in s <==> s[0] == v || v in s[1..];
    }
  }

  lemma {:induction false} CountTwo(s: seq<int>, v: int, i: nat, k: nat)
    requires i < k < |s| && s[i] == v && s[k] == v
    ensures Count(s, v) >= 2
  {
    if i == 0 {
      assert s[1..][k - 1] == v;
      CountPositive(s[1..], v);
    } else {
      CountTwo(s[1..], v, i - 1, k - 1);
    }
  }

  lemma CountOneUnique(s: seq<int>, v: int, i: nat, k: nat)
    requires Count(s, v) == 1 && i < |s| && k < |s| && s[i] == v && s[k] == v
    ensures i == k
  {
    if i < k {
      CountTwo(s, v, i, k);
    } else if k < i {
      CountTwo(s, v, k, i);
    }
  }

  lemma {:induction false} CountSingle(s: seq<int>, v: int, k: nat)
    requires k < |s| && s[k] == v
    requires forall i :: 0 <= i < |s| && i != k ==> s[i] != v
    ensures Count(s, v) == 1
  {
    if k == 0 {
      CountPositive(s[1..], v);
    } else {
      CountSingle(s[1..], v, k - 1);
    }
  }

  lemma {:induction false} CountAbsent(s: seq<int>, v: int)
    requires forall i :: 0 <= i < |s| ==> s[i] != v
    ensures Count(s, v) == 0
  {
    CountPositive(s, v);
  }

  /**
   * The scan of one column in from_incidence_matrix: the row holding -1 and
   * the row holding +1 (0-based). Only reached after validation.
   */
  method ColumnEnds(m: seq<seq<int>>, j: nat) returns (originIdx: nat, destinationIdx: nat)
    requires forall i :: 0 <= i < |m| ==> j < |m[i]|
    requires ColumnOk(m, j)
    ensures originIdx < |m| && m[originIdx][j] == -1
    ensures destinationIdx < |m| && m[destinationIdx][j] == 1
    ensures originIdx == IndexOf(Column(m, j), -1) && destinationIdx == IndexOf(Column(m, j), 1)
  {
    ghost var column := Column(m, j);
    var o: Option<nat> := None;
    var d: Option<nat> := None;
    var i := 0;
    while i < |m|
      invariant 0 <= i <= |m|
      invariant o.Some? ==> o.value < i && m[o.value][j] == -1
      invariant d.Some? ==> d.value < i && m[d.value][j] == 1
      invariant -1 in column[..i] ==> o.Some?
      invariant 1 in column[..i] ==> d.Some?
    {
      assert column[..i + 1] == column[..i] + [m[i][j]];
      if m[i][j] == -1 {
        o := Some(i);
      } else if m[i][j] == 1 {
        d := Some(i);
      }
      i := i + 1;
    }
    assert column[..i] == column;
    CountPositive(column, -1);
    CountPositive(column, 1);
    originIdx, destinationIdx := o.value, d.value;
    CountOneUnique(column, -1, originIdx, IndexOf(column, -1));
    CountOneUnique(column, 1, destinationIdx, IndexOf(column, 1));
  }

  /** `mu_list[j] if mu_list else 0.0`: an absent or empty list gives 0.0. */
  function ValueAt(list: Option<seq<real>>, j: nat): real
    requires list.Some? && |list.value| > 0 ==> j < |list.value|
  {
    if list.Some? && |list.value| > 0 then list.value[j] else 0.0
  }

  /** The links from_incidence_matrix builds from an accepted matrix: link j + 1 from the -1 row to the +1 row. */
  function LinksFrom(m: seq<seq<int>>, mu: Option<seq<real>>, sigma: Option<seq<real>>): (links: seq<Link>)
    requires Accepted(m, mu, sigma)
    ensures |links| == |m[0]|
  {
    seq(|m[0]|, j requires 0 <= j < |m[0]| =>
      Link(j + 1, IndexOf(Column(m, j), -1) + 1, IndexOf(Column(m, j), 1) + 1, ValueAt(mu, j), ValueAt(sigma, j), map[]))
  }

  /** Entry of to_incidence_matrix for `link` in row `node`; the +1 is written last, so a self-loop shows +1. */
  function Entry(link: Link, node: nat): int
  {
    if link.destination == node then 1 else if link.origin == node then -1 else 0
  }

  /** The nodes x links matrix of to_incidence_matrix. */
  function IncidenceOf(n: nat, links: seq<Link>): seq<seq<int>>
  {
    seq(n, i requires 0 <= i < n => seq(|links|, j requires 0 <= j < |links| => Entry(links[j], i + 1)))
  }

  /**
   * Each link built from an accepted matrix goes from the row holding -1 to
   * the row holding +1 of its column, carries mu and sigma from the lists
   * (0.0 when a list is absent) and has no correlations yet; the result is a
   * well-formed link list over |m| nodes.
   */
  lemma LinksFromSpec(m: seq<seq<int>>, mu: Option<seq<real>>, sigma: Option<seq<real>>, j: nat)
    requires Accepted(m, mu, sigma) && j < |m[0]|
    ensures LinksWf(|m|, LinksFrom(m, mu, sigma))
    ensures var l := LinksFrom(m, mu, sigma)[j];
      && l.id == j + 1 && l.origin != l.destination
      && m[l.origin - 1][j] == -1 && m[l.destination - 1][j] == 1
      && (forall i :: 0 <= i < |m| && m[i][j] == -1 ==> i == l.origin - 1)
      && (forall i :: 0 <= i < |m| && m[i][j] == 1 ==> i == l.destination - 1)
      && l.mu == (if mu.Some? then mu.value[j] else 0.0)
      && l.sigma == (if sigma.Some? then sigma.value[j] else 0.0)
      && l.rho == map[]
  {
    var links := LinksFrom(m, mu, sigma);
    forall k | 0 <= k < |links|
      ensures 1 <= links[k].origin <= |m| && 1 <= links[k].destination <= |m|
    {
      assert ColumnOk(m, k);
      CountPositive(Column(m, k), -1);
      CountPositive(Column(m, k), 1);
    }
    var column := Column(m, j);
    assert ColumnOk(m, j);
    CountPositive(column, -1);
    CountPositive(column, 1);
    forall i | 0 <= i < |m| && m[i][j] == -1
      ensures i == links[j].origin - 1
    {
      CountOneUnique(column, -1, i, IndexOf(column, -1));
    }
    forall i | 0 <= i < |m| && m[i][j] == 1
      ensures i == links[j].destination - 1
    {
      CountOneUnique(column, 1, i, IndexOf(column, 1));
    }
  }

  /**
   * Round trip: to_incidence_matrix(from_incidence_matrix(M)) == M holds for
   * an accepted matrix exactly when all its entries lie in {-1, 0, 1};
   * validation only counts the -1 and +1 entries, so others are dropped.
   */
  lemma RoundTrip(m: seq<seq<int>>, mu: Option<seq<real>>, sigma: Option<seq<real>>)
    requires Accepted(m, mu, sigma)
    ensures IncidenceOf(|m|, LinksFrom(m, mu, sigma)) == m <==>
      forall i, j :: 0 <= i < |m| && 0 <= j < |m[i]| ==> -1 <= m[i][j] <= 1
  {
    var links := LinksFrom(m, mu, sigma);
    var back := IncidenceOf(|m|, links);
    if forall i, j :: 0 <= i < |m| && 0 <= j < |m[i]| ==> -1 <= m[i][j] <= 1 {
      forall i | 0 <= i < |m|
        ensures back[i] == m[i]
      {
        forall j | 0 <= j < |m[i]|
          ensures back[i][j] == m[i][j]
        {
          LinksFromSpec(m, mu, sigma, j);
        }
      }
    } else {
      var i, j :| 0 <= i < |m| && 0 <= j < |m[i]| && !(-1 <= m[i][j] <= 1);
      assert back[i][j] != m[i][j];
    }
  }

  function Mus(links: seq<Link>): seq<real>
  {
    seq(|links|, j requires 0 <= j < |links| => links[j].mu)
  }

  function Sigmas(links: seq<Link>): seq<real>
  {
    seq(|links|, j requires 0 <= j < |links| => links[j].sigma)
  }

  /**
   * The other round trip: the matrix of a graph with at least one node and
   * no self-loops is accepted, and rebuilding from it (with the links' mu
   * and sigma lists) gives back the same links, correlations cleared.
   */
  lemma Rebuild(n: nat, links: seq<Link>)
    requires n > 0 && LinksWf(n, links)
    requires forall j :: 0 <= j < |links| ==> links[j].origin != links[j].destination
    ensures Accepted(IncidenceOf(n, links), Some(Mus(links)), Some(Sigmas(links)))
    ensures LinksFrom(IncidenceOf(n, links), Some(Mus(links)), Some(Sigmas(links))) ==
      seq(|links|, j requires 0 <= j < |links| => links[j].(rho := map[]))
  {
    var m := IncidenceOf(n, links);
    forall j | 0 <= j < |links|
      ensures ColumnOk(m, j)
      ensures IndexOf(Column(m, j), -1) == links[j].origin - 1
      ensures IndexOf(Column(m, j), 1) == links[j].destination - 1
    {
      var column := Column(m, j);
      CountSingle(column, -1, links[j].origin - 1);
      CountSingle(column, 1, links[j].destination - 1);
      CountPositive(column, -1);
      CountPositive(column, 1);
      CountOneUnique(column, -1, links[j].origin - 1, IndexOf(column, -1));
      CountOneUnique(column, 1, links[j].destination - 1, IndexOf(column, 1));
    }
  }

  /** A self-loop cannot be written back as a valid column: it shows a +1 and no -1. */
  lemma SelfLoopRejected(n: nat, links: seq<Link>, j: nat)
    requires n > 0 && LinksWf(n, links) && j < |links| && links[j].origin == links[j].destination
    ensures !ColumnOk(IncidenceOf(n, links), j)
    ensures Validate(IncidenceOf(n, links), None, None).Some?
  {
    var m := IncidenceOf(n, links);
    CountAbsent(Column(m, j), -1);
    ValidateSpec(m, None, None);
  }
}
