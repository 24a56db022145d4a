/** A two-dimensional table kept row by row in one flat sequence. */
module Grids {

  /** Where row `r` starts: `r * step`. */
  function Offset(step: nat, r: nat): nat {
    if r == 0 then 0 else Offset(step, r - 1) + step
  }

  lemma {:induction false} OffsetIsProduct(step: nat, r: nat)
    ensures Offset(step, r) == r * step
  {
    if r > 0 {
      OffsetIsProduct(step, r - 1);
    }
  }

  lemma {:induction false} OffsetMonotone(step: nat, r: nat, n: nat)
    requires r <= n
    ensures Offset(step, r) <= Offset(step, n)
    ensures r < n ==> Offset(step, r + 1) <= Offset(step, n)
  {
    if r < n {
      OffsetMonotone(step, r, n - 1);
    }
  }

  /** The first `n` rows of the table held in `cells`, each `step` entries long. */
  ghost function Grid<T>(cells: seq<T>, step: nat, n: nat): (grid: seq<seq<T>>)
    requires Offset(step, n) <= |cells|
    ensures |grid| == n && forall r :: 0 <= r < n ==> |grid[r]| == step
  {
    if n == 0 then [] else Grid(cells, step, n - 1) + [cells[Offset(step, n - 1)..Offset(step, n)]]
  }

  lemma {:induction false} GridRow<T>(cells: seq<T>, step: nat, n: nat, r: nat)
    requires Offset(step, n) <= |cells| && r < n
    ensures Offset(step, r + 1) <= |cells|
    ensures Grid(cells, step, n)[r] == cells[Offset(step, r)..Offset(step, r + 1)]
  {
    if r < n - 1 {
      GridRow(cells, step, n - 1, r);
    }
  }

  lemma GridCell<T>(cells: seq<T>, step: nat, n: nat, r: nat, c: nat)
    requires Offset(step, n) <= |cells| && r < n && c < step
    ensures Offset(step, r) + c < Offset(step, n)
    ensures Grid(cells, step, n)[r][c] == cells[Offset(step, r) + c]
  {
    hide Grid;
    GridRow(cells, step, n, r);
    OffsetMonotone(step, r, n);
    assert Offset(step, r + 1) == Offset(step, r) + step;
  }

  lemma {:induction false} GridPrefix<T>(cells: seq<T>, step: nat, m: nat, n: nat)
    requires m <= n && Offset(step, n) <= |cells|
    ensures Offset(step, m) <= |cells| && Grid(cells, step, m) == Grid(cells, step, n)[..m]
  {
    OffsetMonotone(step, m, n);
    if m < n {
      GridPrefix(cells, step, m, n - 1);
    }
  }

  /** The table only depends on the cells below its end. */
  lemma {:induction false} GridSame<T>(a: seq<T>, b: seq<T>, step: nat, n: nat)
    requires Offset(step, n) <= |a| && Offset(step, n) <= |b|
    requires a[..Offset(step, n)] == b[..Offset(step, n)]
    ensures Grid(a, step, n) == Grid(b, step, n)
  {
    if n > 0 {
      var e, f := Offset(step, n - 1), Offset(step, n);
      assert a[..e] == a[..f][..e] && b[..e] == b[..f][..e];
      assert a[e..f] == a[..f][e..] && b[e..f] == b[..f][e..];
      GridSame(a, b, step, n - 1);
    }
  }

  /** Writing one cell changes one entry of the table. */
  lemma GridUpdate<T>(a: seq<T>, step: nat, n: nat, r: nat, c: nat, v: T)
    requires Offset(step, n) <= |a| && r < n && c < step
    ensures Offset(step, r) + c < |a|
    ensures Grid(a[Offset(step, r) + c := v], step, n) ==
            Grid(a, step, n)[r := Grid(a, step, n)[r][c := v]]
  {
    OffsetMonotone(step, r, n);
    var b := a[Offset(step, r) + c := v];
    var g, h := Grid(a, step, n), Grid(b, step, n);
    forall q | 0 <= q < n
      ensures h[q] == if q == r then g[r][c := v] else g[q]
    {
      GridRow(a, step, n, q);
      GridRow(b, step, n, q);
      if q < r {
        OffsetMonotone(step, q, r);
      } else if r < q {
        OffsetMonotone(step, r, q);
      }
    }
  }
}
