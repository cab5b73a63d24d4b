// Counts of recorded state transitions, one row per source state.
module Transitions {

  type Table = seq<seq<nat>>

  ghost predicate IsTable(t: Table, n: nat) {
    |t| == n && forall i :: 0 <= i < n ==> |t[i]| == n
  }

  function ZeroTable(n: nat): (t: Table)
    ensures IsTable(t, n)
    ensures forall i, j :: 0 <= i < n && 0 <= j < n ==> t[i][j] == 0
  {
    seq(n, _ => seq(n, _ => 0))
  }

  function Bumped(t: Table, i: nat, j: nat, n: nat): (r: Table)
    requires IsTable(t, n) && i < n && j < n
    ensures IsTable(r, n)
  {
    t[i := t[i][j := t[i][j] + 1]]
  }

  // ---------- Flow ----------

  function Is<S(==)>(a: S, s: S): int {
    if a == s then 1 else 0
  }

  function RowSum(row: seq<nat>): nat {
    if row == [] then 0 else RowSum(row[..|row| - 1]) + row[|row| - 1]
  }

  function OutOf(t: Table, i: nat): nat
    requires i < |t|
  {
    RowSum(t[i])
  }

  function Into(t: Table, j: nat): nat
    requires forall i :: 0 <= i < |t| ==> j < |t[i]|
  {
    if t == [] then 0 else Into(t[..|t| - 1], j) + t[|t| - 1][j]
  }

  // All transitions recorded.
  function Total(t: Table): nat {
    if t == [] then 0 else Total(t[..|t| - 1]) + RowSum(t[|t| - 1])
  }

  // Transitions into a state minus transitions out of it.
  function Flow(t: Table, n: nat, i: nat): int
    requires IsTable(t, n) && i < n
  {
    Into(t, i) - OutOf(t, i)
  }

  lemma {:induction false} RowSumBumped(row: seq<nat>, j: nat)
    requires j < |row|
    ensures RowSum(row[j := row[j] + 1]) == RowSum(row) + 1
  {
    var m, row' := |row| - 1, row[j := row[j] + 1];
    if j == m {
      assert row'[..m] == row[..m];
    } else {
      assert row'[..m] == row[..m][j := row[..m][j] + 1];
      RowSumBumped(row[..m], j);
    }
  }

  // One more in row i and column j adds one to that column, one to that row and one in all.
  lemma {:induction false} IntoBumped(t: Table, i: nat, row: seq<nat>, j: nat)
    requires i < |t| && j < |row| && forall k :: 0 <= k < |t| ==> j < |t[k]|
    ensures Into(t[i := row], j) == Into(t, j) - t[i][j] + row[j]
  {
    var m := |t| - 1;
    if i == m {
      assert t[i := row][..m] == t[..m];
    } else {
      assert t[i := row][..m] == t[..m][i := row];
      IntoBumped(t[..m], i, row, j);
    }
  }

  lemma {:induction false} TotalBumped(t: Table, i: nat, row: seq<nat>)
    requires i < |t|
    ensures Total(t[i := row]) == Total(t) - RowSum(t[i]) + RowSum(row)
  {
    var m := |t| - 1;
    if i == m {
      assert t[i := row][..m] == t[..m];
    } else {
      assert t[i := row][..m] == t[..m][i := row];
      TotalBumped(t[..m], i, row);
    }
  }

  lemma {:induction false} BumpedFlow(t: Table, i: nat, j: nat, n: nat, k: nat)
    requires IsTable(t, n) && i < n && j < n && k < n
    ensures Flow(Bumped(t, i, j, n), n, k) == Flow(t, n, k) + Is(j, k) - Is(i, k)
    ensures Total(Bumped(t, i, j, n)) == Total(t) + 1
  {
    var row := t[i][j := t[i][j] + 1];
    RowSumBumped(t[i], j);
    IntoBumped(t, i, row, k);
    TotalBumped(t, i, row);
    hide RowSum, Into, Total;
  }

  lemma {:induction false} NoFlow(n: nat, i: nat)
    requires i < n
    ensures Flow(ZeroTable(n), n, i) == 0 && Total(ZeroTable(n)) == 0
  {
    ZeroRow(ZeroTable(n)[i]);
    ZeroColumn(ZeroTable(n), i);
  }

  lemma {:induction false} ZeroRow(row: seq<nat>)
    requires forall j :: 0 <= j < |row| ==> row[j] == 0
    ensures RowSum(row) == 0
  {
    if row != [] { ZeroRow(row[..|row| - 1]); }
  }

  lemma {:induction false} ZeroColumn(t: Table, j: nat)
    requires forall i :: 0 <= i < |t| ==> j < |t[i]| && forall k :: 0 <= k < |t[i]| ==> t[i][k] == 0
    ensures Into(t, j) == 0 && Total(t) == 0
  {
    if t != [] {
      ZeroRow(t[|t| - 1]);
      ZeroColumn(t[..|t| - 1], j);
    }
  }

  // ---------- Copies per state ----------

  function CountOf<S(==)>(copies: seq<S>, s: S): nat {
    if copies == [] then 0 else CountOf(copies[..|copies| - 1], s) + Is(copies[|copies| - 1], s)
  }

  lemma {:induction false} CountUpdate<S>(copies: seq<S>, p: nat, b: S, s: S)
    requires p < |copies|
    ensures CountOf(copies[p := b], s) == CountOf(copies, s) + Is(b, s) - Is(copies[p], s)
  {
    var m := |copies| - 1;
    if p == m {
      assert copies[p := b][..m] == copies[..m];
    } else {
      assert copies[p := b][..m] == copies[..m][p := b];
      CountUpdate(copies[..m], p, b, s);
    }
  }
}
