// Router ids laid out row by row: coordinates, ids and the gaps between them.
module Grid {
  import opened Arithmetic

  function Column(width: nat, id: nat): (x: nat)
    requires width > 0
    ensures x < width
  {
    id % width
  }

  function Row(width: nat, id: nat): nat
    requires width > 0
  {
    id / width
  }

  function IdAt(width: nat, x: nat, y: nat): nat {
    width * y + x
  }

  function Gap(a: nat, b: nat): nat {
    if a < b then b - a else a - b
  }

  lemma {:induction false} IdAtInverts(width: nat, x: nat, y: nat)
    requires x < width
    ensures Column(width, IdAt(width, x, y)) == x && Row(width, IdAt(width, x, y)) == y
  {
    DivModUnique(width, y, x);
  }

  lemma {:induction false} CoordinatesDetermine(width: nat, a: nat, b: nat)
    requires width > 0 && Column(width, a) == Column(width, b) && Row(width, a) == Row(width, b)
    ensures a == b
  {
    assert a == width * (a / width) + a % width;
    assert b == width * (b / width) + b % width;
  }

  lemma {:induction false} RowOrder(width: nat, y1: nat, y2: nat)
    requires y1 <= y2
    ensures width * y1 <= width * y2
  {
  }
}
