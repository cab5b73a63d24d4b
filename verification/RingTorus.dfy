// Hop counts on a bidirectional ring and on a torus, proved to be the graph distances over
// all walks.
module RingTorus {
  import opened Grid

  function Min(a: nat, b: nat): nat {
    if a <= b then a else b
  }

  // ---------- Ring ----------

  function RingHops(n: nat, src: nat, dst: nat): nat
    requires src < n && dst < n
  {
    if src == dst then 0 else
    var clockwise := if dst >= src then dst - src else n - src + dst;
    var counterClockwise := n - clockwise;
    Min(clockwise, counterClockwise)
  }

  // The next node clockwise.
  function After(n: nat, a: nat): (r: nat)
    requires a < n
    ensures r < n
  {
    if a + 1 == n then 0 else a + 1
  }

  predicate RingNeighbours(n: nat, a: nat, b: nat) {
    a < n && b < n && (b == After(n, a) || a == After(n, b))
  }

  ghost predicate IsRingWalk(n: nat, walk: seq<nat>, src: nat, dst: nat) {
    && walk != [] && walk[0] == src && walk[|walk| - 1] == dst && src < n
    && forall k :: 0 <= k < |walk| - 1 ==> RingNeighbours(n, walk[k], walk[k + 1])
  }

  lemma {:induction false} OneStepRing(n: nat, src: nat, a: nat, b: nat)
    requires src < n && RingNeighbours(n, a, b)
    ensures RingHops(n, src, b) <= RingHops(n, src, a) + 1
  {
  }

  // No walk around the ring is shorter than the hop count.
  lemma {:induction false} RingWalksAreLong(n: nat, walk: seq<nat>, src: nat, dst: nat)
    requires IsRingWalk(n, walk, src, dst)
    ensures dst < n && |walk| - 1 >= RingHops(n, src, dst)
  {
    if |walk| > 1 {
      var k := |walk| - 1;
      RingWalksAreLong(n, walk[..k], src, walk[k - 1]);
      assert RingNeighbours(n, walk[k - 1], walk[k]);
      OneStepRing(n, src, walk[k - 1], walk[k]);
    }
  }

  // A neighbour of dst that is one hop nearer to src.
  lemma {:induction false} NearerOnRing(n: nat, src: nat, dst: nat) returns (mid: nat)
    requires src < n && dst < n && src != dst
    ensures RingNeighbours(n, mid, dst) && RingHops(n, src, mid) == RingHops(n, src, dst) - 1
  {
    var clockwise := if dst >= src then dst - src else n - src + dst;
    if clockwise <= n - clockwise {
      mid := if dst == 0 then n - 1 else dst - 1;
    } else {
      mid := After(n, dst);
    }
  }

  // Some walk has exactly the hop count, so the hop count is the distance.
  lemma {:induction false} RingWalkExists(n: nat, src: nat, dst: nat) returns (walk: seq<nat>)
    requires src < n && dst < n
    ensures IsRingWalk(n, walk, src, dst) && |walk| - 1 == RingHops(n, src, dst)
    decreases RingHops(n, src, dst)
  {
    if src == dst {
      walk := [src];
    } else {
      var mid := NearerOnRing(n, src, dst);
      var shorter := RingWalkExists(n, src, mid);
      walk := shorter + [dst];
    }
  }

  lemma {:induction false} RingSymmetric(n: nat, a: nat, b: nat)
    requires a < n && b < n
    ensures RingHops(n, a, b) == RingHops(n, b, a)
    ensures RingHops(n, a, b) == 0 <==> a == b
  {
  }

  // Walks compose, so distances satisfy the triangle inequality.
  lemma {:induction false} RingTriangle(n: nat, a: nat, b: nat, c: nat)
    requires a < n && b < n && c < n
    ensures RingHops(n, a, c) <= RingHops(n, a, b) + RingHops(n, b, c)
  {
    var first := RingWalkExists(n, a, b);
    var second := RingWalkExists(n, b, c);
    var whole := first + second[1..];
    assert forall k :: |first| <= k < |whole| ==> whole[k] == second[k - |first| + 1];
    assert forall k :: 0 <= k < |whole| - 1 ==> RingNeighbours(n, whole[k], whole[k + 1]);
    assert IsRingWalk(n, whole, a, c);
    RingWalksAreLong(n, whole, a, c);
  }

  // ---------- Torus ----------

  function TorusHops(width: nat, height: nat, src: nat, dst: nat): nat
    requires width > 0 && Row(width, src) < height && Row(width, dst) < height
  {
    if src == dst then 0 else
    var (srcX, srcY) := (Column(width, src), Row(width, src));
    var (dstX, dstY) := (Column(width, dst), Row(width, dst));
    var dx, dy := Gap(dstX, srcX), Gap(dstY, srcY);
    Min(dx, width - dx) + Min(dy, height - dy)
  }

  ghost predicate OnTorus(width: nat, height: nat, id: nat) {
    width > 0 && Row(width, id) < height
  }

  // Neighbours share a row and are ring neighbours in it, or share a column likewise.
  ghost predicate TorusNeighbours(width: nat, height: nat, a: nat, b: nat) {
    && OnTorus(width, height, a) && OnTorus(width, height, b)
    && ((Row(width, a) == Row(width, b) && RingNeighbours(width, Column(width, a), Column(width, b)))
        || (Column(width, a) == Column(width, b) && RingNeighbours(height, Row(width, a), Row(width, b))))
  }

  ghost predicate IsTorusWalk(width: nat, height: nat, walk: seq<nat>, src: nat, dst: nat) {
    && walk != [] && walk[0] == src && walk[|walk| - 1] == dst && OnTorus(width, height, src)
    && forall k :: 0 <= k < |walk| - 1 ==> TorusNeighbours(width, height, walk[k], walk[k + 1])
  }

  lemma {:induction false} RingIsMinGap(n: nat, a: nat, b: nat)
    requires a < n && b < n
    ensures Min(Gap(b, a), n - Gap(b, a)) == RingHops(n, a, b)
  {
  }

  // The torus formula is the ring distance along the row plus the ring distance along the column.
  lemma {:induction false} TorusIsTwoRings(width: nat, height: nat, src: nat, dst: nat)
    requires OnTorus(width, height, src) && OnTorus(width, height, dst)
    ensures TorusHops(width, height, src, dst)
         == RingHops(width, Column(width, src), Column(width, dst)) + RingHops(height, Row(width, src), Row(width, dst))
  {
    RingIsMinGap(width, Column(width, src), Column(width, dst));
    RingIsMinGap(height, Row(width, src), Row(width, dst));
    if src != dst && Column(width, src) == Column(width, dst) && Row(width, src) == Row(width, dst) {
      CoordinatesDetermine(width, src, dst);
    }
  }

  lemma {:induction false} TorusWalksAreLong(width: nat, height: nat, walk: seq<nat>, src: nat, dst: nat)
    requires IsTorusWalk(width, height, walk, src, dst)
    ensures OnTorus(width, height, dst) && |walk| - 1 >= TorusHops(width, height, src, dst)
  {
    if |walk| > 1 {
      var k := |walk| - 1;
      var last := walk[k - 1];
      TorusWalksAreLong(width, height, walk[..k], src, last);
      assert TorusNeighbours(width, height, last, walk[k]);
      OneStepTorus(width, height, src, last, dst);
    }
  }

  lemma {:induction false} OneStepTorus(width: nat, height: nat, src: nat, a: nat, b: nat)
    requires OnTorus(width, height, src) && TorusNeighbours(width, height, a, b)
    ensures TorusHops(width, height, src, b) <= TorusHops(width, height, src, a) + 1
  {
    hide Column, Row, IdAt, RingHops, TorusHops, RingNeighbours;
    TorusIsTwoRings(width, height, src, a);
    TorusIsTwoRings(width, height, src, b);
    if Row(width, a) == Row(width, b) && RingNeighbours(width, Column(width, a), Column(width, b)) {
      OneStepRing(width, Column(width, src), Column(width, a), Column(width, b));
    } else {
      OneStepRing(height, Row(width, src), Row(width, a), Row(width, b));
    }
  }

  // A neighbour of dst one hop nearer to src: correct the column first, then the row.
  lemma {:induction false} NearerOnTorus(width: nat, height: nat, src: nat, dst: nat) returns (mid: nat)
    requires OnTorus(width, height, src) && OnTorus(width, height, dst) && src != dst
    ensures TorusNeighbours(width, height, mid, dst)
    ensures TorusHops(width, height, src, mid) == TorusHops(width, height, src, dst) - 1
  {
    hide Column, Row, IdAt, RingHops, TorusHops, RingNeighbours;
    TorusIsTwoRings(width, height, src, dst);
    if Column(width, src) != Column(width, dst) {
      var x := NearerOnRing(width, Column(width, src), Column(width, dst));
      mid := IdAt(width, x, Row(width, dst));
      IdAtInverts(width, x, Row(width, dst));
    } else {
      if Row(width, src) == Row(width, dst) {
        CoordinatesDetermine(width, src, dst);
      }
      var y := NearerOnRing(height, Row(width, src), Row(width, dst));
      mid := IdAt(width, Column(width, dst), y);
      IdAtInverts(width, Column(width, dst), y);
    }
    TorusIsTwoRings(width, height, src, mid);
  }

  lemma {:induction false} TorusWalkExists(width: nat, height: nat, src: nat, dst: nat) returns (walk: seq<nat>)
    requires OnTorus(width, height, src) && OnTorus(width, height, dst)
    ensures IsTorusWalk(width, height, walk, src, dst) && |walk| - 1 == TorusHops(width, height, src, dst)
    decreases TorusHops(width, height, src, dst)
  {
    if src == dst {
      walk := [src];
    } else {
      var mid := NearerOnTorus(width, height, src, dst);
      var shorter := TorusWalkExists(width, height, src, mid);
      walk := shorter + [dst];
    }
  }

  // The torus hop count is a metric.
  lemma {:induction false} TorusMetric(width: nat, height: nat, a: nat, b: nat, c: nat)
    requires OnTorus(width, height, a) && OnTorus(width, height, b) && OnTorus(width, height, c)
    ensures TorusHops(width, height, a, b) == TorusHops(width, height, b, a)
    ensures TorusHops(width, height, a, b) == 0 <==> a == b
    ensures TorusHops(width, height, a, c) <= TorusHops(width, height, a, b) + TorusHops(width, height, b, c)
  {
    hide Column, Row, IdAt, RingHops, TorusHops;
    TorusIsTwoRings(width, height, a, b);
    TorusIsTwoRings(width, height, b, a);
    TorusIsTwoRings(width, height, b, c);
    TorusIsTwoRings(width, height, a, c);
    RingSymmetric(width, Column(width, a), Column(width, b));
    RingSymmetric(height, Row(width, a), Row(width, b));
    RingTriangle(width, Column(width, a), Column(width, b), Column(width, c));
    RingTriangle(height, Row(width, a), Row(width, b), Row(width, c));
    if Column(width, a) == Column(width, b) && Row(width, a) == Row(width, b) {
      CoordinatesDetermine(width, a, b);
    }
  }

  // Every router of an n-processor torus, with the height it is built with, is on the torus.
  lemma {:induction false} RoutersAreOnTorus(width: nat, n: nat, id: nat)
    requires width > 0 && id < n
    ensures OnTorus(width, (n + width - 1) / width, id)
  {
    var height, row := (n + width - 1) / width, Row(width, id);
    assert width * row <= id;
    assert n + width - 1 == width * height + (n + width - 1) % width;
    if row >= height {
      RowOrder(width, height, row);
    }
  }
}
