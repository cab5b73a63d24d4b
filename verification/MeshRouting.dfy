// XY routing on a mesh: the route is a shortest walk between grid neighbours, and its
// routers exist exactly when the corner where it turns does.
module MeshRouting {
  import opened Grid

  function Manhattan(width: nat, a: nat, b: nat): nat
    requires width > 0
  {
    Gap(Column(width, a), Column(width, b)) + Gap(Row(width, a), Row(width, b))
  }

  predicate Neighbours(width: nat, a: nat, b: nat)
    requires width > 0
  {
    Manhattan(width, a, b) == 1
  }

  // A walk steps between grid neighbours only.
  ghost predicate IsWalk(width: nat, walk: seq<nat>, source: nat, dest: nat)
    requires width > 0
  {
    && walk != [] && walk[0] == source && walk[|walk| - 1] == dest
    && forall k :: 0 <= k < |walk| - 1 ==> Neighbours(width, walk[k], walk[k + 1])
  }

  // ---------- Where the route goes ----------

  // k steps from a toward b.
  function Toward(a: nat, b: nat, k: nat): (r: nat)
    requires k <= Gap(a, b)
    ensures Gap(a, r) == k && Gap(r, b) == Gap(a, b) - k
    ensures a <= b ==> a <= r <= b
    ensures b <= a ==> b <= r <= a
  {
    if a < b then a + k else a - k
  }

  // Node k of the XY route: along the source's row first, then along the destination's column.
  function RouteNode(width: nat, source: nat, dest: nat, k: nat): nat
    requires width > 0 && k <= Manhattan(width, source, dest)
  {
    var (sx, sy, dx, dy) := (Column(width, source), Row(width, source), Column(width, dest), Row(width, dest));
    if k <= Gap(sx, dx) then IdAt(width, Toward(sx, dx, k), sy)
    else IdAt(width, dx, Toward(sy, dy, k - Gap(sx, dx)))
  }

  function Corner(width: nat, source: nat, dest: nat): nat
    requires width > 0
  {
    IdAt(width, Column(width, dest), Row(width, source))
  }

  method CalculateRoute(width: nat, source: nat, dest: nat) returns (route: seq<nat>)
    requires width > 0
    ensures |route| == Manhattan(width, source, dest) + 1
    ensures RoutePrefix(width, source, dest, route)
    ensures IsWalk(width, route, source, dest)
  {
    RouteStarts(width, source, dest);
    if source == dest {
      RouteIsWalk(width, source, dest, [source]);
      return [source];
    }
    var sx: nat, sy: nat := source % width, source / width;
    var dx: nat, dy: nat := dest % width, dest / width;
    ghost var x, y, across, down, k: nat := sx, sy, Gap(sx, dx), Gap(sy, dy), 0;
    route := [source];
    hide RouteNode, RoutePrefix, IdAt, Column, Row, IsWalk;
    while sx != dx
      invariant k <= across && sx == Toward(x, dx, k)
      invariant |route| == k + 1 && RoutePrefix(width, source, dest, route)
      decreases across - k
    {
      if sx < dx {
        sx := sx + 1;
      } else {
        sx := sx - 1;
      }
      k := k + 1;
      RouteAcross(width, source, dest, k, route);
      route := route + [IdAt(width, sx, sy)];
    }
    k := 0;
    while sy != dy
      invariant k <= down && sy == Toward(y, dy, k)
      invariant |route| == across + k + 1 && RoutePrefix(width, source, dest, route)
      decreases down - k
    {
      if sy < dy {
        sy := sy + 1;
      } else {
        sy := sy - 1;
      }
      k := k + 1;
      RouteDown(width, source, dest, k, route);
      route := route + [IdAt(width, sx, sy)];
    }
    RouteIsWalk(width, source, dest, route);
  }

  ghost predicate RoutePrefix(width: nat, source: nat, dest: nat, route: seq<nat>)
    requires width > 0
  {
    && |route| <= Manhattan(width, source, dest) + 1
    && forall i :: 0 <= i < |route| ==> route[i] == RouteNode(width, source, dest, i)
  }

  lemma {:induction false} RouteStarts(width: nat, source: nat, dest: nat)
    requires width > 0
    ensures RoutePrefix(width, source, dest, [source])
    ensures forall a: nat, b: nat :: Toward(a, b, 0) == a && Toward(a, b, Gap(a, b)) == b
  {
  }

  lemma {:induction false} RouteAcross(width: nat, source: nat, dest: nat, k: nat, route: seq<nat>)
    requires width > 0 && 0 < k <= Gap(source % width, dest % width)
    requires |route| == k && RoutePrefix(width, source, dest, route)
    ensures RoutePrefix(width, source, dest,
                        route + [IdAt(width, Toward(source % width, dest % width, k), source / width)])
  {
  }

  lemma {:induction false} RouteDown(width: nat, source: nat, dest: nat, k: nat, route: seq<nat>)
    requires width > 0 && 0 < k <= Gap(source / width, dest / width)
    requires |route| == Gap(source % width, dest % width) + k && RoutePrefix(width, source, dest, route)
    ensures RoutePrefix(width, source, dest,
                        route + [IdAt(width, dest % width, Toward(source / width, dest / width, k))])
  {
  }

  // ---------- Shortest ----------

  lemma {:induction false} RouteCoordinates(width: nat, source: nat, dest: nat, k: nat)
    requires width > 0 && k <= Manhattan(width, source, dest)
    ensures var (sx, sy, dx, dy) := (Column(width, source), Row(width, source), Column(width, dest), Row(width, dest));
            var node := RouteNode(width, source, dest, k);
            if k <= Gap(sx, dx) then Column(width, node) == Toward(sx, dx, k) && Row(width, node) == sy
            else Column(width, node) == dx && Row(width, node) == Toward(sy, dy, k - Gap(sx, dx))
  {
    var (sx, sy, dx, dy) := (Column(width, source), Row(width, source), Column(width, dest), Row(width, dest));
    if k <= Gap(sx, dx) {
      IdAtInverts(width, Toward(sx, dx, k), sy);
    } else {
      IdAtInverts(width, dx, Toward(sy, dy, k - Gap(sx, dx)));
    }
  }

  lemma {:induction false} RouteIsWalk(width: nat, source: nat, dest: nat, route: seq<nat>)
    requires width > 0 && |route| == Manhattan(width, source, dest) + 1
    requires RoutePrefix(width, source, dest, route)
    ensures IsWalk(width, route, source, dest)
  {
    var n := |route| - 1;
    RouteCoordinates(width, source, dest, 0);
    CoordinatesDetermine(width, route[0], source);
    RouteCoordinates(width, source, dest, n);
    CoordinatesDetermine(width, route[n], dest);
    forall k | 0 <= k < n
      ensures Neighbours(width, route[k], route[k + 1])
    {
      RouteCoordinates(width, source, dest, k);
      RouteCoordinates(width, source, dest, k + 1);
    }
  }

  // No walk between the same nodes is shorter than their Manhattan distance.
  lemma {:induction false} WalksAreLong(width: nat, walk: seq<nat>, source: nat, dest: nat)
    requires width > 0 && IsWalk(width, walk, source, dest)
    ensures |walk| - 1 >= Manhattan(width, source, dest)
  {
    if |walk| > 1 {
      var n := |walk| - 1;
      WalksAreLong(width, walk[..n], source, walk[n - 1]);
      assert Neighbours(width, walk[n - 1], walk[n]);
    }
  }

  // The computed route is a walk from source to dest, and no walk is shorter.
  lemma {:induction false} RouteIsShortest(width: nat, source: nat, dest: nat, route: seq<nat>, other: seq<nat>)
    requires width > 0 && |route| == Manhattan(width, source, dest) + 1
    requires RoutePrefix(width, source, dest, route)
    requires IsWalk(width, other, source, dest)
    ensures IsWalk(width, route, source, dest) && |route| <= |other|
  {
    RouteIsWalk(width, source, dest, route);
    WalksAreLong(width, other, source, dest);
  }

  // ---------- Routers that exist ----------

  // Every node of the route is at most the larger of source and corner, or of corner and dest.
  lemma {:induction false} NodeBelowEnds(width: nat, source: nat, dest: nat, k: nat)
    requires width > 0 && k <= Manhattan(width, source, dest)
    ensures var node, corner := RouteNode(width, source, dest, k), Corner(width, source, dest);
            node <= source || node <= corner || node <= dest
  {
    var (sx, sy, dx, dy) := (Column(width, source), Row(width, source), Column(width, dest), Row(width, dest));
    assert source == IdAt(width, sx, sy) && dest == IdAt(width, dx, dy);
    if k > Gap(sx, dx) {
      var y := Toward(sy, dy, k - Gap(sx, dx));
      if y <= sy {
        RowOrder(width, y, sy);
      } else {
        RowOrder(width, y, dy);
      }
    }
  }

  lemma {:induction false} CornerOnRoute(width: nat, source: nat, dest: nat)
    requires width > 0
    ensures RouteNode(width, source, dest, Gap(Column(width, source), Column(width, dest))) == Corner(width, source, dest)
  {
  }

  // With numProcessors routers, every router on the route exists exactly when the one at the
  // destination's column and the source's row does.
  lemma {:induction false} RouteExistsIffCorner(width: nat, numProcessors: nat, source: nat, dest: nat)
    requires width > 0 && source < numProcessors && dest < numProcessors
    ensures (forall k: nat :: k <= Manhattan(width, source, dest) ==> RouteNode(width, source, dest, k) < numProcessors)
       <==> Corner(width, source, dest) < numProcessors
  {
    CornerOnRoute(width, source, dest);
    forall k: nat | k <= Manhattan(width, source, dest)
      ensures Corner(width, source, dest) < numProcessors ==> RouteNode(width, source, dest, k) < numProcessors
    {
      NodeBelowEnds(width, source, dest, k);
    }
  }

  // On a full grid the corner, and so the whole route, always exists.
  lemma {:induction false} FullGridHasRoutes(width: nat, height: nat, source: nat, dest: nat)
    requires width > 0 && source < width * height && dest < width * height
    ensures forall k: nat :: k <= Manhattan(width, source, dest) ==> RouteNode(width, source, dest, k) < width * height
  {
    var sy := Row(width, source);
    assert sy < height by {
      if sy >= height {
        RowOrder(width, height, sy);
      }
    }
    RowOrder(width, sy + 1, height);
    assert width * (sy + 1) == width * sy + width;
    RouteExistsIffCorner(width, width * height, source, dest);
  }

  // A ragged grid can lack the corner: five routers in rows of three, from the last to column 2.
  lemma {:induction false} RaggedGridLacksCorner()
    ensures Corner(3, 4, 2) == 5 && RouteNode(3, 4, 2, 1) == 5 && Manhattan(3, 4, 2) == 2
  {
  }
}
