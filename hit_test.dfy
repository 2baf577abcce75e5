/**
 * Hit-testing: which node lies under the mouse (`findNodeAt`) and which arc
 * lies near it (`findEdgeNear`, with `distPointToSegment`). The search
 * orders are specified by recursive functions and the source's loops are
 * methods proved equal to them.
 */
module HitTest {
  import opened GraphModel

  // ---------------------------------------------------------------------
  // Nodes

  /** The point lies inside or on the circle drawn for node n. */
  predicate OnNode(n: Node, mx: int, my: int) {
    (mx - n.x) * (mx - n.x) + (my - n.y) * (my - n.y) <= NODE_RADIUS * NODE_RADIUS
  }

  /** The first of the nodes i..count-1 under the point, or -1. */
  function NodeAtFrom(nodes: seq<Node>, count: int, mx: int, my: int, i: nat): (r: int)
    requires count <= |nodes|
    ensures r == -1 || (i <= r < count && OnNode(nodes[r], mx, my))
    ensures r != -1 ==> forall j :: i <= j < r ==> !OnNode(nodes[j], mx, my)
    ensures r == -1 <==> forall j :: i <= j < count ==> !OnNode(nodes[j], mx, my)
    decreases count - i
  {
    if i >= count then -1
    else if OnNode(nodes[i], mx, my) then i
    else NodeAtFrom(nodes, count, mx, my, i + 1)
  }

  /** findNodeAt's answer (main.cpp:94-101): the lowest index of a node whose
      circle holds the point, or -1 when there is none. */
  function NodeAt(nodes: seq<Node>, count: int, mx: int, my: int): (r: int)
    requires count <= |nodes|
    ensures r == -1 <==> forall j :: 0 <= j < count ==> !OnNode(nodes[j], mx, my)
    ensures r != -1 ==> 0 <= r < count && OnNode(nodes[r], mx, my)
    ensures r != -1 ==> forall j :: 0 <= j < r ==> !OnNode(nodes[j], mx, my)
  {
    NodeAtFrom(nodes, count, mx, my, 0)
  }

  /** The loop of findNodeAt (main.cpp:94-101). */
  method FindNodeAt(nodes: seq<Node>, count: int, mx: int, my: int) returns (r: int)
    requires count <= |nodes|
    ensures r == NodeAt(nodes, count, mx, my)
  {
    var i := 0;
    while i < count
      invariant 0 <= i
      invariant count >= 0 ==> i <= count
      invariant NodeAtFrom(nodes, count, mx, my, i) == NodeAt(nodes, count, mx, my)
    {
      var dx := mx - nodes[i].x;
      var dy := my - nodes[i].y;
      if dx * dx + dy * dy <= NODE_RADIUS * NODE_RADIUS {
        return i;
      }
      i := i + 1;
    }
    return -1;
  }

  // ---------------------------------------------------------------------
  // Distance from a point to a segment

  function Sq(x: real): real {
    x * x
  }

  lemma NonNegProduct(a: real, b: real)
    requires a >= 0.0 && b >= 0.0
    ensures a * b >= 0.0
  {
  }

  lemma SquareNonNeg(a: real)
    ensures Sq(a) >= 0.0
  {
    if a >= 0.0 {
      NonNegProduct(a, a);
    } else {
      NonNegProduct(-a, -a);
    }
  }

  /** The squared distance from P = (px, py) to the point A + s (B - A) of the
      segment from A = (x1, y1) to B = (x2, y2). */
  function Dist2At(px: int, py: int, x1: int, y1: int, x2: int, y2: int, s: real): (d: real)
    ensures d >= 0.0
  {
    var ex := px as real - (x1 as real + s * (x2 - x1) as real);
    var ey := py as real - (y1 as real + s * (y2 - y1) as real);
    SquareNonNeg(ex);
    SquareNonNeg(ey);
    Sq(ex) + Sq(ey)
  }

  /** Clamping to the segment (main.cpp:298). */
  function Clamp(t: real): (r: real)
    ensures 0.0 <= r <= 1.0
    ensures 0.0 <= t <= 1.0 ==> r == t
    ensures t < 0.0 ==> r == 0.0
    ensures t > 1.0 ==> r == 1.0
  {
    if t < 0.0 then 0.0 else if t > 1.0 then 1.0 else t
  }

  /** c1 of distPointToSegment: the dot product of B - A with P - A. */
  function Dot(px: int, py: int, x1: int, y1: int, x2: int, y2: int): real {
    (x2 - x1) as real * (px - x1) as real + (y2 - y1) as real * (py - y1) as real
  }

  /** c2 of distPointToSegment: the squared length of B - A. */
  function Len2(x1: int, y1: int, x2: int, y2: int): (c2: real)
    ensures c2 >= 0.0
  {
    SquareNonNeg((x2 - x1) as real);
    SquareNonNeg((y2 - y1) as real);
    Sq((x2 - x1) as real) + Sq((y2 - y1) as real)
  }

  /** The parameter of the point of segment AB that distPointToSegment picks
      (main.cpp:294-298): the projection of P, clamped to the segment; 0 for a
      segment shorter than the cut-off. */
  function ClosestParam(px: int, py: int, x1: int, y1: int, x2: int, y2: int): (t: real)
    ensures 0.0 <= t <= 1.0
    ensures x1 == x2 && y1 == y2 ==> t == 0.0
  {
    var c1, c2 := Dot(px, py, x1, y1, x2, y2), Len2(x1, y1, x2, y2);
    Clamp(if c2 < 0.000001 then 0.0 else c1 / c2)
  }

  /** distPointToSegment squared (main.cpp:293-303), in exact arithmetic. */
  function SegmentDist2(px: int, py: int, x1: int, y1: int, x2: int, y2: int): (d: real)
    ensures d >= 0.0
  {
    Dist2At(px, py, x1, y1, x2, y2, ClosestParam(px, py, x1, y1, x2, y2))
  }

  /** The part of the squared distance that depends on s. */
  function Quad(c1: real, c2: real, s: real): real {
    -2.0 * s * c1 + s * s * c2
  }

  /** One coordinate of the distance, expanded in s. */
  lemma SqDiff(w: real, v: real, s: real)
    ensures Sq(w - s * v) == Sq(w) - 2.0 * s * (v * w) + s * s * Sq(v)
  {
  }

  /** The squared distance along the segment as a polynomial in s. */
  lemma Dist2Poly(px: int, py: int, x1: int, y1: int, x2: int, y2: int, s: real)
    ensures Dist2At(px, py, x1, y1, x2, y2, s)
      == Sq((px - x1) as real) + Sq((py - y1) as real) + Quad(Dot(px, py, x1, y1, x2, y2), Len2(x1, y1, x2, y2), s)
  {
    var vx, vy := (x2 - x1) as real, (y2 - y1) as real;
    var wx, wy := (px - x1) as real, (py - y1) as real;
    assert px as real - (x1 as real + s * vx) == wx - s * vx;
    assert py as real - (y1 as real + s * vy) == wy - s * vy;
    SqDiff(wx, vx, s);
    SqDiff(wy, vy, s);
    assert Quad(vx * wx + vy * wy, Sq(vx) + Sq(vy), s)
      == -2.0 * s * (vx * wx) + s * s * Sq(vx) + (-2.0 * s * (vy * wy) + s * s * Sq(vy));
  }

  /** Between integer points the squared length is 0 or at least 1, so the
      1e-6 cut-off only catches a segment of length zero. */
  lemma SmallSquareSum(a: int, b: int)
    requires Sq(a as real) + Sq(b as real) < 0.000001
    ensures a == 0 && b == 0
  {
    assert (a as real) * (a as real) == (a * a) as real;
    assert (b as real) * (b as real) == (b * b) as real;
  }


  /** f(s) = -2 s c1 + s^2 c2 is smallest at s = 0 on [0, 1] when c1 < 0. */
  lemma MinimumAtStart(c1: real, c2: real, s: real)
    requires c2 > 0.0 && c1 < 0.0 && 0.0 <= s <= 1.0
    ensures 0.0 <= -2.0 * s * c1 + s * s * c2
  {
    NonNegProduct(c2, s);
    NonNegProduct(s, c2 * s - 2.0 * c1);
  }

  /** f is smallest at s = 1 on [0, 1] when c1 > c2. */
  lemma MinimumAtEnd(c1: real, c2: real, s: real)
    requires c2 > 0.0 && c1 > c2 && 0.0 <= s <= 1.0
    ensures -2.0 * c1 + c2 <= -2.0 * s * c1 + s * s * c2
  {
    NonNegProduct(c2, 1.0 - s);
    NonNegProduct(1.0 - s, 2.0 * c1 - c2 * (s + 1.0));
    assert (-2.0 * s * c1 + s * s * c2) - (-2.0 * c1 + c2) == (1.0 - s) * (2.0 * c1 - c2 * (s + 1.0));
  }

  /** f is smallest at its vertex t = c1 / c2. */
  lemma MinimumAtVertex(c1: real, c2: real, s: real, t: real)
    requires c2 > 0.0 && c1 == t * c2
    ensures -2.0 * t * c1 + t * t * c2 <= -2.0 * s * c1 + s * s * c2
  {
    NonNegProduct(c2, (s - t) * (s - t));
    assert (-2.0 * s * c1 + s * s * c2) - (-2.0 * t * c1 + t * t * c2) == c2 * ((s - t) * (s - t));
  }

  /** For f(s) = -2 s c1 + s^2 c2 with c2 >= 0, the clamped projection t
      is a minimum of f over [0, 1]. */
  lemma ClampedMinimum(c1: real, c2: real, s: real, t: real)
    requires c2 >= 0.0 && (c2 < 0.000001 ==> c1 == 0.0 && c2 == 0.0) && 0.0 <= s <= 1.0
    requires t == Clamp(if c2 < 0.000001 then 0.0 else c1 / c2)
    ensures Quad(c1, c2, t) <= Quad(c1, c2, s)
  {
    if c2 >= 0.000001 {
      var q := c1 / c2;
      assert c1 == q * c2;
      if q < 0.0 {
        NonNegProduct(-q, c2);
        MinimumAtStart(c1, c2, s);
      } else if q > 1.0 {
        NonNegProduct(q - 1.0, c2);
        MinimumAtEnd(c1, c2, s);
      } else {
        MinimumAtVertex(c1, c2, s, t);
      }
    }
  }

  /** distPointToSegment is the distance from P to the nearest point of the
      segment: no point of AB is closer than the one it measures. */
  lemma SegmentDist2IsMinimum(px: int, py: int, x1: int, y1: int, x2: int, y2: int, s: real)
    requires 0.0 <= s <= 1.0
    ensures SegmentDist2(px, py, x1, y1, x2, y2) <= Dist2At(px, py, x1, y1, x2, y2, s)
  {
    var t := ClosestParam(px, py, x1, y1, x2, y2);
    var c1, c2 := Dot(px, py, x1, y1, x2, y2), Len2(x1, y1, x2, y2);
    if c2 < 0.000001 {
      SmallSquareSum(x2 - x1, y2 - y1);
    }
    ClampedMinimum(c1, c2, s, t);
    Dist2Poly(px, py, x1, y1, x2, y2, s);
    Dist2Poly(px, py, x1, y1, x2, y2, t);
  }

  // ---------------------------------------------------------------------
  // Arcs

  /** Every arc's target and every row's own index name a node. */
  predicate Indexed(nodes: seq<Node>, adj: seq<seq<Arc>>) {
    |adj| <= |nodes| && TargetsBelow(adj, |nodes|)
  }

  /** The default threshold of findEdgeNear (main.cpp:306). */
  const THRESHOLD := 8.0

  /** Arc k of row u is picked by the first pass of findEdgeNear
      (main.cpp:307-317): not a self-loop, seen from its lower end in an
      undirected graph, and its segment within THRESHOLD of the point. */
  predicate StraightHit(nodes: seq<Node>, adj: seq<seq<Arc>>, directed: bool, mx: int, my: int, u: int, k: int)
    requires Indexed(nodes, adj) && 0 <= u < |adj| && 0 <= k < |adj[u]|
  {
    var v := adj[u][k].to;
    && u != v
    && (directed || v >= u)
    && SegmentDist2(mx, my, nodes[u].x, nodes[u].y, nodes[v].x, nodes[v].y) <= THRESHOLD * THRESHOLD
  }

  /** Arc k of row u is picked by the second pass of findEdgeNear
      (main.cpp:319-327): a self-loop whose circle, centred half a radius
      above the top of the node, holds the point. */
  predicate LoopHit(nodes: seq<Node>, adj: seq<seq<Arc>>, mx: int, my: int, u: int, k: int)
    requires Indexed(nodes, adj) && 0 <= u < |adj| && 0 <= k < |adj[u]|
  {
    var cx, cy := nodes[u].x, nodes[u].y - NODE_RADIUS - NODE_RADIUS / 2;
    var r := NODE_RADIUS / 2 + 8;
    && adj[u][k].to == u
    && (mx - cx) * (mx - cx) + (my - cy) * (my - cy) <= r * r
  }

  predicate Hit(nodes: seq<Node>, adj: seq<seq<Arc>>, directed: bool, mx: int, my: int, loops: bool, u: int, k: int)
    requires Indexed(nodes, adj) && 0 <= u < |adj| && 0 <= k < |adj[u]|
  {
    if loops then LoopHit(nodes, adj, mx, my, u, k) else StraightHit(nodes, adj, directed, mx, my, u, k)
  }

  /** Position (a, b) comes at or after (u, k) in row-major order. */
  predicate AtOrAfter(a: int, b: int, u: int, k: int) {
    a > u || (a == u && b >= k)
  }

  /** (u, k) names an arc of adj. */
  predicate IsArc(adj: seq<seq<Arc>>, u: int, k: int) {
    0 <= u < |adj| && 0 <= k < |adj[u]|
  }

  /** The first hit of one pass at or after position (u, k), scanning rows in
      order and each row from its first arc, or (-1, -1). */
  function ScanFrom(nodes: seq<Node>, adj: seq<seq<Arc>>, directed: bool, mx: int, my: int, loops: bool,
                    u: nat, k: nat): (r: (int, int))
    requires Indexed(nodes, adj) && u <= |adj| && (u < |adj| ==> k <= |adj[u]|)
    ensures r == (-1, -1) || (IsArc(adj, r.0, r.1) && AtOrAfter(r.0, r.1, u, k))
    decreases |adj| - u, if u < |adj| then |adj[u]| - k else 0
  {
    if u == |adj| then (-1, -1)
    else if k == |adj[u]| then ScanFrom(nodes, adj, directed, mx, my, loops, u + 1, 0)
    else if Hit(nodes, adj, directed, mx, my, loops, u, k) then (u, k)
    else ScanFrom(nodes, adj, directed, mx, my, loops, u, k + 1)
  }

  /** The scan finds a hit exactly when there is one at or after (u, k), and
      then the first one in row-major order. */
  lemma {:induction false} ScanFromFirst(nodes: seq<Node>, adj: seq<seq<Arc>>, directed: bool, mx: int, my: int,
                                         loops: bool, u: nat, k: nat)
    requires Indexed(nodes, adj) && u <= |adj| && (u < |adj| ==> k <= |adj[u]|)
    ensures var r := ScanFrom(nodes, adj, directed, mx, my, loops, u, k);
      && (r != (-1, -1) ==> Hit(nodes, adj, directed, mx, my, loops, r.0, r.1))
      && (r != (-1, -1) ==> forall a, b ::
            IsArc(adj, a, b) && AtOrAfter(a, b, u, k) && !AtOrAfter(a, b, r.0, r.1)
            ==> !Hit(nodes, adj, directed, mx, my, loops, a, b))
      && (r == (-1, -1) <==> forall a, b ::
            IsArc(adj, a, b) && AtOrAfter(a, b, u, k)
            ==> !Hit(nodes, adj, directed, mx, my, loops, a, b))
    decreases |adj| - u, if u < |adj| then |adj[u]| - k else 0
  {
    if u == |adj| {
    } else if k == |adj[u]| {
      ScanFromFirst(nodes, adj, directed, mx, my, loops, u + 1, 0);
    } else if !Hit(nodes, adj, directed, mx, my, loops, u, k) {
      ScanFromFirst(nodes, adj, directed, mx, my, loops, u, k + 1);
    }
  }

  /** findEdgeNear (main.cpp:306-329): the first arc of the straight pass,
      else the first self-loop of the second pass, else (-1, -1). */
  function EdgeNear(nodes: seq<Node>, adj: seq<seq<Arc>>, directed: bool, mx: int, my: int): (r: (int, int))
    requires Indexed(nodes, adj)
    ensures r == (-1, -1) || IsArc(adj, r.0, r.1)
    ensures r == (-1, -1) <==> forall a, b :: IsArc(adj, a, b) ==>
      !StraightHit(nodes, adj, directed, mx, my, a, b) && !LoopHit(nodes, adj, mx, my, a, b)
    ensures r != (-1, -1) && adj[r.0][r.1].to != r.0 ==>
      && StraightHit(nodes, adj, directed, mx, my, r.0, r.1)
      && (forall a, b :: IsArc(adj, a, b) && !AtOrAfter(a, b, r.0, r.1) ==> !StraightHit(nodes, adj, directed, mx, my, a, b))
    ensures r != (-1, -1) && adj[r.0][r.1].to == r.0 ==>
      && LoopHit(nodes, adj, mx, my, r.0, r.1)
      && (forall a, b :: IsArc(adj, a, b) ==> !StraightHit(nodes, adj, directed, mx, my, a, b))
      && (forall a, b :: IsArc(adj, a, b) && !AtOrAfter(a, b, r.0, r.1) ==> !LoopHit(nodes, adj, mx, my, a, b))
  {
    ScanFromFirst(nodes, adj, directed, mx, my, false, 0, 0);
    ScanFromFirst(nodes, adj, directed, mx, my, true, 0, 0);
    var first := ScanFrom(nodes, adj, directed, mx, my, false, 0, 0);
    if first != (-1, -1) then first else ScanFrom(nodes, adj, directed, mx, my, true, 0, 0)
  }

  /** The two loop nests of findEdgeNear (main.cpp:306-329). */
  method FindEdgeNear(nodes: seq<Node>, adj: seq<seq<Arc>>, directed: bool, mx: int, my: int)
    returns (eu: int, ek: int)
    requires Indexed(nodes, adj)
    ensures (eu, ek) == EdgeNear(nodes, adj, directed, mx, my)
  {
    var u := 0;
    while u < |adj|
      invariant 0 <= u <= |adj|
      invariant ScanFrom(nodes, adj, directed, mx, my, false, u, 0) == ScanFrom(nodes, adj, directed, mx, my, false, 0, 0)
    {
      var k := 0;
      while k < |adj[u]|
        invariant 0 <= k <= |adj[u]|
        invariant ScanFrom(nodes, adj, directed, mx, my, false, u, k) == ScanFrom(nodes, adj, directed, mx, my, false, 0, 0)
      {
        var v := adj[u][k].to;
        if u != v && (directed || v >= u) {
          var d := SegmentDist2(mx, my, nodes[u].x, nodes[u].y, nodes[v].x, nodes[v].y);
          if d <= THRESHOLD * THRESHOLD {
            return u, k;
          }
        }
        k := k + 1;
      }
      u := u + 1;
    }
    u := 0;
    while u < |adj|
      invariant 0 <= u <= |adj|
      invariant ScanFrom(nodes, adj, directed, mx, my, true, u, 0) == EdgeNear(nodes, adj, directed, mx, my)
    {
      var k := 0;
      while k < |adj[u]|
        invariant 0 <= k <= |adj[u]|
        invariant ScanFrom(nodes, adj, directed, mx, my, true, u, k) == EdgeNear(nodes, adj, directed, mx, my)
      {
        if adj[u][k].to == u {
          var cx := nodes[u].x;
          var cy := nodes[u].y - NODE_RADIUS - NODE_RADIUS / 2;
          var dx, dy := mx - cx, my - cy;
          if dx * dx + dy * dy <= (NODE_RADIUS / 2 + 8) * (NODE_RADIUS / 2 + 8) {
            return u, k;
          }
        }
        k := k + 1;
      }
      u := u + 1;
    }
    return -1, -1;
  }
}
