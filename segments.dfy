/**
 * `generateSegments`: every flight edge becomes a chain of `total` control
 * points between its two airports, for edge bundling. The pre-existing
 * nodes are pinned in place, the control points and the links between
 * consecutive chain nodes are appended to the bundle, and each chain is
 * recorded as one path.
 */
module Segments {
  import opened Wrappers
  import opened Seqs
  import opened Records

  /** One segment `{source, target}` of a chain. */
  datatype Link = Link(source: Node, target: Node)

  /** `{nodes, links, paths}`: all nodes, all segments, and one node path per flight. */
  datatype Bundle = Bundle(nodes: seq<Node>, links: seq<Link>, paths: seq<seq<Node>>)

  /** The segments joining consecutive nodes of a path. */
  function LinksAlong(p: seq<Node>): (r: seq<Link>)
    ensures |r| == if p == [] then 0 else |p| - 1
    ensures forall j :: 0 <= j < |r| ==> r[j] == Link(p[j], p[j + 1])
    decreases |p|
  {
    if |p| < 2 then [] else [Link(p[0], p[1])] + LinksAlong(p[1..])
  }

  /** Consecutive segments of a chain meet: each one starts where the previous one ends. */
  lemma ChainIsConnected(p: seq<Node>)
    ensures forall j :: 0 <= j < |LinksAlong(p)| - 1 ==> LinksAlong(p)[j].target == LinksAlong(p)[j + 1].source
  {
  }

  /** The nodes of a path strictly between its two ends. */
  function Interior(p: seq<Node>): seq<Node>
  {
    if |p| < 2 then [] else p[1..|p| - 1]
  }

  /** The segments of every path, path after path. */
  function LinksOfPaths(ps: seq<seq<Node>>): seq<Link>
    decreases |ps|
  {
    if ps == [] then [] else LinksOfPaths(ps[..|ps| - 1]) + LinksAlong(ps[|ps| - 1])
  }

  /** The control points of every path, path after path. */
  function InnerNodes(ps: seq<seq<Node>>): seq<Node>
    decreases |ps|
  {
    if ps == [] then [] else InnerNodes(ps[..|ps| - 1]) + Interior(ps[|ps| - 1])
  }

  /** d3's linear scale from domain [0, steps] onto [a, b], at `j`. */
  function Lerp(a: real, b: real, j: nat, steps: nat): real
    requires steps > 0
  {
    var t := (j as real) / (steps as real);
    a * (1.0 - t) + b * t
  }

  /** The scale maps the domain's ends onto the range's ends. */
  lemma LerpEnds(a: real, b: real, steps: nat)
    requires steps > 0
    ensures Lerp(a, b, 0, steps) == a && Lerp(a, b, steps, steps) == b
  {
  }

  /** A new, unpinned control point at step `j` of `steps` on the straight line `from`-`to`. */
  ghost predicate IsControlPoint(n: Node, from: Node, to: Node, j: nat, steps: nat)
    requires steps > 0
    reads n, from, to
  {
    && n.airport == None && n.fx == None && n.fy == None
    && n.x == Lerp(from.x, to.x, j, steps)
    && n.y == Lerp(from.y, to.y, j, steps)
  }

  lemma {:induction false} LinksAlongSnoc(p: seq<Node>, t: Node)
    requires p != []
    ensures LinksAlong(p + [t]) == LinksAlong(p) + [Link(p[|p| - 1], t)]
    decreases |p|
  {
    if |p| >= 2 {
      assert (p + [t])[1..] == p[1..] + [t];
      LinksAlongSnoc(p[1..], t);
    }
  }

  /** Appending a path appends its segments and its control points. */
  lemma AppendPath(ps: seq<seq<Node>>, p: seq<Node>)
    ensures LinksOfPaths(ps + [p]) == LinksOfPaths(ps) + LinksAlong(p)
    ensures InnerNodes(ps + [p]) == InnerNodes(ps) + Interior(p)
  {
    assert (ps + [p])[..|ps|] == ps;
  }

  /**
   * Paths of `total + 2` nodes give `total + 1` segments and `total`
   * control points each.
   */
  lemma {:induction false} SegmentCounts(ps: seq<seq<Node>>, totals: seq<nat>)
    requires |ps| == |totals|
    requires forall i :: 0 <= i < |ps| ==> |ps[i]| == totals[i] + 2
    ensures |LinksOfPaths(ps)| == Sum(totals) + |totals|
    ensures |InnerNodes(ps)| == Sum(totals)
    decreases |ps|
  {
    if ps != [] {
      var n := |ps| - 1;
      SegmentCounts(ps[..n], totals[..n]);
    }
  }

  /** Every segment joins two consecutive nodes of one path, never two non-adjacent ones. */
  lemma {:induction false} LinksAreAdjacent(ps: seq<seq<Node>>, k: nat)
    requires k < |LinksOfPaths(ps)|
    ensures exists i, j :: 0 <= i < |ps| && 0 <= j < |ps[i]| - 1 && LinksOfPaths(ps)[k] == Link(ps[i][j], ps[i][j + 1])
    decreases |ps|
  {
    var n := |ps| - 1;
    var front := LinksOfPaths(ps[..n]);
    if k < |front| {
      LinksAreAdjacent(ps[..n], k);
      var i, j :| 0 <= i < n && 0 <= j < |ps[..n][i]| - 1 && front[k] == Link(ps[..n][i][j], ps[..n][i][j + 1]);
      assert ps[..n][i] == ps[i];
    } else {
      var j := k - |front|;
      assert LinksOfPaths(ps)[k] == LinksAlong(ps[n])[j] == Link(ps[n][j], ps[n][j + 1]);
    }
  }

  /** `path` runs from `d.source` to `d.target` through `total` control points spaced evenly between them. */
  ghost predicate ChainOf(path: seq<Node>, d: Flight, total: nat)
    requires d.source != null && d.target != null
    reads d, d.source, d.target, path
  {
    && |path| == total + 2 && path[0] == d.source && path[total + 1] == d.target
    && forall j :: 1 <= j <= total ==> IsControlPoint(path[j], d.source, d.target, j, total + 1)
  }

  /**
   * One iteration of `links.forEach`: the chain `d.source`, `total`
   * control points, `d.target`, appended to the bundle.
   */
  method SegmentLink(bundle: Bundle, d: Flight, total: nat) returns (next: Bundle, local: seq<Node>)
    requires total >= 1 && d.source != null && d.target != null
    ensures next == Bundle(bundle.nodes + Interior(local), bundle.links + LinksAlong(local), bundle.paths + [local])
    ensures ChainOf(local, d, total)
    ensures forall n :: n in Interior(local) ==> fresh(n)
    ensures NoRepeats(Interior(local))
    ensures forall n :: n in Interior(local) ==> n !in bundle.nodes
  {
    var source: Node := d.source;
    var target: Node? := null;
    local := [source];
    next := bundle;
    ghost var inner: seq<Node> := [];
    for j := 1 to total + 1
      invariant |inner| == j - 1 && local == [d.source] + inner
      invariant source == local[j - 1] && (j > 1 ==> target == source)
      invariant next == Bundle(bundle.nodes + inner, bundle.links + LinksAlong(local), bundle.paths)
      invariant forall n :: n in inner ==> fresh(n)
      invariant NoRepeats(inner) && forall n :: n in inner ==> n !in bundle.nodes
      invariant forall k :: 1 <= k < j ==> IsControlPoint(local[k], d.source, d.target, k, total + 1)
    {
      var t := new Node.Control(Lerp(d.source.x, d.target.x, j, total + 1), Lerp(d.source.y, d.target.y, j, total + 1));
      assert t !in inner && t !in bundle.nodes;
      LinksAlongSnoc(local, t);
      AppendAssoc(bundle.nodes, inner, [t]);
      AppendAssoc(bundle.links, LinksAlong(local), [Link(source, t)]);
      AppendAssoc([d.source], inner, [t]);
      NoRepeatsAppend(inner, [t]);
      next := next.(nodes := next.nodes + [t], links := next.links + [Link(source, t)]);
      local := local + [t];
      inner := inner + [t];
      target, source := t, t;
    }
    LinksAlongSnoc(local, d.target);
    AppendAssoc(bundle.links, LinksAlong(local), [Link(target, d.target)]);
    local := local + [d.target];
    assert Interior(local) == inner;
    next := next.(links := next.links + [Link(target, d.target)], paths := next.paths + [local]);
  }

  /** `nodes.map(d => { d.fx = d.x; d.fy = d.y; return d; })`: pin every node where it stands. */
  method Pin(nodes: seq<Node>)
    modifies set n | n in nodes
    ensures forall n :: n in nodes ==> n.x == old(n.x) && n.y == old(n.y) && n.fx == Some(n.x) && n.fy == Some(n.y)
  {
    for i := 0 to |nodes|
      invariant forall k :: 0 <= k < i ==> nodes[k].fx == Some(nodes[k].x) && nodes[k].fy == Some(nodes[k].y)
      invariant forall n :: n in nodes ==> n.x == old(n.x) && n.y == old(n.y)
    {
      nodes[i].fx := Some(nodes[i].x);
      nodes[i].fy := Some(nodes[i].y);
    }
  }

  /** The bundle's nodes are `nodes` then the control points of its paths, and its links are the paths' segments. */
  ghost predicate Consistent(b: Bundle, nodes: seq<Node>)
  {
    b.nodes == nodes + InnerNodes(b.paths) && b.links == LinksOfPaths(b.paths)
  }

  lemma ConsistentAppend(b: Bundle, nodes: seq<Node>, local: seq<Node>)
    requires Consistent(b, nodes)
    ensures Consistent(Bundle(b.nodes + Interior(local), b.links + LinksAlong(local), b.paths + [local]), nodes)
  {
    AppendPath(b.paths, local);
    AppendAssoc(nodes, InnerNodes(b.paths), Interior(local));
  }

  /** The body of the `links.forEach` loop for `links[i]`. */
  method ExtendBundle(bundle: Bundle, nodes: seq<Node>, links: seq<Flight>, totals: seq<nat>, i: nat) returns (next: Bundle, local: seq<Node>)
    requires i < |links| == |totals| && |bundle.paths| == i
    requires forall k :: 0 <= k < |links| ==> totals[k] >= 1 && links[k].source != null && links[k].target != null
    requires Consistent(bundle, nodes)
    requires forall k :: 0 <= k < i ==> ChainOf(bundle.paths[k], links[k], totals[k])
    ensures Consistent(next, nodes)
    ensures next.paths == bundle.paths + [local]
    ensures forall k :: 0 <= k <= i ==> ChainOf(next.paths[k], links[k], totals[k])
    ensures forall n :: n in Interior(local) ==> fresh(n)
    ensures NoRepeats(Interior(local))
    ensures forall n :: n in Interior(local) ==> n !in InnerNodes(bundle.paths)
  {
    next, local := SegmentLink(bundle, links[i], totals[i]);
    assert forall n :: n in InnerNodes(bundle.paths) ==> n in bundle.nodes;
    ConsistentAppend(bundle, nodes, local);
    forall k | 0 <= k < i
      ensures ChainOf(next.paths[k], links[k], totals[k])
    {
      assert old(ChainOf(bundle.paths[k], links[k], totals[k]));
      assert next.paths[k] == bundle.paths[k];
    }
  }

  /** The `links.forEach` loop, starting from the bundle holding the pinned nodes. */
  method Subdivide(nodes: seq<Node>, links: seq<Flight>, totals: seq<nat>) returns (bundle: Bundle)
    requires |totals| == |links|
    requires forall i :: 0 <= i < |links| ==> totals[i] >= 1 && links[i].source != null && links[i].target != null
    ensures bundle.nodes == nodes + InnerNodes(bundle.paths)
    ensures bundle.links == LinksOfPaths(bundle.paths)
    ensures |bundle.paths| == |links|
    ensures forall k :: 0 <= k < |links| ==> ChainOf(bundle.paths[k], links[k], totals[k])
    ensures forall n :: n in InnerNodes(bundle.paths) ==> fresh(n)
    ensures NoRepeats(InnerNodes(bundle.paths))
  {
    bundle := Bundle(nodes, [], []);
    for i := 0 to |links|
      invariant Consistent(bundle, nodes)
      invariant |bundle.paths| == i
      invariant forall k :: 0 <= k < i ==> ChainOf(bundle.paths[k], links[k], totals[k])
      invariant forall n :: n in InnerNodes(bundle.paths) ==> fresh(n)
      invariant NoRepeats(InnerNodes(bundle.paths))
    {
      ghost var before := bundle;
      var local;
      bundle, local := ExtendBundle(bundle, nodes, links, totals, i);
      AppendPath(before.paths, local);
      NoRepeatsAppend(InnerNodes(before.paths), Interior(local));
    }
  }

  /**
   * `generateSegments(nodes, links)`, with `totals[i]` the inner node count
   * of `links[i]`. Every pre-existing node is pinned where it stands and
   * keeps its place at the front of `bundle.nodes`; the control points
   * follow in link order; the links are exactly the segments of the paths;
   * path `i` runs from `links[i].source` to `links[i].target`.
   */
  method GenerateSegments(nodes: seq<Node>, links: seq<Flight>, totals: seq<nat>) returns (bundle: Bundle)
    requires |totals| == |links|
    requires forall i :: 0 <= i < |links| ==> totals[i] >= 1 && links[i].source != null && links[i].target != null
    modifies set n | n in nodes
    ensures forall n :: n in nodes ==> n.x == old(n.x) && n.y == old(n.y) && n.fx == Some(n.x) && n.fy == Some(n.y)
    ensures bundle.nodes == nodes + InnerNodes(bundle.paths)
    ensures bundle.links == LinksOfPaths(bundle.paths)
    ensures |bundle.paths| == |links|
    ensures forall k :: 0 <= k < |links| ==> ChainOf(bundle.paths[k], links[k], totals[k])
    ensures forall n :: n in InnerNodes(bundle.paths) ==> fresh(n)
    ensures NoRepeats(InnerNodes(bundle.paths))
    ensures |bundle.nodes| == |nodes| + Sum(totals)
    ensures |bundle.links| == Sum(totals) + |links|
  {
    Pin(nodes);
    bundle := Subdivide(nodes, links, totals);
    SegmentCounts(bundle.paths, totals);
  }
}
