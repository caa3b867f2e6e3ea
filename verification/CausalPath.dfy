/**
 The shortest explanation between two nodes: a bounded breadth-first search over the
 current edges, in either direction, that keeps the path to each queued node.
 */
module CausalPath {
  import opened Traversal

  datatype Step = Step(from: string, to: string, kind: EdgeKind, outward: bool)

  datatype Answer = BadDepth | NoPath | Path(steps: seq<Step>)

  /** A step along some edge, with or against its direction. */
  ghost predicate IsStep(edges: seq<Edge>, s: Step) {
    exists e :: e in edges && e.kind == s.kind
      && if s.outward then e.src == s.from && e.dst == s.to else e.dst == s.from && e.src == s.to
  }

  /** Steps that lead from `src` to `dst`. */
  ghost predicate IsPath(edges: seq<Edge>, src: string, p: seq<Step>, dst: string) {
    if p == [] then src == dst
    else
      var last := p[|p| - 1];
      last.to == dst && IsStep(edges, last) && IsPath(edges, src, p[..|p| - 1], last.from)
  }

  datatype Entry = Entry(node: string, path: seq<Step>)

  /** The edges that leave a node, then those that enter it. */
  function Touching(edges: seq<Edge>, n: string): (r: seq<Edge>)
    ensures forall e :: e in r <==> e in edges && (e.src == n || e.dst == n)
  {
    Selected(edges, n, true) + Selected(edges, n, false)
  }

  function Selected(edges: seq<Edge>, n: string, leaving: bool): (r: seq<Edge>)
    ensures forall e :: e in r <==> e in edges && (if leaving then e.src else e.dst) == n
  {
    if edges == [] then []
    else
      var rest := Selected(edges[1..], n, leaving);
      if (if leaving then edges[0].src else edges[0].dst) == n then [edges[0]] + rest else rest
  }

  function Across(e: Edge, n: string): Step {
    if e.src == n then Step(n, e.dst, e.kind, true) else Step(n, e.src, e.kind, false)
  }

  // ------------------------------------------------------------ what is known

  /** Every neighbour has been seen, one step further at most. */
  ghost predicate Settled(edges: seq<Edge>, dist: map<string, nat>, n: string) {
    n in dist && forall s :: IsStep(edges, s) && s.from == n ==> s.to in dist && dist[s.to] <= dist[n] + 1
  }

  ghost predicate Queued(frontier: seq<Entry>, n: string) {
    exists i :: 0 <= i < |frontier| && frontier[i].node == n
  }

  /** Queue entries carry real paths, and come in order of their lengths. */
  ghost predicate QueueOk(edges: seq<Edge>, src: string, dist: map<string, nat>, frontier: seq<Entry>) {
    && (forall i :: 0 <= i < |frontier| ==>
          var f := frontier[i];
          f.node in dist && dist[f.node] == |f.path| && IsPath(edges, src, f.path, f.node))
    && (forall i, j :: 0 <= i < j < |frontier| ==> |frontier[i].path| <= |frontier[j].path| <= |frontier[i].path| + 1)
  }

  /** A seen node is settled, at the depth bound, in the queue, or being expanded. */
  ghost predicate Accounted(
      edges: seq<Edge>, dist: map<string, nat>, maxDepth: int, frontier: seq<Entry>, busy: set<string>)
  {
    forall n :: n in dist ==> Settled(edges, dist, n) || dist[n] >= maxDepth || Queued(frontier, n) || n in busy
  }

  /** If all nodes seen within `layer` steps are settled, every path of at most `layer`
      steps ends in a seen node, seen no further than the path is long. */
  lemma {:induction false} PathsSeen(
      edges: seq<Edge>, src: string, dist: map<string, nat>, layer: int, p: seq<Step>, n: string)
    requires src in dist && dist[src] == 0
    requires forall m :: m in dist && dist[m] < layer ==> Settled(edges, dist, m)
    requires IsPath(edges, src, p, n) && |p| <= layer
    ensures n in dist && dist[n] <= |p|
  {
    if p == [] {
    } else {
      var last := p[|p| - 1];
      PathsSeen(edges, src, dist, layer, p[..|p| - 1], last.from);
      assert Settled(edges, dist, last.from);
    }
  }

  /** A path of at most `layer` steps to a node not yet seen does not exist. */
  lemma UnseenIsFar(edges: seq<Edge>, src: string, dist: map<string, nat>, layer: int, dst: string)
    requires src in dist && dist[src] == 0 && dst !in dist
    requires forall m :: m in dist && dist[m] < layer ==> Settled(edges, dist, m)
    ensures forall p :: IsPath(edges, src, p, dst) ==> |p| > layer
  {
    forall p | IsPath(edges, src, p, dst)
      ensures |p| > layer
    {
      if |p| <= layer {
        PathsSeen(edges, src, dist, layer, p, dst);
      }
    }
  }

  lemma PathExtends(edges: seq<Edge>, src: string, p: seq<Step>, n: string, e: Edge)
    requires IsPath(edges, src, p, n) && e in edges && (e.src == n || e.dst == n)
    ensures IsStep(edges, Across(e, n)) && IsPath(edges, src, p + [Across(e, n)], Across(e, n).to)
  {
    assert (p + [Across(e, n)])[..|p|] == p;
  }

  /** Seeing one more neighbour. */
  lemma Discovered(
      edges: seq<Edge>, src: string, dist: map<string, nat>, maxDepth: int, frontier: seq<Entry>, cur: Entry, e: Edge)
    requires QueueOk(edges, src, dist, frontier) && Accounted(edges, dist, maxDepth, frontier, {cur.node})
    requires cur.node in dist && dist[cur.node] == |cur.path| && IsPath(edges, src, cur.path, cur.node)
    requires forall i :: 0 <= i < |frontier| ==> |cur.path| <= |frontier[i].path| <= |cur.path| + 1
    requires e in edges && (e.src == cur.node || e.dst == cur.node) && Across(e, cur.node).to !in dist
    ensures var s := Across(e, cur.node);
      var more, queue := dist[s.to := |cur.path| + 1], frontier + [Entry(s.to, cur.path + [s])];
      && QueueOk(edges, src, more, queue) && Accounted(edges, more, maxDepth, queue, {cur.node})
      && forall i :: 0 <= i < |queue| ==> |cur.path| <= |queue[i].path| <= |cur.path| + 1
  {
    var s := Across(e, cur.node);
    var more, queue := dist[s.to := |cur.path| + 1], frontier + [Entry(s.to, cur.path + [s])];
    PathExtends(edges, src, cur.path, cur.node, e);
    assert forall i :: 0 <= i < |frontier| ==> queue[i] == frontier[i];
    assert queue[|frontier|].node == s.to;
    forall n | n in more
      ensures Settled(edges, more, n) || more[n] >= maxDepth || Queued(queue, n) || n in {cur.node}
    {
      if n != s.to {
        if Settled(edges, dist, n) {
          assert Settled(edges, more, n);
        } else if Queued(frontier, n) {
          var i :| 0 <= i < |frontier| && frontier[i].node == n;
          assert queue[i].node == n;
        }
      }
    }
  }

  /** The neighbours across the first `k` edges have been seen. */
  ghost predicate Looked(dist: map<string, nat>, n: string, es: seq<Edge>, k: nat)
    requires k <= |es| && n in dist
  {
    forall i {:trigger es[i]} :: 0 <= i < k ==> Across(es[i], n).to in dist && dist[Across(es[i], n).to] <= dist[n] + 1
  }

  ghost predicate Shortest(edges: seq<Edge>, src: string, dst: string, p: seq<Step>) {
    IsPath(edges, src, p, dst) && forall q :: IsPath(edges, src, q, dst) ==> |p| <= |q|
  }

  ghost predicate OutOfReach(edges: seq<Edge>, src: string, dst: string, maxDepth: int) {
    forall p :: IsPath(edges, src, p, dst) ==> |p| > maxDepth
  }

  /** Reaching the unseen target across an edge of the entry being expanded. */
  lemma Reached(
      edges: seq<Edge>, src: string, dst: string, dist: map<string, nat>, maxDepth: int, frontier: seq<Entry>,
      cur: Entry, e: Edge)
    requires src in dist && dist[src] == 0 && dst !in dist
    requires QueueOk(edges, src, dist, frontier) && Accounted(edges, dist, maxDepth, frontier, {cur.node})
    requires cur.node in dist && dist[cur.node] == |cur.path| < maxDepth && IsPath(edges, src, cur.path, cur.node)
    requires forall i :: 0 <= i < |frontier| ==> |cur.path| <= |frontier[i].path|
    requires e in edges && (e.src == cur.node || e.dst == cur.node) && Across(e, cur.node).to == dst
    ensures Shortest(edges, src, dst, cur.path + [Across(e, cur.node)])
    ensures !OutOfReach(edges, src, dst, maxDepth)
  {
    var p := cur.path + [Across(e, cur.node)];
    PathExtends(edges, src, cur.path, cur.node, e);
    UnseenIsFar(edges, src, dist, |cur.path|, dst);
    assert IsPath(edges, src, p, dst) && |p| <= maxDepth;
  }

  /** Seen nodes lie at most one step beyond the entry being expanded. */
  ghost predicate Near(dist: map<string, nat>, bound: nat) {
    forall n :: n in dist ==> dist[n] <= bound
  }

  lemma SmallerGap(universe: set<string>, before: set<string>, after: set<string>)
    requires before <= after <= universe
    ensures |universe - after| <= |universe - before|
    ensures before != after ==> |universe - after| < |universe - before|
  {
    SubsetSize(universe - after, universe - before);
    if before != after {
      var n :| n in after && n !in before;
      SubsetSize(universe - after, universe - before - {n});
    }
  }

  /** What holds between expansions. */
  ghost predicate Search(
      edges: seq<Edge>, src: string, dst: string, maxDepth: int, dist: map<string, nat>, frontier: seq<Entry>)
  {
    && src in dist && dist[src] == 0
    && (dst in dist ==> dst == src)
    && QueueOk(edges, src, dist, frontier)
    && Accounted(edges, dist, maxDepth, frontier, {})
    && (frontier != [] ==> Near(dist, |frontier[0].path| + 1))
  }

  /** What holds while an entry is expanded, after looking across `k` of its edges. */
  ghost predicate Expanding(
      edges: seq<Edge>, src: string, dst: string, maxDepth: int, dist: map<string, nat>, frontier: seq<Entry>,
      cur: Entry, k: nat)
  {
    && src in dist && dist[src] == 0
    && (dst in dist ==> dst == src)
    && cur.node in dist && dist[cur.node] == |cur.path| < maxDepth && IsPath(edges, src, cur.path, cur.node)
    && QueueOk(edges, src, dist, frontier)
    && Accounted(edges, dist, maxDepth, frontier, {cur.node})
    && (forall i :: 0 <= i < |frontier| ==> |cur.path| <= |frontier[i].path| <= |cur.path| + 1)
    && Near(dist, |cur.path| + 1)
    && k <= |Touching(edges, cur.node)| && Looked(dist, cur.node, Touching(edges, cur.node), k)
  }

  /** Looking across one more edge. */
  lemma Look(
      edges: seq<Edge>, src: string, dst: string, maxDepth: int, dist: map<string, nat>, frontier: seq<Entry>,
      cur: Entry, k: nat)
    requires Expanding(edges, src, dst, maxDepth, dist, frontier, cur, k) && k < |Touching(edges, cur.node)|
    ensures var s := Across(Touching(edges, cur.node)[k], cur.node);
      if s.to in dist then Expanding(edges, src, dst, maxDepth, dist, frontier, cur, k + 1)
      else if s.to == dst then Shortest(edges, src, dst, cur.path + [s]) && !OutOfReach(edges, src, dst, maxDepth)
      else
        Expanding(
          edges, src, dst, maxDepth, dist[s.to := |cur.path| + 1], frontier + [Entry(s.to, cur.path + [s])], cur, k + 1)
  {
    var es := Touching(edges, cur.node);
    var e := es[k];
    assert e in es;
    if Across(e, cur.node).to !in dist {
      if Across(e, cur.node).to == dst {
        Reached(edges, src, dst, dist, maxDepth, frontier, cur, e);
      } else {
        Discovered(edges, src, dist, maxDepth, frontier, cur, e);
      }
    }
  }

  /** Taking the first entry, to expand it or to drop it at the depth bound. */
  lemma Taken(edges: seq<Edge>, src: string, dst: string, maxDepth: int, dist: map<string, nat>, frontier: seq<Entry>)
    requires frontier != [] && Search(edges, src, dst, maxDepth, dist, frontier)
    ensures var cur := frontier[0];
      if |cur.path| < maxDepth then Expanding(edges, src, dst, maxDepth, dist, frontier[1..], cur, 0)
      else Search(edges, src, dst, maxDepth, dist, frontier[1..])
  {
  }

  lemma Expanded(
      edges: seq<Edge>, src: string, dst: string, maxDepth: int, dist: map<string, nat>, frontier: seq<Entry>,
      cur: Entry)
    requires Expanding(edges, src, dst, maxDepth, dist, frontier, cur, |Touching(edges, cur.node)|)
    ensures Search(edges, src, dst, maxDepth, dist, frontier)
  {
  }

  ghost function Endpoints(edges: seq<Edge>, src: string): set<string> {
    {src} + (set e | e in edges :: e.src) + (set e | e in edges :: e.dst)
  }

  /** Looks across every edge of an entry: either the target is across one of them, or
      all new neighbours are queued. */
  method Expand(
      edges: seq<Edge>, src: string, dst: string, ghost maxDepth: int, cur: Entry,
      known: set<string>, queue: seq<Entry>, ghost dist0: map<string, nat>)
    returns (found: bool, path: seq<Step>, seen: set<string>, frontier: seq<Entry>, ghost dist: map<string, nat>)
    requires Expanding(edges, src, dst, maxDepth, dist0, queue, cur, 0) && dist0.Keys == known <= Endpoints(edges, src)
    ensures found ==>
      && Shortest(edges, src, dst, path) && |path| <= maxDepth && !OutOfReach(edges, src, dst, maxDepth)
      && src != dst
    ensures !found ==> Search(edges, src, dst, maxDepth, dist, frontier)
    ensures !found ==>
      && dist.Keys == seen && known <= seen <= Endpoints(edges, src)
      && (seen == known ==> frontier == queue)
  {
    var es := Touching(edges, cur.node);
    seen, frontier, dist := known, queue, dist0;
    var i := 0;
    while i < |es|
      invariant i <= |es|
      invariant dist.Keys == seen && known <= seen <= Endpoints(edges, src)
      invariant seen == known ==> frontier == queue
      invariant Expanding(edges, src, dst, maxDepth, dist, frontier, cur, i)
    {
      Look(edges, src, dst, maxDepth, dist, frontier, cur, i);
      assert es[i] in es;
      var step := Across(es[i], cur.node);
      if step.to !in seen {
        if step.to == dst {
          return true, cur.path + [step], seen, frontier, dist;
        }
        seen := seen + {step.to};
        dist := dist[step.to := |cur.path| + 1];
        frontier := frontier + [Entry(step.to, cur.path + [step])];
      }
      i := i + 1;
    }
    Expanded(edges, src, dst, maxDepth, dist, frontier, cur);
    return false, [], seen, frontier, dist;
  }

  /** A shortest path within the bound, in either direction of causality; none from a
      node to itself. */
  method FindPath(edges: seq<Edge>, src: string, dst: string, maxDepth: int) returns (r: Answer)
    ensures r.BadDepth? <==> maxDepth < 0
    ensures r.Path? ==> src != dst && Shortest(edges, src, dst, r.steps) && |r.steps| <= maxDepth
    ensures r.NoPath? <==> maxDepth >= 0 && (src == dst || OutOfReach(edges, src, dst, maxDepth))
  {
    if maxDepth < 0 {
      return BadDepth;
    }
    var frontier := [Entry(src, [])];
    var seen := {src};
    ghost var dist: map<string, nat> := map[src := 0];
    assert frontier[0].node == src;
    while frontier != []
      invariant dist.Keys == seen <= Endpoints(edges, src)
      invariant Search(edges, src, dst, maxDepth, dist, frontier)
      decreases |Endpoints(edges, src) - seen|, |frontier|
    {
      var cur := frontier[0];
      Taken(edges, src, dst, maxDepth, dist, frontier);
      frontier := frontier[1..];
      if |cur.path| < maxDepth {
        ghost var before := seen;
        var found, path;
        found, path, seen, frontier, dist := Expand(edges, src, dst, maxDepth, cur, seen, frontier, dist);
        if found {
          return Path(path);
        }
        SmallerGap(Endpoints(edges, src), before, seen);
      }
    }
    if dst != src {
      UnseenIsFar(edges, src, dist, maxDepth, dst);
    }
    return NoPath;
  }
}
