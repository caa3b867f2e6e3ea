/**
 Which unresolved invalidations make a node unsafe to promote.

 The search walks from the candidate to its dependencies, under a depth bound and
 a node bound, and holds everything when either bound cuts it short.
 */
module BlockingClosure {
  import opened Traversal

  /** An open or pending invalidation, as far as this query reads it. */
  datatype Notice = Notice(id: string, target: string, affected: seq<string>, severity: string)

  predicate Touches(n: Notice, nodes: set<string>) {
    n.target in nodes || exists i :: 0 <= i < |n.affected| && n.affected[i] in nodes
  }

  /** A chain of dependency edges starting at the candidate. */
  datatype Chain = Here | Via(prefix: Chain, edge: Edge) {

    ghost function Length(): nat {
      if Here? then 0 else prefix.Length() + 1
    }

    ghost function End(node: string): string {
      if Here? then node else edge.dst
    }
  }

  ghost predicate IsChain(edges: seq<Edge>, node: string, c: Chain) {
    c.Via? ==>
      && IsChain(edges, node, c.prefix)
      && c.edge in edges
      && c.edge.kind in PROPAGATION_EDGES
      && c.edge.src == c.prefix.End(node)
  }

  /** `n` is a dependency of `node`, direct or transitive, through at most `bound` edges. */
  ghost predicate DependsWithin(edges: seq<Edge>, node: string, n: string, bound: int) {
    exists c :: IsChain(edges, node, c) && c.End(node) == n && c.Length() <= bound
  }

  ghost predicate Depends(edges: seq<Edge>, node: string, n: string) {
    exists c :: IsChain(edges, node, c) && c.End(node) == n
  }

  /** The candidate and everything it transitively depends on, without any bound. */
  ghost function Closure(edges: seq<Edge>, node: string): set<string> {
    {node} + set e | e in edges && Depends(edges, node, e.dst) :: e.dst
  }

  /** Both bounds leave the whole closure reachable. */
  ghost predicate Covered(edges: seq<Edge>, node: string, maxDepth: int, maxNodes: int) {
    && |Closure(edges, node)| <= maxNodes + 1
    && forall n :: n in Closure(edges, node) ==> DependsWithin(edges, node, n, maxDepth)
  }

  lemma ClosureComplete(edges: seq<Edge>, node: string, n: string)
    ensures n in Closure(edges, node) <==> Depends(edges, node, n)
  {
    if n == node {
      assert IsChain(edges, node, Here) && Here.End(node) == n;
    } else if Depends(edges, node, n) {
      var c :| IsChain(edges, node, c) && c.End(node) == n;
      assert c.edge in edges;
    }
  }

  /** Current propagation edges out of `node`, in stored order. */
  function OutEdges(edges: seq<Edge>, node: string): (r: seq<Edge>)
    ensures forall e :: e in r <==> e in edges && e.src == node && e.kind in PROPAGATION_EDGES
  {
    if edges == [] then []
    else
      var rest := OutEdges(edges[1..], node);
      if edges[0].src == node && edges[0].kind in PROPAGATION_EDGES then [edges[0]] + rest else rest
  }

  // ------------------------------------------------------ search invariants

  /** Every discovered node is a dependency at its recorded distance. */
  ghost predicate Discovered(edges: seq<Edge>, node: string, maxDepth: int, dist: map<string, nat>) {
    && node in dist
    && (forall n {:trigger dist[n]} :: n in dist ==> dist[n] <= maxDepth)
    && (forall n {:trigger DependsWithin(edges, node, n, dist[n])} :: n in dist ==>
      DependsWithin(edges, node, n, dist[n]))
  }

  /** All direct dependencies of `p` are discovered, at most one step further. */
  ghost predicate Closed(edges: seq<Edge>, dist: map<string, nat>, p: string)
    requires p in dist
  {
    forall e {:trigger e in edges} :: e in edges && e.src == p && e.kind in PROPAGATION_EDGES ==>
      e.dst in dist && dist[e.dst] <= dist[p] + 1
  }

  /** `ancestors` is exactly the set of discovered nodes. */
  ghost predicate Marked(ancestors: set<string>, dist: map<string, nat>) {
    forall n :: n in ancestors <==> n in dist
  }

  datatype Entry = Entry(node: string, depth: nat)

  ghost predicate Layered(layer: nat, k: nat, frontier: seq<Entry>, dist: map<string, nat>) {
    && k <= |frontier|
    && (forall i :: 0 <= i < |frontier| ==>
          && frontier[i].node in dist
          && dist[frontier[i].node] == frontier[i].depth
          && frontier[i].depth == if i < k then layer else layer + 1)
    && (forall n {:trigger dist[n]} :: n in dist ==> dist[n] <= layer + 1)
  }

  ghost predicate Expanded(edges: seq<Edge>, frontier: seq<Entry>, except: set<string>, dist: map<string, nat>) {
    forall p {:trigger Closed(edges, dist, p)} ::
      p in dist && p !in except ==> Entry(p, dist[p]) in frontier || Closed(edges, dist, p)
  }

  /** If all nodes closer than `layer` are closed, every chain of at most `layer`
      edges ends in a discovered node, recorded no further than the chain is long. */
  lemma {:induction false} ChainsCovered(edges: seq<Edge>, node: string, dist: map<string, nat>, layer: int, c: Chain)
    requires node in dist && dist[node] == 0
    requires forall p :: p in dist && dist[p] < layer ==> Closed(edges, dist, p)
    requires IsChain(edges, node, c) && c.Length() <= layer
    ensures c.End(node) in dist && dist[c.End(node)] <= c.Length()
  {
    if c.Via? {
      ChainsCovered(edges, node, dist, layer, c.prefix);
      assert Closed(edges, dist, c.prefix.End(node));
    }
  }

  /** An undiscovered dependency of a node at the depth bound is out of reach. */
  lemma TooDeep(
      edges: seq<Edge>, node: string, maxDepth: int, maxNodes: int, dist: map<string, nat>, frontier: seq<Entry>,
      cur: Entry, k: nat, e: Edge)
    requires Discovered(edges, node, maxDepth, dist) && dist[node] == 0
    requires Layered(cur.depth, k, frontier, dist) && Expanded(edges, frontier, {cur.node}, dist)
    requires cur.node in dist && dist[cur.node] == cur.depth >= maxDepth
    requires e in edges && e.src == cur.node && e.kind in PROPAGATION_EDGES && e.dst !in dist
    ensures !Covered(edges, node, maxDepth, maxNodes)
  {
    assert DependsWithin(edges, node, cur.node, dist[cur.node]);
    var c :| IsChain(edges, node, c) && c.End(node) == cur.node && c.Length() <= dist[cur.node];
    assert IsChain(edges, node, Via(c, e));
    assert e.dst in Closure(edges, node);
    if DependsWithin(edges, node, e.dst, maxDepth) {
      var d :| IsChain(edges, node, d) && d.End(node) == e.dst && d.Length() <= maxDepth;
      forall p | p in dist && dist[p] < maxDepth
        ensures Closed(edges, dist, p)
      {
        assert Entry(p, dist[p]) !in frontier;
      }
      ChainsCovered(edges, node, dist, maxDepth, d);
      assert false;
    }
  }

  /** A discovered set that exceeds the node bound, plus one more dependency. */
  lemma TooMany(edges: seq<Edge>, node: string, maxDepth: int, maxNodes: int, dist: map<string, nat>, e: Edge)
    requires Discovered(edges, node, maxDepth, dist)
    requires |dist.Keys| > maxNodes
    requires e in edges && e.src in dist && e.kind in PROPAGATION_EDGES && e.dst !in dist
    ensures !Covered(edges, node, maxDepth, maxNodes)
  {
    forall n | n in dist.Keys + {e.dst}
      ensures n in Closure(edges, node)
    {
      var m := if n == e.dst then e.src else n;
      assert DependsWithin(edges, node, m, dist[m]);
      var c :| IsChain(edges, node, c) && c.End(node) == m && c.Length() <= dist[m];
      if n == e.dst {
        assert IsChain(edges, node, Via(c, e)) && Via(c, e).End(node) == n;
      }
      ClosureComplete(edges, node, n);
    }
    SubsetSize(dist.Keys + {e.dst}, Closure(edges, node));
    assert |dist.Keys + {e.dst}| == |dist.Keys| + 1;
  }

  /** Meeting an undiscovered dependency at either bound: the search is incomplete. */
  lemma CutShort(
      edges: seq<Edge>, node: string, maxDepth: int, maxNodes: int, ancestors: set<string>, dist: map<string, nat>,
      frontier: seq<Entry>, cur: Entry, k: nat, e: Edge)
    requires Discovered(edges, node, maxDepth, dist) && dist[node] == 0
    requires Layered(cur.depth, k, frontier, dist) && Expanded(edges, frontier, {cur.node}, dist)
    requires cur.node in dist && dist[cur.node] == cur.depth
    requires e in edges && e.src == cur.node && e.kind in PROPAGATION_EDGES && e.dst !in dist
    requires Marked(ancestors, dist) && (cur.depth >= maxDepth || |ancestors| > maxNodes)
    ensures !Covered(edges, node, maxDepth, maxNodes)
  {
    if cur.depth >= maxDepth {
      TooDeep(edges, node, maxDepth, maxNodes, dist, frontier, cur, k, e);
    } else {
      assert ancestors == dist.Keys;
      TooMany(edges, node, maxDepth, maxNodes, dist, e);
    }
  }

  lemma ReachStep(edges: seq<Edge>, node: string, maxDepth: int, dist: map<string, nat>, cur: Entry, e: Edge)
    requires Discovered(edges, node, maxDepth, dist)
    requires cur.node in dist && dist[cur.node] == cur.depth < maxDepth
    requires e in edges && e.src == cur.node && e.kind in PROPAGATION_EDGES && e.dst !in dist
    ensures Discovered(edges, node, maxDepth, dist[e.dst := cur.depth + 1])
  {
    var dist' := dist[e.dst := cur.depth + 1];
    forall n | n in dist'
      ensures dist'[n] <= maxDepth && DependsWithin(edges, node, n, dist'[n])
    {
      if n == e.dst {
        assert DependsWithin(edges, node, cur.node, dist[cur.node]);
        var c :| IsChain(edges, node, c) && c.End(node) == cur.node && c.Length() <= dist[cur.node];
        assert IsChain(edges, node, Via(c, e)) && Via(c, e).End(node) == n && Via(c, e).Length() <= dist'[n];
      } else {
        assert DependsWithin(edges, node, n, dist[n]);
      }
    }
  }

  lemma PushStep(edges: seq<Edge>, dist: map<string, nat>, frontier: seq<Entry>, cur: Entry, k: nat, e: Edge)
    requires Layered(cur.depth, k, frontier, dist) && Expanded(edges, frontier, {cur.node}, dist)
    requires e.dst !in dist
    ensures var dist' := dist[e.dst := cur.depth + 1];
      var frontier' := frontier + [Entry(e.dst, cur.depth + 1)];
      && Layered(cur.depth, k, frontier', dist') && Expanded(edges, frontier', {cur.node}, dist')
  {
    var dist' := dist[e.dst := cur.depth + 1];
    var frontier' := frontier + [Entry(e.dst, cur.depth + 1)];
    forall p | p in dist' && p !in {cur.node}
      ensures Entry(p, dist'[p]) in frontier' || Closed(edges, dist', p)
    {
      if p != e.dst && Entry(p, dist[p]) !in frontier {
        assert Closed(edges, dist, p);
      }
    }
  }

  /** Discovering one more dependency keeps every search invariant. */
  lemma DiscoverStep(
      edges: seq<Edge>, node: string, maxDepth: int, dist: map<string, nat>, frontier: seq<Entry>, cur: Entry, k: nat,
      e: Edge)
    requires Discovered(edges, node, maxDepth, dist)
    requires Layered(cur.depth, k, frontier, dist) && Expanded(edges, frontier, {cur.node}, dist)
    requires cur.node in dist && dist[cur.node] == cur.depth < maxDepth
    requires e in edges && e.src == cur.node && e.kind in PROPAGATION_EDGES && e.dst !in dist
    ensures var dist' := dist[e.dst := cur.depth + 1];
      var frontier' := frontier + [Entry(e.dst, cur.depth + 1)];
      && Discovered(edges, node, maxDepth, dist')
      && Layered(cur.depth, k, frontier', dist')
      && Expanded(edges, frontier', {cur.node}, dist')
  {
    ReachStep(edges, node, maxDepth, dist, cur, e);
    PushStep(edges, dist, frontier, cur, k, e);
  }

  /** An exhausted search has discovered exactly the closure. */
  lemma Exhausted(
      edges: seq<Edge>, node: string, maxDepth: int, maxNodes: int, ancestors: set<string>, dist: map<string, nat>)
    requires Discovered(edges, node, maxDepth, dist) && dist[node] == 0
    requires Expanded(edges, [], {}, dist)
    requires Marked(ancestors, dist) && |ancestors| <= maxNodes + 1
    ensures ancestors == Closure(edges, node)
    ensures Covered(edges, node, maxDepth, maxNodes)
  {
    forall n
      ensures n in ancestors <==> n in Closure(edges, node)
      ensures n in ancestors ==> DependsWithin(edges, node, n, maxDepth)
    {
      ClosureComplete(edges, node, n);
      if n in ancestors {
        assert DependsWithin(edges, node, n, dist[n]);
        var c :| IsChain(edges, node, c) && c.End(node) == n && c.Length() <= dist[n];
      } else if Depends(edges, node, n) {
        var c :| IsChain(edges, node, c) && c.End(node) == n;
        forall p | p in dist
          ensures Closed(edges, dist, p)
        {
          assert Entry(p, dist[p]) !in [];
        }
        ChainsCovered(edges, node, dist, c.Length(), c);
      }
    }
  }

  // ------------------------------------------------------------- the query

  ghost predicate Blocks(edges: seq<Edge>, node: string, maxDepth: int, maxNodes: int, n: Notice) {
    || !Covered(edges, node, maxDepth, maxNodes)
    || Touches(n, Closure(edges, node))
    || n.severity == "critical"
  }

  /** The notices, in order, that the candidate must wait for. */
  ghost function Blockers(
      edges: seq<Edge>, node: string, maxDepth: int, maxNodes: int, notices: seq<Notice>): seq<Notice>
  {
    if notices == [] then []
    else
      var front, last := notices[..|notices| - 1], notices[|notices| - 1];
      Blockers(edges, node, maxDepth, maxNodes, front)
      + if Blocks(edges, node, maxDepth, maxNodes, last) then [last] else []
  }

  /** Fail closed: a notice is returned exactly when its target or a node it affects is in
      the unbounded closure, or it is critical, or the bounds cut the search short. */
  lemma {:induction false} FailClosed(
      edges: seq<Edge>, node: string, maxDepth: int, maxNodes: int, notices: seq<Notice>, n: Notice)
    requires n in notices
    ensures n in Blockers(edges, node, maxDepth, maxNodes, notices) <==>
      || n.target in Closure(edges, node)
      || (exists i :: 0 <= i < |n.affected| && n.affected[i] in Closure(edges, node))
      || n.severity == "critical"
      || !Covered(edges, node, maxDepth, maxNodes)
  {
    var front, last := notices[..|notices| - 1], notices[|notices| - 1];
    if n in front {
      FailClosed(edges, node, maxDepth, maxNodes, front, n);
    } else {
      assert n == last;
      BlockersBlock(edges, node, maxDepth, maxNodes, front);
    }
  }

  lemma {:induction false} BlockersBlock(
      edges: seq<Edge>, node: string, maxDepth: int, maxNodes: int, notices: seq<Notice>)
    ensures forall m :: m in Blockers(edges, node, maxDepth, maxNodes, notices) ==>
      m in notices && Blocks(edges, node, maxDepth, maxNodes, m)
  {
    if notices == [] {
    } else {
      BlockersBlock(edges, node, maxDepth, maxNodes, notices[..|notices| - 1]);
    }
  }

  /** Each notice is decided by itself, and the order of the notices is kept. */
  lemma {:induction false} BlockersInOrder(
      edges: seq<Edge>, node: string, maxDepth: int, maxNodes: int, a: seq<Notice>, b: seq<Notice>)
    ensures Blockers(edges, node, maxDepth, maxNodes, a + b)
      == Blockers(edges, node, maxDepth, maxNodes, a) + Blockers(edges, node, maxDepth, maxNodes, b)
  {
    if b == [] {
      assert a + b == a;
    } else {
      BlockersInOrder(edges, node, maxDepth, maxNodes, a, b[..|b| - 1]);
      assert (a + b)[..|a + b| - 1] == a + b[..|b| - 1];
    }
  }

  /** The bounded walk from the candidate to its dependencies: it either reports
      itself incomplete or returns the whole closure. */
  method Dependencies(edges: seq<Edge>, node: string, maxDepth: int, maxNodes: int)
    returns (incomplete: bool, ancestors: set<string>)
    requires 1 <= maxDepth && 1 <= maxNodes
    ensures incomplete <==> !Covered(edges, node, maxDepth, maxNodes)
    ensures !incomplete ==> ancestors == Closure(edges, node)
  {
    ancestors, incomplete := {node}, false;
    var frontier := [Entry(node, 0)];
    ghost var dist: map<string, nat> := map[node := 0];
    ghost var layer: nat, k: nat := 0, 1;
    assert IsChain(edges, node, Here) && Here.End(node) == node && Here.Length() <= 0;
    while frontier != []
      invariant !incomplete && Marked(ancestors, dist) && |ancestors| <= maxNodes + 1
      invariant node in dist && dist[node] == 0
      invariant Discovered(edges, node, maxDepth, dist)
      invariant Layered(layer, k, frontier, dist) && (frontier != [] ==> k > 0)
      invariant Expanded(edges, frontier, {}, dist)
      decreases maxDepth - layer, k
    {
      var cur := frontier[0];
      frontier, k := frontier[1..], k - 1;
      var out := OutEdges(edges, cur.node);
      var i := 0;
      while i < |out|
        invariant 0 <= i <= |out|
        invariant forall j :: 0 <= j < i ==> out[j].dst in ancestors
        invariant !incomplete && Marked(ancestors, dist) && |ancestors| <= maxNodes + 1
        invariant node in dist && dist[node] == 0
        invariant cur.node in dist && dist[cur.node] == cur.depth
        invariant Discovered(edges, node, maxDepth, dist)
        invariant Layered(cur.depth, k, frontier, dist)
        invariant Expanded(edges, frontier, {cur.node}, dist)
      {
        var edge := out[i];
        assert edge in out;
        var dependency := edge.dst;
        if dependency !in ancestors {
          if cur.depth >= maxDepth || |ancestors| > maxNodes {
            CutShort(edges, node, maxDepth, maxNodes, ancestors, dist, frontier, cur, k, edge);
            incomplete := true;
            return;
          }
          DiscoverStep(edges, node, maxDepth, dist, frontier, cur, k, edge);
          ancestors := ancestors + {dependency};
          dist := dist[dependency := cur.depth + 1];
          frontier := frontier + [Entry(dependency, cur.depth + 1)];
        }
        i := i + 1;
      }
      assert Closed(edges, dist, cur.node);
      if k == 0 && frontier != [] {
        layer, k := layer + 1, |frontier|;
      }
    }
    Exhausted(edges, node, maxDepth, maxNodes, ancestors, dist);
  }

  lemma BlockersAreNotices(edges: seq<Edge>, node: string, maxDepth: int, maxNodes: int, notices: seq<Notice>)
    ensures forall n :: n in Blockers(edges, node, maxDepth, maxNodes, notices) <==>
      && n in notices
      && (|| n.target in Closure(edges, node)
          || (exists i :: 0 <= i < |n.affected| && n.affected[i] in Closure(edges, node))
          || n.severity == "critical"
          || !Covered(edges, node, maxDepth, maxNodes))
  {
    BlockersBlock(edges, node, maxDepth, maxNodes, notices);
    forall n | n in notices {
      FailClosed(edges, node, maxDepth, maxNodes, notices, n);
    }
  }

  /** The notices the candidate must wait for. */
  method BlockingInvalidations(edges: seq<Edge>, node: string, maxDepth: int, maxNodes: int, notices: seq<Notice>)
    returns (blockers: seq<Notice>)
    requires 1 <= maxDepth && 1 <= maxNodes
    ensures blockers == Blockers(edges, node, maxDepth, maxNodes, notices)
    ensures forall n :: n in blockers <==>
      && n in notices
      && (|| n.target in Closure(edges, node)
          || (exists i :: 0 <= i < |n.affected| && n.affected[i] in Closure(edges, node))
          || n.severity == "critical"
          || !Covered(edges, node, maxDepth, maxNodes))
  {
    BlockersAreNotices(edges, node, maxDepth, maxNodes, notices);
    blockers := [];
    if notices == [] {
      return;
    }
    var incomplete, ancestors := Dependencies(edges, node, maxDepth, maxNodes);
    for i := 0 to |notices|
      invariant blockers == Blockers(edges, node, maxDepth, maxNodes, notices[..i])
    {
      assert notices[..i + 1][..i] == notices[..i];
      if incomplete || Touches(notices[i], ancestors) || notices[i].severity == "critical" {
        blockers := blockers + [notices[i]];
      }
    }
    assert notices[..|notices|] == notices;
  }
}
