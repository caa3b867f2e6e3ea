/**
 Bounded causal traversal: everything that transitively depends on a node, with
 the strongest dependency path to each dependent.

 The edge set is fixed for the duration of one traversal. A walk follows
 dependency edges backwards, from an edge's `dst` to its `src`, and its strength
 is the product of the weights and strengths of its edges.
 */
module Traversal {

  datatype EdgeKind =
    | DerivedFrom | Supports | Contradicts | Assumes | DependsOn
    | Invalidates | Supersedes | Affects | Produces | Verifies
    | AcceptedBy | RejectedBy | ResumedFrom | MigratedFrom | ReplayOf

  datatype Edge = Edge(src: string, dst: string, kind: EdgeKind, strength: real)

  /** The arguments of one traversal, with the current edges of the project. */
  datatype Query = Query(
    edges: seq<Edge>,
    weights: map<EdgeKind, real>,
    root: string,
    maxDepth: int,
    minStrength: real)

  /** A frontier entry: a node together with the path that reached it. */
  datatype Hop = Hop(node: string, depth: nat, strength: real, path: seq<string>)

  /** What the traversal records about one dependent. */
  datatype Impact = Impact(depth: nat, strength: real, path: seq<string>, via: EdgeKind) {
    function ToHop(n: string): Hop {
      Hop(n, depth, strength, path)
    }
  }

  datatype Outcome =
    | InvalidArguments
    | BudgetExceeded
    | Found(best: map<string, Impact>)

  /** Default propagation weights. */
  const PROPAGATION_EDGES: map<EdgeKind, real> :=
    map[Assumes := 1.0, DependsOn := 0.9, DerivedFrom := 0.8, Supports := 0.6, Verifies := 0.7]

  /** What `put_edge` guarantees about every stored edge. */
  predicate StoredEdges(edges: seq<Edge>) {
    forall e :: e in edges ==> 0.0 <= e.strength <= 1.0
  }

  predicate ValidArguments(q: Query, maxNodes: int) {
    && 0 <= q.maxDepth
    && 0 <= maxNodes
    && 0.0 <= q.minStrength <= 1.0
    && forall k :: k in q.weights ==> 0.0 <= q.weights[k] <= 1.0
  }

  /** The arguments refused: a negative bound, or a strength or weight outside 0 to 1. */
  lemma RefusedArguments(q: Query, maxNodes: int)
    ensures !ValidArguments(q, maxNodes) <==>
      || q.maxDepth < 0 || maxNodes < 0 || q.minStrength < 0.0 || 1.0 < q.minStrength
      || exists k :: k in q.weights && (q.weights[k] < 0.0 || 1.0 < q.weights[k])
  {
  }

  /** Strength after one more edge. */
  function Extend(s: real, weight: real, strength: real): real {
    s * weight * strength
  }

  lemma ExtendMonotone(s: real, t: real, weight: real, strength: real)
    requires 0.0 <= s <= t && 0.0 <= weight && 0.0 <= strength
    ensures 0.0 <= Extend(s, weight, strength) <= Extend(t, weight, strength)
  {
    assert 0.0 <= s * weight <= t * weight;
  }

  lemma ExtendShrinks(s: real, weight: real, strength: real)
    requires 0.0 <= s && 0.0 <= weight <= 1.0 && 0.0 <= strength <= 1.0
    ensures 0.0 <= Extend(s, weight, strength) <= s
  {
    assert 0.0 <= s * weight <= s;
    assert 0.0 <= (s * weight) * strength <= s * weight;
  }

  // ---------------------------------------------------------------- walks

  /** A walk from the root, one edge at a time. */
  datatype Walk = Start | Then(prefix: Walk, edge: Edge) {

    ghost function Length(): nat {
      if Start? then 0 else prefix.Length() + 1
    }

    ghost function End(root: string): string {
      if Start? then root else edge.src
    }

    /** The identifiers the walk visits, root first. */
    ghost function Trail(root: string): seq<string> {
      if Start? then [root] else prefix.Trail(root) + [edge.src]
    }
  }

  /** `w` follows selected dependency edges backwards from the root. */
  ghost predicate IsWalk(q: Query, w: Walk) {
    w.Then? ==>
      && IsWalk(q, w.prefix)
      && w.edge in q.edges
      && w.edge.kind in q.weights
      && w.edge.dst == w.prefix.End(q.root)
  }

  /** The product of weight times strength over the edges of a walk. */
  ghost function Product(q: Query, w: Walk): real
    requires IsWalk(q, w)
  {
    if w.Start? then 1.0 else Product(q, w.prefix) * q.weights[w.edge.kind] * w.edge.strength
  }

  /** Under the default weights each edge takes the strength down to this part of it. */
  lemma DefaultDecay(q: Query, w: Walk)
    requires q.weights == PROPAGATION_EDGES && IsWalk(q, w) && w.Then?
    ensures Product(q, w) == Product(q, w.prefix) * w.edge.strength *
      match w.edge.kind
      case Assumes => 1.0
      case DependsOn => 0.9
      case DerivedFrom => 0.8
      case Verifies => 0.7
      case _ => 0.6
    ensures w.edge.kind in {Assumes, DependsOn, DerivedFrom, Verifies, Supports}
  {
  }

  /** A walk inside both bounds of the query. */
  ghost predicate Admissible(q: Query, w: Walk) {
    IsWalk(q, w) && w.Length() <= q.maxDepth && Product(q, w) >= q.minStrength
  }

  ghost predicate Qualifies(q: Query, n: string) {
    n != q.root && exists w :: Admissible(q, w) && w.End(q.root) == n
  }

  /** The distinct non-root nodes an admissible walk reaches. */
  ghost function Qualifying(q: Query): set<string> {
    set e | e in q.edges && Qualifies(q, e.src) :: e.src
  }

  /** `w` is the walk behind a hop. */
  ghost predicate Behind(q: Query, w: Walk, h: Hop) {
    && Admissible(q, w)
    && w.End(q.root) == h.node
    && w.Length() == h.depth
    && Product(q, w) == h.strength
    && w.Trail(q.root) == h.path
  }

  ghost predicate Witnessed(q: Query, h: Hop) {
    exists w :: Behind(q, w, h)
  }

  /** As `Witnessed`, by a walk whose last edge has the recorded kind. */
  ghost predicate RecordedAs(q: Query, n: string, m: Impact) {
    exists w :: Behind(q, w, m.ToHop(n)) && w.Then? && w.edge.kind == m.via
  }

  ghost predicate Simple(path: seq<string>) {
    forall i, j :: 0 <= i < j < |path| ==> path[i] != path[j]
  }

  /** `m` describes a strongest admissible walk to `n`, and a shortest one among
      those: no walk to `n` within the depth bound is stronger, and none as
      strong is shorter. */
  ghost predicate IsStrongest(q: Query, n: string, m: Impact) {
    && Simple(m.path)
    && RecordedAs(q, n, m)
    && forall w :: IsWalk(q, w) && w.Length() <= q.maxDepth && w.End(q.root) == n ==>
         && Product(q, w) <= m.strength
         && (Product(q, w) == m.strength ==> m.depth <= w.Length())
  }

  lemma QualifyingComplete(q: Query, n: string)
    ensures n in Qualifying(q) <==> Qualifies(q, n)
  {
    if Qualifies(q, n) {
      var w :| Admissible(q, w) && w.End(q.root) == n;
      assert w.edge in q.edges;
    }
  }

  lemma {:induction false} ProductBounds(q: Query, w: Walk)
    requires StoredEdges(q.edges) && ValidArguments(q, 0) && IsWalk(q, w)
    ensures 0.0 <= Product(q, w) <= 1.0
  {
    if w.Start? {
    } else {
      ProductBounds(q, w.prefix);
      ExtendShrinks(Product(q, w.prefix), q.weights[w.edge.kind], w.edge.strength);
    }
  }

  // ---------------------------------------------------------- dominance

  /** Some recorded hop reaches `n` at least as early and at least as strongly. */
  ghost predicate Dominated(n: string, depth: int, strength: real, all: set<Hop>) {
    exists h :: h in all && h.node == n && h.depth <= depth && h.strength >= strength
  }

  ghost predicate SettledEdge(q: Query, h: Hop, e: Edge, all: set<Hop>)
    requires e.kind in q.weights
  {
    var s := Extend(h.strength, q.weights[e.kind], e.strength);
    s >= q.minStrength ==> Dominated(e.src, h.depth + 1, s, all)
  }

  /** Every way of extending `h` by one edge is dominated. */
  ghost predicate Settled(q: Query, h: Hop, all: set<Hop>) {
    h.depth < q.maxDepth ==>
      forall e {:trigger SettledEdge(q, h, e, all)} ::
        e in q.edges && e.dst == h.node && e.kind in q.weights ==> SettledEdge(q, h, e, all)
  }

  lemma SettledGrows(q: Query, h: Hop, all: set<Hop>, more: set<Hop>)
    requires Settled(q, h, all) && all <= more
    ensures Settled(q, h, more)
  {
    if h.depth < q.maxDepth {
      forall e | e in q.edges && e.dst == h.node && e.kind in q.weights
        ensures SettledEdge(q, h, e, more)
      {
        assert SettledEdge(q, h, e, all);
      }
    }
  }

  /** Once every hop is settled, every admissible walk is dominated. */
  lemma {:induction false} WalksDominated(q: Query, all: set<Hop>, w: Walk)
    requires StoredEdges(q.edges) && ValidArguments(q, 0)
    requires Origin(q) in all
    requires forall h :: h in all ==> Settled(q, h, all)
    requires Admissible(q, w)
    ensures Dominated(w.End(q.root), w.Length(), Product(q, w), all)
  {
    if w.Start? {
      assert Origin(q).strength >= Product(q, w);
    } else {
      var v, e := w.prefix, w.edge;
      ProductBounds(q, v);
      ExtendShrinks(Product(q, v), q.weights[e.kind], e.strength);
      WalksDominated(q, all, v);
      var h :| h in all && h.node == v.End(q.root) && h.depth <= v.Length() && h.strength >= Product(q, v);
      ExtendMonotone(Product(q, v), h.strength, q.weights[e.kind], e.strength);
      assert Product(q, w) == Extend(Product(q, v), q.weights[e.kind], e.strength);
      var s := Extend(h.strength, q.weights[e.kind], e.strength);
      assert SettledEdge(q, h, e, all) && Dominated(e.src, h.depth + 1, s, all);
      var k :| k in all && k.node == e.src && k.depth <= h.depth + 1 && k.strength >= s;
    }
  }

  // -------------------------------------------------- the traversal invariant

  function Origin(q: Query): Hop {
    Hop(q.root, 0, 1.0, [q.root])
  }

  /** `seen` holds, per node, the strength of its strongest hop so far; hops of
      one node have pairwise different strengths. */
  ghost predicate Peaks(q: Query, seen: map<string, real>, all: set<Hop>) {
    && Origin(q) in all
    && q.root in seen && seen[q.root] == 1.0
    && (forall h :: h in all ==> h.node in seen && h.strength <= seen[h.node])
    && (forall h, k :: h in all && k in all && h.node == k.node && h.strength == k.strength ==> h == k)
  }

  /** No path revisits a node: whatever a path has visited is at least as strong. */
  ghost predicate PathOk(seen: map<string, real>, h: Hop) {
    && Simple(h.path)
    && 0.0 <= h.strength <= 1.0
    && forall x :: x in h.path ==> x in seen && seen[x] >= h.strength
  }

  ghost predicate HopsOk(q: Query, seen: map<string, real>, all: set<Hop>) {
    forall h {:trigger PathOk(seen, h)} {:trigger Witnessed(q, h)} ::
      h in all ==> PathOk(seen, h) && Witnessed(q, h)
  }

  /** `best` describes the strongest hop of every seen node but the root. */
  ghost predicate Records(q: Query, seen: map<string, real>, best: map<string, Impact>, all: set<Hop>) {
    && best.Keys == seen.Keys - {q.root}
    && (forall n :: n in best ==> best[n].ToHop(n) in all && best[n].strength == seen[n])
    && (forall n {:trigger RecordedAs(q, n, best[n])} :: n in best ==> RecordedAs(q, n, best[n]))
  }

  /** Breadth-first order: the frontier holds `k` entries of the current depth,
      then only entries one deeper. */
  ghost predicate Layered(q: Query, depth: nat, k: nat, frontier: seq<Hop>, all: set<Hop>) {
    && k <= |frontier|
    && (forall i :: 0 <= i < |frontier| ==>
          frontier[i] in all && frontier[i].depth == if i < k then depth else depth + 1)
    && (forall h :: h in all ==> h.depth <= depth + 1 && h.depth <= q.maxDepth)
  }

  lemma HopExtends(q: Query, h: Hop, e: Edge)
    requires Witnessed(q, h) && h.depth < q.maxDepth
    requires e in q.edges && e.dst == h.node && e.kind in q.weights
    requires Extend(h.strength, q.weights[e.kind], e.strength) >= q.minStrength
    ensures var m := Impact(h.depth + 1, Extend(h.strength, q.weights[e.kind], e.strength), h.path + [e.src], e.kind);
      RecordedAs(q, e.src, m) && Witnessed(q, m.ToHop(e.src))
  {
    var w :| Behind(q, w, h);
    var m := Impact(h.depth + 1, Extend(h.strength, q.weights[e.kind], e.strength), h.path + [e.src], e.kind);
    assert Behind(q, Then(w, e), m.ToHop(e.src));
  }

  /** Recording a strictly stronger hop keeps the peaks exact. */
  lemma PeaksExtended(q: Query, seen: map<string, real>, all: set<Hop>, h: Hop)
    requires Peaks(q, seen, all)
    requires h.node != q.root
    requires h.node in seen ==> seen[h.node] < h.strength
    ensures Peaks(q, seen[h.node := h.strength], all + {h})
  {}

  lemma HopsExtended(q: Query, seen: map<string, real>, all: set<Hop>, cur: Hop, h: Hop)
    requires HopsOk(q, seen, all) && cur in all && Witnessed(q, h)
    requires h.path == cur.path + [h.node] && 0.0 <= h.strength <= cur.strength
    requires h.node in seen ==> seen[h.node] < h.strength
    ensures HopsOk(q, seen[h.node := h.strength], all + {h})
  {
    var seen' := seen[h.node := h.strength];
    assert PathOk(seen, cur);
    assert h.node !in cur.path;
    assert PathOk(seen', h);
    forall k | k in all
      ensures PathOk(seen', k)
    {
      assert PathOk(seen, k);
    }
  }

  // ---------------------------------------------------------- the method

  /** Current edges into `node` whose kind is selected, in stored order. */
  function InEdges(edges: seq<Edge>, node: string, kinds: set<EdgeKind>): (r: seq<Edge>)
    ensures |r| <= |edges|
    ensures forall e :: e in r <==> e in edges && e.dst == node && e.kind in kinds
  {
    if edges == [] then []
    else
      var rest := InEdges(edges[1..], node, kinds);
      if edges[0].dst == node && edges[0].kind in kinds then [edges[0]] + rest else rest
  }

  lemma BestQualifies(q: Query, seen: map<string, real>, best: map<string, Impact>, all: set<Hop>)
    requires Records(q, seen, best, all)
    ensures best.Keys <= Qualifying(q)
    ensures |best| <= |Qualifying(q)|
  {
    forall n | n in best.Keys
      ensures n in Qualifying(q)
    {
      assert RecordedAs(q, n, best[n]);
      QualifyingComplete(q, n);
    }
    SubsetSize(best.Keys, Qualifying(q));
    assert |best| == |best.Keys|;
  }

  lemma {:induction false} SubsetSize<T>(a: set<T>, b: set<T>)
    requires a <= b
    ensures |a| <= |b|
  {
    if a == {} {
    } else {
      var x :| x in a;
      SubsetSize(a - {x}, b - {x});
    }
  }

  /** No admissible walk beats a recorded strength, or matches it more shortly. */
  lemma NoWalkBeats(q: Query, seen: map<string, real>, n: string, m: Impact, all: set<Hop>, w: Walk)
    requires StoredEdges(q.edges) && ValidArguments(q, 0)
    requires Peaks(q, seen, all)
    requires n in seen && m.ToHop(n) in all && m.strength == seen[n]
    requires forall h :: h in all ==> Settled(q, h, all)
    requires Admissible(q, w) && w.End(q.root) == n
    ensures Product(q, w) <= m.strength
    ensures Product(q, w) == m.strength ==> m.depth <= w.Length()
  {
    WalksDominated(q, all, w);
    var h :| h in all && h.node == n && h.depth <= w.Length() && h.strength >= Product(q, w);
    assert h.strength <= seen[n];
    if Product(q, w) == m.strength {
      assert h == m.ToHop(n);
    }
  }

  lemma RecordIsStrongest(q: Query, seen: map<string, real>, n: string, m: Impact, all: set<Hop>)
    requires StoredEdges(q.edges) && ValidArguments(q, 0)
    requires Peaks(q, seen, all)
    requires n in seen && m.ToHop(n) in all && m.strength == seen[n]
    requires Simple(m.path) && RecordedAs(q, n, m)
    requires forall h :: h in all ==> Settled(q, h, all)
    ensures IsStrongest(q, n, m)
  {
    var v :| Behind(q, v, m.ToHop(n));
    forall w | IsWalk(q, w) && w.Length() <= q.maxDepth && w.End(q.root) == n
      ensures Product(q, w) <= m.strength
      ensures Product(q, w) == m.strength ==> m.depth <= w.Length()
    {
      if Product(q, w) >= q.minStrength {
        NoWalkBeats(q, seen, n, m, all, w);
      }
    }
  }

  lemma QualifyingIsSeen(q: Query, seen: map<string, real>, all: set<Hop>, n: string)
    requires StoredEdges(q.edges) && ValidArguments(q, 0)
    requires Peaks(q, seen, all)
    requires forall h :: h in all ==> Settled(q, h, all)
    requires n in Qualifying(q)
    ensures n in seen && n != q.root
  {
    QualifyingComplete(q, n);
    var w :| Admissible(q, w) && w.End(q.root) == n;
    WalksDominated(q, all, w);
    var h :| h in all && h.node == n;
  }

  /** With every hop settled, `best` covers every qualifying node. */
  lemma KeysComplete(q: Query, seen: map<string, real>, best: map<string, Impact>, all: set<Hop>)
    requires StoredEdges(q.edges) && ValidArguments(q, 0)
    requires Invariant(q, seen, best, all) && Pending(q, {}, [], all)
    ensures best.Keys == Qualifying(q)
    ensures |best| == |Qualifying(q)|
  {
    forall n | n in Qualifying(q)
      ensures n in best.Keys
    {
      QualifyingIsSeen(q, seen, all, n);
    }
    BestQualifies(q, seen, best, all);
    assert |best| == |best.Keys|;
  }

  /** With every hop settled, each record describes a strongest walk. */
  lemma RecordsAreStrongest(q: Query, seen: map<string, real>, best: map<string, Impact>, all: set<Hop>)
    requires StoredEdges(q.edges) && ValidArguments(q, 0)
    requires Peaks(q, seen, all) && Records(q, seen, best, all)
    requires HopsOk(q, seen, all) && Pending(q, {}, [], all)
    ensures forall n :: n in best ==> IsStrongest(q, n, best[n])
  {
    forall n | n in best
      ensures IsStrongest(q, n, best[n])
    {
      assert PathOk(seen, best[n].ToHop(n));
      RecordIsStrongest(q, seen, n, best[n], all);
    }
  }

  /** The whole loop invariant: `cur` is the entry being expanded, if any. */
  ghost predicate Invariant(q: Query, seen: map<string, real>, best: map<string, Impact>, all: set<Hop>) {
    Peaks(q, seen, all) && HopsOk(q, seen, all) && Records(q, seen, best, all)
  }

  /** Recording one new strongest hop, as one step of the traversal does. */
  lemma RecordStep(q: Query, seen: map<string, real>, best: map<string, Impact>, all: set<Hop>, cur: Hop, e: Edge)
    requires StoredEdges(q.edges) && ValidArguments(q, 0)
    requires Invariant(q, seen, best, all) && cur in all && cur.depth < q.maxDepth
    requires e in q.edges && e.dst == cur.node && e.kind in q.weights
    requires var s := Extend(cur.strength, q.weights[e.kind], e.strength);
      s >= q.minStrength && (e.src in seen ==> seen[e.src] < s)
    ensures var s := Extend(cur.strength, q.weights[e.kind], e.strength);
      var m := Impact(cur.depth + 1, s, cur.path + [e.src], e.kind);
      Invariant(q, seen[e.src := s], best[e.src := m], all + {m.ToHop(e.src)})
  {
    var s := Extend(cur.strength, q.weights[e.kind], e.strength);
    var m := Impact(cur.depth + 1, s, cur.path + [e.src], e.kind);
    assert PathOk(seen, cur);
    ExtendShrinks(cur.strength, q.weights[e.kind], e.strength);
    HopExtends(q, cur, e);
    PeaksExtended(q, seen, all, m.ToHop(e.src));
    HopsExtended(q, seen, all, cur, m.ToHop(e.src));
  }

  /** Every hop is settled, waiting in the frontier, or being expanded. */
  ghost predicate Pending(q: Query, cur: set<Hop>, frontier: seq<Hop>, all: set<Hop>) {
    forall h {:trigger Settled(q, h, all)} :: h in all && h !in cur ==> h in frontier || Settled(q, h, all)
  }

  /** The first `i` edges into `cur` have been dealt with. */
  ghost predicate Expanded(q: Query, cur: Hop, edges: seq<Edge>, i: int, all: set<Hop>)
    requires 0 <= i <= |edges|
    requires forall e :: e in edges ==> e.kind in q.weights
  {
    forall j {:trigger edges[j]} :: 0 <= j < i ==> SettledEdge(q, cur, edges[j], all)
  }

  lemma Pushed(q: Query, cur: Hop, k: nat, frontier: seq<Hop>, edges: seq<Edge>, i: int, all: set<Hop>, hop: Hop)
    requires 0 <= i < |edges|
    requires forall e :: e in edges ==> e.kind in q.weights
    requires Layered(q, cur.depth, k, frontier, all) && Pending(q, {cur}, frontier, all)
    requires Expanded(q, cur, edges, i, all)
    requires hop.node == edges[i].src && hop.depth == cur.depth + 1 <= q.maxDepth
    requires hop.strength == Extend(cur.strength, q.weights[edges[i].kind], edges[i].strength)
    ensures Layered(q, cur.depth, k, frontier + [hop], all + {hop})
    ensures Pending(q, {cur}, frontier + [hop], all + {hop})
    ensures Expanded(q, cur, edges, i + 1, all + {hop})
  {
    var all' := all + {hop};
    forall h | h in all' && h != cur
      ensures h in frontier + [hop] || Settled(q, h, all')
    {
      if h != hop && h !in frontier {
        assert Settled(q, h, all);
        SettledGrows(q, h, all, all');
      }
    }
    forall j | 0 <= j < i + 1
      ensures SettledEdge(q, cur, edges[j], all')
    {
      if j < i {
        assert SettledEdge(q, cur, edges[j], all);
      } else {
        assert hop in all';
      }
    }
  }

  lemma Skipped(
      q: Query, seen: map<string, real>, best: map<string, Impact>, all: set<Hop>, cur: Hop, edges: seq<Edge>, i: int)
    requires 0 <= i < |edges|
    requires forall e :: e in edges ==> e.kind in q.weights
    requires Invariant(q, seen, best, all)
    requires forall h :: h in all ==> h.depth <= cur.depth + 1
    requires Expanded(q, cur, edges, i, all)
    requires var s := Extend(cur.strength, q.weights[edges[i].kind], edges[i].strength);
      s < q.minStrength || (edges[i].src in seen && seen[edges[i].src] >= s)
    ensures Expanded(q, cur, edges, i + 1, all)
  {
    var n := edges[i].src;
    if n in seen {
      var h := if n == q.root then Origin(q) else best[n].ToHop(n);
      assert h in all && h.strength == seen[n];
    }
    assert SettledEdge(q, cur, edges[i], all);
  }

  lemma ExpandedAll(q: Query, cur: Hop, edges: seq<Edge>, frontier: seq<Hop>, all: set<Hop>)
    requires edges == InEdges(q.edges, cur.node, q.weights.Keys)
    requires Pending(q, {cur}, frontier, all)
    requires cur.depth >= q.maxDepth || Expanded(q, cur, edges, |edges|, all)
    ensures Pending(q, {}, frontier, all)
  {
    if cur.depth < q.maxDepth {
      forall e | e in q.edges && e.dst == cur.node && e.kind in q.weights
        ensures SettledEdge(q, cur, e, all)
      {
        assert e in edges;
      }
    }
  }

  /** What holds while `cur` is expanded, after the first `i` edges into it. */
  ghost predicate Expanding(
      q: Query, seen: map<string, real>, best: map<string, Impact>, all: set<Hop>, cur: Hop, k: nat,
      frontier: seq<Hop>, edges: seq<Edge>, i: int)
  {
    && 0 <= i <= |edges| && edges == InEdges(q.edges, cur.node, q.weights.Keys)
    && cur in all && cur.depth < q.maxDepth
    && Invariant(q, seen, best, all)
    && Layered(q, cur.depth, k, frontier, all)
    && Pending(q, {cur}, frontier, all)
    && Expanded(q, cur, edges, i, all)
  }

  /** Dealing with one more edge: passing over it, or recording a stronger hop. */
  lemma Step(
      q: Query, seen: map<string, real>, best: map<string, Impact>, all: set<Hop>, cur: Hop, k: nat,
      frontier: seq<Hop>, edges: seq<Edge>, i: int)
    requires StoredEdges(q.edges) && ValidArguments(q, 0)
    requires Expanding(q, seen, best, all, cur, k, frontier, edges, i) && i < |edges|
    ensures edges[i].kind in q.weights
    ensures var e := edges[i];
      var s := Extend(cur.strength, q.weights[e.kind], e.strength);
      var m := Impact(cur.depth + 1, s, cur.path + [e.src], e.kind);
      if s < q.minStrength || (e.src in seen && seen[e.src] >= s) then
        Expanding(q, seen, best, all, cur, k, frontier, edges, i + 1)
      else
        Expanding(
          q, seen[e.src := s], best[e.src := m], all + {m.ToHop(e.src)}, cur, k, frontier + [m.ToHop(e.src)],
          edges, i + 1)
  {
    var e := edges[i];
    assert e in edges;
    var s := Extend(cur.strength, q.weights[e.kind], e.strength);
    if s < q.minStrength || (e.src in seen && seen[e.src] >= s) {
      Skipped(q, seen, best, all, cur, edges, i);
    } else {
      var m := Impact(cur.depth + 1, s, cur.path + [e.src], e.kind);
      RecordStep(q, seen, best, all, cur, e);
      Pushed(q, cur, k, frontier, edges, i, all, m.ToHop(e.src));
    }
  }

  /** What holds between expansions: `k` entries of this layer are left in the frontier. */
  ghost predicate Searching(
      q: Query, seen: map<string, real>, best: map<string, Impact>, all: set<Hop>, layer: nat, k: nat,
      frontier: seq<Hop>)
  {
    && Invariant(q, seen, best, all)
    && Layered(q, layer, k, frontier, all) && (frontier != [] ==> k > 0)
    && Pending(q, {}, frontier, all)
  }

  lemma Started(q: Query)
    requires ValidArguments(q, 0)
    ensures Searching(q, map[q.root := 1.0], map[], {Origin(q)}, 0, 1, [Origin(q)])
  {
    assert Behind(q, Start, Origin(q));
  }

  /** Past an entry: the search goes on in this layer, or in the next when it is used up. */
  ghost predicate Turned(
      q: Query, seen: map<string, real>, best: map<string, Impact>, all: set<Hop>, layer: nat, k: nat,
      frontier: seq<Hop>)
  {
    if k == 0 && frontier != [] then Searching(q, seen, best, all, layer + 1, |frontier|, frontier)
    else Searching(q, seen, best, all, layer, k, frontier)
  }

  /** Taking the first entry, to expand it or to drop it at the depth bound. */
  lemma Taken(
      q: Query, seen: map<string, real>, best: map<string, Impact>, all: set<Hop>, layer: nat, k: nat,
      frontier: seq<Hop>)
    requires Searching(q, seen, best, all, layer, k, frontier) && frontier != []
    ensures var cur := frontier[0];
      && cur.depth == layer <= q.maxDepth
      && if cur.depth < q.maxDepth then
           Expanding(
             q, seen, best, all, cur, k - 1, frontier[1..], InEdges(q.edges, cur.node, q.weights.Keys), 0)
         else Turned(q, seen, best, all, layer, k - 1, frontier[1..])
  {
    var cur := frontier[0];
    assert Pending(q, {cur}, frontier[1..], all);
    if cur.depth >= q.maxDepth {
      ExpandedAll(q, cur, InEdges(q.edges, cur.node, q.weights.Keys), frontier[1..], all);
    }
  }

  lemma Left(
      q: Query, seen: map<string, real>, best: map<string, Impact>, all: set<Hop>, cur: Hop, k: nat,
      frontier: seq<Hop>, edges: seq<Edge>)
    requires Expanding(q, seen, best, all, cur, k, frontier, edges, |edges|)
    ensures Turned(q, seen, best, all, cur.depth, k, frontier)
  {
    ExpandedAll(q, cur, edges, frontier, all);
  }

  lemma NextLayer(
      q: Query, seen: map<string, real>, best: map<string, Impact>, all: set<Hop>, layer: nat, k: nat,
      frontier: seq<Hop>)
    returns (next: nat, left: nat)
    requires Turned(q, seen, best, all, layer, k, frontier)
    ensures Searching(q, seen, best, all, next, left, frontier)
    ensures layer < next || (layer == next && k == left)
    ensures frontier != [] ==> next <= q.maxDepth
  {
    if k == 0 && frontier != [] {
      next, left := layer + 1, |frontier|;
    } else {
      next, left := layer, k;
    }
    assert frontier != [] ==> frontier[0] in all && frontier[0].depth == next;
  }

  /** With the frontier empty, the records are complete and strongest. */
  lemma Finished(q: Query, seen: map<string, real>, best: map<string, Impact>, all: set<Hop>, layer: nat, k: nat)
    requires StoredEdges(q.edges) && ValidArguments(q, 0)
    requires Searching(q, seen, best, all, layer, k, [])
    ensures best.Keys == Qualifying(q) && |best| == |Qualifying(q)|
    ensures forall n :: n in best ==> IsStrongest(q, n, best[n])
  {
    KeysComplete(q, seen, best, all);
    RecordsAreStrongest(q, seen, best, all);
  }

  /** Follows every edge into an entry, and stops when there are too many records. */
  method Expand(
      q: Query, maxNodes: int, cur: Hop, known: map<string, real>, records: map<string, Impact>, queue: seq<Hop>,
      ghost all0: set<Hop>, ghost k: nat)
    returns (
      exceeded: bool, seen: map<string, real>, best: map<string, Impact>, frontier: seq<Hop>, ghost all: set<Hop>)
    requires StoredEdges(q.edges) && ValidArguments(q, maxNodes) && |records| <= maxNodes
    requires Expanding(
      q, known, records, all0, cur, k, queue, InEdges(q.edges, cur.node, q.weights.Keys), 0)
    ensures exceeded ==> |Qualifying(q)| > maxNodes
    ensures !exceeded ==> |best| <= maxNodes
    ensures !exceeded ==> Expanding(
      q, seen, best, all, cur, k, frontier, InEdges(q.edges, cur.node, q.weights.Keys),
      |InEdges(q.edges, cur.node, q.weights.Keys)|)
  {
    var edges := InEdges(q.edges, cur.node, q.weights.Keys);
    seen, best, frontier, all := known, records, queue, all0;
    var i := 0;
    while i < |edges|
      invariant Expanding(q, seen, best, all, cur, k, frontier, edges, i)
      invariant |best| <= maxNodes
    {
      Step(q, seen, best, all, cur, k, frontier, edges, i);
      var edge := edges[i];
      var nxt := edge.src;
      var s := Extend(cur.strength, q.weights[edge.kind], edge.strength);
      if s >= q.minStrength && (nxt !in seen || seen[nxt] < s) {
        var impact := Impact(cur.depth + 1, s, cur.path + [nxt], edge.kind);
        seen := seen[nxt := s];
        best := best[nxt := impact];
        all := all + {impact.ToHop(nxt)};
        if |best| > maxNodes {
          BestQualifies(q, seen, best, all);
          return true, seen, best, frontier, all;
        }
        frontier := frontier + [impact.ToHop(nxt)];
      }
      i := i + 1;
    }
    exceeded := false;
  }

  /** Everything causally downstream of the root, each with its strongest path. */
  method Dependents(q: Query, maxNodes: int) returns (r: Outcome)
    requires StoredEdges(q.edges)
    ensures r.InvalidArguments? <==> !ValidArguments(q, maxNodes)
    ensures !r.InvalidArguments? ==> (r.BudgetExceeded? <==> |Qualifying(q)| > maxNodes)
    ensures r.Found? ==> r.best.Keys == Qualifying(q)
    ensures r.Found? ==> forall n :: n in r.best ==> IsStrongest(q, n, r.best[n])
  {
    if !ValidArguments(q, maxNodes) {
      return InvalidArguments;
    }
    var seen := map[q.root := 1.0];
    var best: map<string, Impact> := map[];
    var frontier := [Origin(q)];
    ghost var all := {Origin(q)};
    ghost var layer: nat, k: nat := 0, 1;
    Started(q);
    while frontier != []
      invariant Searching(q, seen, best, all, layer, k, frontier)
      invariant |best| <= maxNodes
      decreases q.maxDepth - layer, k
    {
      Taken(q, seen, best, all, layer, k, frontier);
      var cur := frontier[0];
      frontier, k := frontier[1..], k - 1;
      if cur.depth < q.maxDepth {
        var exceeded;
        exceeded, seen, best, frontier, all := Expand(q, maxNodes, cur, seen, best, frontier, all, k);
        if exceeded {
          return BudgetExceeded;
        }
        Left(q, seen, best, all, cur, k, frontier, InEdges(q.edges, cur.node, q.weights.Keys));
      }
      layer, k := NextLayer(q, seen, best, all, layer, k, frontier);
    }
    Finished(q, seen, best, all, layer, k);
    r := Found(best);
  }
}
