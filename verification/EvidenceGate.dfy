/**
 What a pending invalidation can change about the fires after it. One that cites trigger
 evidence is derived from that evidence, so a later traversal that reaches the evidence
 comes across it. Fires whose traversals do not reach it are exactly what they would be
 without it; a fire whose traversal does is not.
 */
module EvidenceGate {
  import opened Options
  import opened Invalidation
  import opened InvalidationEngine
  import opened HumanGate
  import T = Traversal

  // ------------------------------------------------------ one more leaf in a traversal

  /** The second edge set has more edges than the first only out of `p`, and none into it. */
  ghost predicate AddsLeaf(edges: seq<T.Edge>, more: seq<T.Edge>, p: string) {
    && (forall e :: e in edges ==> e in more && e.src != p)
    && (forall e :: e in more ==> e.dst != p && (e in edges || e.src == p))
  }

  lemma {:induction false} OldWalks(q: T.Query, more: seq<T.Edge>, p: string, w: T.Walk)
    requires AddsLeaf(q.edges, more, p) && p != q.root && T.IsWalk(q, w)
    ensures var q' := q.(edges := more);
      w.End(q.root) != p && T.IsWalk(q', w) && T.Product(q', w) == T.Product(q, w)
  {
    if w.Start? {
    } else {
      OldWalks(q, more, p, w.prefix);
    }
  }

  lemma {:induction false} NewWalks(q: T.Query, more: seq<T.Edge>, p: string, w: T.Walk)
    requires AddsLeaf(q.edges, more, p) && p != q.root && T.IsWalk(q.(edges := more), w)
    ensures w.End(q.root) != p ==> T.IsWalk(q, w)
    ensures w.End(q.root) == p ==> w.Then? && T.IsWalk(q, w.prefix)
  {
    if w.Start? {
    } else {
      NewWalks(q, more, p, w.prefix);
    }
  }

  lemma LeafQualifies(q: T.Query, more: seq<T.Edge>, p: string, n: string)
    requires AddsLeaf(q.edges, more, p) && p != q.root && n != p
    ensures T.Qualifies(q.(edges := more), n) <==> T.Qualifies(q, n)
  {
    var q' := q.(edges := more);
    if T.Qualifies(q, n) {
      var w :| T.Admissible(q, w) && w.End(q.root) == n;
      OldWalks(q, more, p, w);
      assert T.Admissible(q', w);
    }
    if T.Qualifies(q', n) {
      var w :| T.Admissible(q', w) && w.End(q.root) == n;
      NewWalks(q, more, p, w);
      OldWalks(q, more, p, w);
      assert T.Admissible(q, w);
    }
  }

  lemma LeafAbsent(q: T.Query, more: seq<T.Edge>, p: string)
    requires AddsLeaf(q.edges, more, p) && p != q.root
    ensures !T.Qualifies(q, p)
  {
    if T.Qualifies(q, p) {
      var w :| T.Admissible(q, w) && w.End(q.root) == p;
      OldWalks(q, more, p, w);
    }
  }

  /** The nodes reached are the same, but for the leaf. */
  lemma QualifyingLeaf(q: T.Query, more: seq<T.Edge>, p: string)
    requires AddsLeaf(q.edges, more, p) && p != q.root
    ensures var q' := q.(edges := more);
      && p !in T.Qualifying(q)
      && T.Qualifying(q') == T.Qualifying(q) + if T.Qualifies(q', p) then {p} else {}
  {
    var q' := q.(edges := more);
    LeafAbsent(q, more, p);
    T.QualifyingComplete(q, p);
    forall n
      ensures n in T.Qualifying(q') <==> n in T.Qualifying(q) || (n == p && T.Qualifies(q', p))
    {
      T.QualifyingComplete(q, n);
      T.QualifyingComplete(q', n);
      if n != p {
        LeafQualifies(q, more, p, n);
      }
    }
  }

  lemma LeafCounts(q: T.Query, more: seq<T.Edge>, p: string)
    requires AddsLeaf(q.edges, more, p) && p != q.root
    ensures var q' := q.(edges := more);
      |T.Qualifying(q')| == |T.Qualifying(q)| + if T.Qualifies(q', p) then 1 else 0
  {
    QualifyingLeaf(q, more, p);
  }

  lemma BehindLeaf(q: T.Query, more: seq<T.Edge>, p: string, w: T.Walk, h: T.Hop)
    requires AddsLeaf(q.edges, more, p) && p != q.root && h.node != p
    ensures T.Behind(q.(edges := more), w, h) <==> T.Behind(q, w, h)
  {
    if T.Behind(q, w, h) {
      OldWalks(q, more, p, w);
    }
    if T.Behind(q.(edges := more), w, h) {
      NewWalks(q, more, p, w);
      OldWalks(q, more, p, w);
    }
  }

  /** And so are their strongest paths. */
  lemma StrongestLeaf(q: T.Query, more: seq<T.Edge>, p: string, n: string, m: T.Impact)
    requires AddsLeaf(q.edges, more, p) && p != q.root && n != p
    ensures T.IsStrongest(q.(edges := more), n, m) <==> T.IsStrongest(q, n, m)
  {
    var q' := q.(edges := more);
    forall w
      ensures T.Behind(q', w, m.ToHop(n)) <==> T.Behind(q, w, m.ToHop(n))
      ensures T.IsWalk(q', w) && w.End(q.root) == n <==> T.IsWalk(q, w) && w.End(q.root) == n
      ensures T.IsWalk(q, w) ==> T.IsWalk(q', w) && T.Product(q', w) == T.Product(q, w)
    {
      BehindLeaf(q, more, p, w, m.ToHop(n));
      if T.IsWalk(q, w) { OldWalks(q, more, p, w); }
      if T.IsWalk(q', w) { NewWalks(q, more, p, w); }
    }
  }

  lemma StrongestDepLeaf(q: T.Query, more: seq<T.Edge>, p: string, d: Dep)
    requires AddsLeaf(q.edges, more, p) && p != q.root && d.node != p
    ensures StrongestDep(q.(edges := more), d) <==> StrongestDep(q, d)
  {
    var q' := q.(edges := more);
    if StrongestDep(q, d) {
      var m :| T.IsStrongest(q, d.node, m) && d.strength == m.strength && d.path == m.path;
      StrongestLeaf(q, more, p, d.node, m);
    }
    if StrongestDep(q', d) {
      var m :| T.IsStrongest(q', d.node, m) && d.strength == m.strength && d.path == m.path;
      StrongestLeaf(q, more, p, d.node, m);
    }
  }

  lemma ListAvoids(q: T.Query, deps: seq<Dep>, p: string)
    requires Strongest(q, deps) && p !in T.Qualifying(q)
    ensures Avoids(deps, p)
  {
    forall i | 0 <= i < |deps|
      ensures deps[i].node != p
    {
      assert deps[i].node in T.Qualifying(q);
    }
  }

  lemma ListedLeaf(q: T.Query, more: seq<T.Edge>, p: string, deps: seq<Dep>)
    requires AddsLeaf(q.edges, more, p) && p != q.root && !T.Qualifies(q.(edges := more), p)
    ensures Strongest(q.(edges := more), deps) <==> Strongest(q, deps)
    ensures Strongest(q, deps) ==> Avoids(deps, p)
  {
    var q' := q.(edges := more);
    QualifyingLeaf(q, more, p);
    if Strongest(q, deps) {
      ListAvoids(q, deps, p);
    }
    if Strongest(q', deps) {
      ListAvoids(q', deps, p);
    }
    if Avoids(deps, p) {
      forall i | 0 <= i < |deps|
        ensures StrongestDep(q', deps[i]) <==> StrongestDep(q, deps[i])
      {
        StrongestDepLeaf(q, more, p, deps[i]);
      }
    }
  }

  /** The traversal whose dependents a fire gets. */
  ghost function Answering(edges: seq<T.Edge>, target: string, maxDepth: int, maxNodes: int): T.Query {
    var full := T.Query(edges, T.PROPAGATION_EDGES, target, maxDepth, 0.0);
    if |T.Qualifying(full)| <= maxNodes then full else full.(maxDepth := 2)
  }

  /** With a leaf the answering traversal does not reach, a fire may learn exactly what it
      may learn without; with one it does reach, nothing that it may learn without. */
  lemma AnswersIff(
      edges: seq<T.Edge>, more: seq<T.Edge>, p: string, target: string, maxDepth: int, maxNodes: int,
      deps: seq<Dep>, truncated: bool)
    requires AddsLeaf(edges, more, p) && p != target
    ensures var found := Some((deps, truncated));
      var without := Answers(edges, target, maxDepth, maxNodes, found);
      var with := Answers(more, target, maxDepth, maxNodes, found);
      if T.Qualifies(Answering(edges, target, maxDepth, maxNodes).(edges := more), p) then !(without && with)
      else (with <==> without) && (without ==> Avoids(deps, p))
  {
    var near := T.Query(edges, T.PROPAGATION_EDGES, target, 2, 0.0);
    var full := near.(maxDepth := maxDepth);
    LeafCounts(near, more, p);
    LeafCounts(full, more, p);
    var q := Answering(edges, target, maxDepth, maxNodes);
    if T.Qualifies(q.(edges := more), p) {
      LeafSeparates(q, more, p, deps);
    } else {
      ListedLeaf(q, more, p, deps);
    }
  }

  lemma LeafSeparates(q: T.Query, more: seq<T.Edge>, p: string, deps: seq<Dep>)
    requires AddsLeaf(q.edges, more, p) && p != q.root && T.Qualifies(q.(edges := more), p)
    ensures !(Strongest(q, deps) && Strongest(q.(edges := more), deps))
  {
    QualifyingLeaf(q, more, p);
    assert p in T.Qualifying(q.(edges := more)) && p !in T.Qualifying(q);
  }

  /** A walk short enough to be extended by one edge, and strong enough for one from cited
      evidence, ends in the node. */
  ghost predicate Reaches(q: T.Query, node: string) {
    exists w :: ReachedBy(q, node, w)
  }

  ghost predicate ReachedBy(q: T.Query, node: string, w: T.Walk) {
    && T.IsWalk(q, w) && w.End(q.root) == node && w.Length() < q.maxDepth
    && T.DerivedFrom in q.weights && T.Product(q, w) * q.weights[T.DerivedFrom] * 1.0 >= q.minStrength
  }

  /** The traversal comes across what is derived from evidence exactly when it reaches the
      evidence with an edge to spare. */
  lemma LeafReached(q: T.Query, more: seq<T.Edge>, p: string, evidence: string)
    requires AddsLeaf(q.edges, more, p) && p != q.root
    requires forall e :: e in more && e.src == p <==> e == T.Edge(p, evidence, T.DerivedFrom, 1.0)
    ensures T.Qualifies(q.(edges := more), p) <==> Reaches(q, evidence)
  {
    var q' := q.(edges := more);
    var leaf := T.Edge(p, evidence, T.DerivedFrom, 1.0);
    if T.Qualifies(q', p) {
      var w :| T.Admissible(q', w) && w.End(q.root) == p;
      NewWalks(q, more, p, w);
      OldWalks(q, more, p, w.prefix);
      assert w.edge == leaf;
      assert ReachedBy(q, evidence, w.prefix);
    }
    if Reaches(q, evidence) {
      var w :| ReachedBy(q, evidence, w);
      OldWalks(q, more, p, w);
      assert leaf in more;
      assert T.Admissible(q', T.Then(w, leaf));
    }
  }

  lemma LeafMissing(q: T.Query, p: string)
    requires p != q.root && forall e :: e in q.edges ==> e.src != p
    ensures !T.Qualifies(q, p)
  {
    T.QualifyingComplete(q, p);
  }

  // ------------------------------------------------------------------ the edges of a state

  /** The propagation edges from invalidations to the evidence they cite. */
  ghost function EvidenceEdges(links: set<Link>): (r: seq<T.Edge>)
    ensures forall e :: e in r <==>
      e.kind == T.DerivedFrom && e.strength == 1.0 && Link(LinkDerivedFrom, e.src, e.dst) in links
    ensures forall i, j :: 0 <= i < j < |r| ==> r[i] != r[j]
  {
    if links == {} then []
    else
      var l :| l in links;
      EvidenceEdges(links - {l}) + if l.kind.LinkDerivedFrom? then [T.Edge(l.src, l.dst, T.DerivedFrom, 1.0)] else []
  }

  /** A step, and the project's other propagation edges at that moment. */
  datatype Move = Move(step: Step, edges: seq<T.Edge>)

  function Steps(moves: seq<Move>): seq<Step> {
    if moves == [] then [] else Steps(moves[..|moves| - 1]) + [moves[|moves| - 1].step]
  }

  /** The bounds of the traversals. */
  datatype Limits = Limits(maxDepth: int, maxNodes: int)

  /** A fire carries what its traversal of the graph of this state may answer. */
  ghost predicate Grounded(s: State, m: Move, b: Limits) {
    m.step.DoFire? && m.step.r.target in s.nodes ==>
      var r := m.step.r;
      Answers(m.edges + EvidenceEdges(s.links), r.target, b.maxDepth, b.maxNodes, Some((r.deps, r.truncated)))
  }

  /** The engine can make these moves from this state. */
  ghost predicate GroundedRun(s: State, moves: seq<Move>, b: Limits) {
    moves == [] ||
    var front, last := moves[..|moves| - 1], moves[|moves| - 1];
    GroundedRun(s, front, b) && Grounded(Run(s, Steps(front)), last, b)
  }

  /** A fire whose traversal, in the graph of this state, reaches the evidence. */
  ghost predicate Comes(s: State, m: Move, evidence: Option<string>, b: Limits) {
    && m.step.DoFire? && m.step.r.target in s.nodes && evidence.Some?
    && Reaches(
         Answering(m.edges + EvidenceEdges(s.links), m.step.r.target, b.maxDepth, b.maxNodes), evidence.value)
  }

  /** No fire of the run does. */
  ghost predicate Clear(s: State, moves: seq<Move>, evidence: Option<string>, b: Limits) {
    moves == [] ||
    var front, last := moves[..|moves| - 1], moves[|moves| - 1];
    Clear(s, front, evidence, b) && !Comes(Run(s, Steps(front)), last, evidence, b)
  }

  /** The move neither accepts the invalidation nor reuses its identifier, and no other
      propagation edge touches it. */
  ghost predicate Apart(m: Move, id: string) {
    && (match m.step
        case DoFire(r) => r.id != id
        case DoConfirm(x, accept) => x != id || !accept
        case DoResolve(_, _, _) => true)
    && forall e :: e in m.edges ==> e.src != id && e.dst != id
  }

  // ----------------------------------------------------- with and without, side by side

  /** Cited evidence is a node. */
  ghost predicate EvidenceKnown(s: State) {
    forall l :: l in s.links && l.kind == LinkDerivedFrom ==> l.dst in s.nodes
  }

  lemma EvidenceStaysKnown(s: State, step: Step)
    requires Sound(s) && EvidenceKnown(s)
    ensures EvidenceKnown(Apply(s, step))
  {
    ApplyOnlyStatuses(s, step);
  }

  lemma {:induction false} RunEvidenceKnown(nodes: map<string, Node>, steps: seq<Step>)
    ensures EvidenceKnown(Run(Start(nodes), steps))
  {
    if steps == [] {
    } else {
      RunSound(nodes, steps[..|steps| - 1]);
      RunEvidenceKnown(nodes, steps[..|steps| - 1]);
      EvidenceStaysKnown(Run(Start(nodes), steps[..|steps| - 1]), steps[|steps| - 1]);
    }
  }

  /** What a state with the sleeping invalidation has besides the state without it. */
  ghost predicate Shadows(u: State, id: string, evidence: Option<string>) {
    && Sound(u) && Dormant(u, id) && EvidenceKnown(u) && id !in u.nodes && OwnEvidence(u.links, id, evidence)
  }

  ghost predicate OwnEvidence(links: set<Link>, id: string, evidence: Option<string>) {
    forall l :: l in links && l.src == id && l.kind == LinkDerivedFrom <==>
      evidence.Some? && l == Link(LinkDerivedFrom, id, evidence.value)
  }

  lemma OwnEvidenceStays(u: State, id: string, evidence: Option<string>, step: Step)
    requires OwnEvidence(u.links, id, evidence) && Unaccepting(step, id)
    ensures OwnEvidence(Apply(u, step).links, id, evidence)
  {
    var t := Apply(u, step);
    assert forall l: Link :: l.src == id ==> (l in t.links <==> l in u.links);
  }

  /** A fire's traversal learns the same with and without it, or nothing that both allow. */
  lemma GroundedIff(u: State, id: string, evidence: Option<string>, m: Move, b: Limits)
    requires Shadows(u, id, evidence) && Apart(m, id)
    ensures var v := Without(u, id);
      if Comes(v, m, evidence, b) then !(Grounded(u, m, b) && Grounded(v, m, b))
      else
        && (Grounded(u, m, b) <==> Grounded(v, m, b))
        && (Grounded(v, m, b) && m.step.DoFire? && m.step.r.target in u.nodes ==> Avoids(m.step.r.deps, id))
  {
    var v := Without(u, id);
    if m.step.DoFire? && m.step.r.target in u.nodes {
      var r := m.step.r;
      var edges, more := m.edges + EvidenceEdges(v.links), m.edges + EvidenceEdges(u.links);
      assert AddsLeaf(edges, more, id);
      var q := Answering(edges, r.target, b.maxDepth, b.maxNodes);
      AnswersIff(edges, more, id, r.target, b.maxDepth, b.maxNodes, r.deps, r.truncated);
      if evidence.Some? {
        LeafReached(q, more, id, evidence.value);
      } else {
        LeafMissing(q.(edges := more), id);
      }
    }
  }

  lemma ShadowsOn(u: State, id: string, evidence: Option<string>, step: Step)
    requires Shadows(u, id, evidence) && Unaccepting(step, id)
    ensures Shadows(Apply(u, step), id, evidence) && Without(Apply(u, step), id) == Apply(Without(u, id), step)
  {
    ApplyKeepsSound(u, step);
    ApplyWithout(u, id, step);
    EvidenceStaysKnown(u, step);
    ApplyOnlyStatuses(u, step);
    OwnEvidenceStays(u, id, evidence, step);
  }

  /** A move that does not come across it can be made with it exactly when it can be made
      without it, and does the same. A fire at a node that does not exist changes nothing. */
  lemma MovesTogether(u: State, id: string, evidence: Option<string>, m: Move, b: Limits)
    requires Shadows(u, id, evidence) && Apart(m, id) && !Comes(Without(u, id), m, evidence, b)
    ensures Grounded(u, m, b) <==> Grounded(Without(u, id), m, b)
    ensures Grounded(u, m, b) ==>
      Shadows(Apply(u, m.step), id, evidence) && Without(Apply(u, m.step), id) == Apply(Without(u, id), m.step)
  {
    GroundedIff(u, id, evidence, m, b);
    if Grounded(u, m, b) {
      if m.step.DoFire? && m.step.r.target !in u.nodes {
        assert Apply(u, m.step) == u;
      } else {
        ShadowsOn(u, id, evidence, m.step);
      }
    }
  }

  lemma RunSteps(s: State, moves: seq<Move>)
    requires moves != []
    ensures Run(s, Steps(moves)) == Apply(Run(s, Steps(moves[..|moves| - 1])), moves[|moves| - 1].step)
  {
    assert Steps(moves)[..|Steps(moves)| - 1] == Steps(moves[..|moves| - 1]);
  }

  lemma {:induction false} RunsTogether(u: State, id: string, evidence: Option<string>, moves: seq<Move>, b: Limits)
    requires Shadows(u, id, evidence) && forall i :: 0 <= i < |moves| ==> Apart(moves[i], id)
    requires Clear(Without(u, id), moves, evidence, b)
    ensures GroundedRun(u, moves, b) <==> GroundedRun(Without(u, id), moves, b)
    ensures GroundedRun(u, moves, b) ==>
      var t := Run(u, Steps(moves));
      Shadows(t, id, evidence) && Without(t, id) == Run(Without(u, id), Steps(moves))
  {
    if moves == [] {
    } else {
      var front, last := moves[..|moves| - 1], moves[|moves| - 1];
      RunsTogether(u, id, evidence, front, b);
      if GroundedRun(u, front, b) {
        MovesTogether(Run(u, Steps(front)), id, evidence, last, b);
        RunSteps(u, moves);
        RunSteps(Without(u, id), moves);
      }
    }
  }

  lemma FiredShadows(nodes: map<string, Node>, history: seq<Step>, r: Request)
    requires var s := Run(Start(nodes), history);
      Legal(s, DoFire(r)) && Fire(s, r).Done? && RequiresHuman(r, s.nodes[r.target])
    ensures var s := Run(Start(nodes), history);
      var u := Apply(s, DoFire(r));
      Gated(s, r) && Shadows(u, r.id, r.evidence) && Without(u, r.id) == s
  {
    var s := Run(Start(nodes), history);
    FreshIsUnnamed(nodes, history, r);
    FiredIsDormant(s, r);
    RunEvidenceKnown(nodes, history);
    EvidenceStaysKnown(s, DoFire(r));
    ApplyOnlyStatuses(s, DoFire(r));
  }

  // ---------------------------------------------------------------------- the theorems

  /** From any reachable state, after any fire that goes behind the gate: as long as no
      later fire's traversal reaches the evidence it cites, if it cites any, the engine can
      make exactly the moves it could make without it, its rejection among them, and they
      have exactly the effect they would have had. */
  lemma InvisibleUnlessReached(
      nodes: map<string, Node>, history: seq<Step>, r: Request, moves: seq<Move>, b: Limits)
    requires var s := Run(Start(nodes), history);
      && Legal(s, DoFire(r)) && Fire(s, r).Done? && RequiresHuman(r, s.nodes[r.target])
      && Clear(s, moves, r.evidence, b)
    requires forall i :: 0 <= i < |moves| ==> Apart(moves[i], r.id)
    ensures var s := Run(Start(nodes), history);
      var u := Apply(s, DoFire(r));
      && (GroundedRun(u, moves, b) <==> GroundedRun(s, moves, b))
      && (GroundedRun(s, moves, b) ==> Without(Run(u, Steps(moves)), r.id) == Run(s, Steps(moves)))
  {
    FiredShadows(nodes, history, r);
    RunsTogether(Apply(Run(Start(nodes), history), DoFire(r)), r.id, r.evidence, moves, b);
  }

  /** The condition is exact: at the first later fire whose traversal reaches the evidence,
      nothing that fire may learn is what it may learn without the pending invalidation. */
  lemma ReachedIsSeen(
      nodes: map<string, Node>, history: seq<Step>, r: Request, moves: seq<Move>, m: Move, b: Limits)
    requires var s := Run(Start(nodes), history);
      && Legal(s, DoFire(r)) && Fire(s, r).Done? && RequiresHuman(r, s.nodes[r.target])
      && Clear(s, moves, r.evidence, b) && GroundedRun(s, moves, b)
    requires Apart(m, r.id) && forall i :: 0 <= i < |moves| ==> Apart(moves[i], r.id)
    ensures var s := Run(Start(nodes), history);
      var with, without := Run(Apply(s, DoFire(r)), Steps(moves)), Run(s, Steps(moves));
      if Comes(without, m, r.evidence, b) then !(Grounded(with, m, b) && Grounded(without, m, b))
      else Grounded(with, m, b) <==> Grounded(without, m, b)
  {
    var s := Run(Start(nodes), history);
    FiredShadows(nodes, history, r);
    RunsTogether(Apply(s, DoFire(r)), r.id, r.evidence, moves, b);
    GroundedIff(Run(Apply(s, DoFire(r)), Steps(moves)), r.id, r.evidence, m, b);
  }

  // ------------------------------------------------------------------- a leak, in full

  /** All edges lead into the root. */
  ghost predicate Star(q: T.Query) {
    forall e :: e in q.edges ==> e.dst == q.root && e.src != q.root
  }

  lemma StarWalks(q: T.Query, w: T.Walk)
    requires Star(q) && T.IsWalk(q, w)
    ensures w.Start? || w.prefix.Start?
  {
    if w.Then? && w.prefix.Then? {
      assert w.edge in q.edges && w.prefix.edge in q.edges;
    }
  }

  /** In a star the strongest path to a node is its one edge. */
  lemma StarStrongest(q: T.Query, e: T.Edge)
    requires Star(q) && e in q.edges && e.kind in q.weights && q.maxDepth >= 1 && q.minStrength == 0.0
    requires 0.0 <= q.weights[e.kind] && e.strength == 1.0
    requires forall d :: d in q.edges && d.src == e.src ==> d == e
    ensures StrongestDep(q, Dep(e.src, q.weights[e.kind], [q.root, e.src])) && T.Qualifies(q, e.src)
  {
    var w := T.Walk.Then(T.Walk.Start, e);
    var m := T.Impact(1, q.weights[e.kind], [q.root, e.src], e.kind);
    var start := T.Walk.Start;
    assert start.Trail(q.root) == [q.root] && start.End(q.root) == q.root && start.Length() == 0;
    assert T.IsWalk(q, start) && T.Product(q, start) == 1.0;
    assert T.IsWalk(q, w) && T.Product(q, w) == m.strength && w.Length() == 1 && w.Trail(q.root) == m.path;
    assert T.Behind(q, w, m.ToHop(e.src));
    forall v | T.IsWalk(q, v) && v.End(q.root) == e.src
      ensures v == w
    {
      StarWalks(q, v);
    }
    assert T.IsStrongest(q, e.src, m);
  }

  /** One dependent per edge, by that edge. */
  ghost predicate PerEdge(edges: seq<T.Edge>, root: string, deps: seq<Dep>) {
    && |edges| == |deps|
    && (forall i :: 0 <= i < |edges| ==> FromEdge(edges[i], root, deps[i]))
    && (forall i, j :: 0 <= i < j < |edges| ==> edges[i].src != edges[j].src)
  }

  ghost predicate FromEdge(e: T.Edge, root: string, d: Dep) {
    && e.dst == root != e.src && e.strength == 1.0 && e.kind in T.PROPAGATION_EDGES
    && d == Dep(e.src, T.PROPAGATION_EDGES[e.kind], [root, e.src])
  }

  lemma StarListed(q: T.Query, deps: seq<Dep>)
    requires PerEdge(q.edges, q.root, deps) && q.weights == T.PROPAGATION_EDGES
    requires q.maxDepth >= 1 && q.minStrength == 0.0
    ensures Strongest(q, deps) && |T.Qualifying(q)| <= |deps|
  {
    forall e | e in q.edges
      ensures exists i :: 0 <= i < |deps| && q.edges[i] == e && FromEdge(e, q.root, deps[i])
    {
    }
    forall i | 0 <= i < |deps|
      ensures StrongestDep(q, deps[i]) && deps[i].node in T.Qualifying(q)
    {
      assert FromEdge(q.edges[i], q.root, deps[i]);
      StarStrongest(q, q.edges[i]);
      T.QualifyingComplete(q, q.edges[i].src);
    }
    SourcesFew(q.edges);
    T.SubsetSize(T.Qualifying(q), Sources(q.edges));
  }

  /** A list of one dependent per edge answers for a star within the budget. */
  lemma StarAnswers(edges: seq<T.Edge>, root: string, deps: seq<Dep>, b: Limits)
    requires PerEdge(edges, root, deps) && b.maxDepth >= 1 && |deps| <= b.maxNodes
    ensures Answers(edges, root, b.maxDepth, b.maxNodes, Some((deps, false)))
  {
    StarListed(T.Query(edges, T.PROPAGATION_EDGES, root, b.maxDepth, 0.0), deps);
    forall i | 0 <= i < |deps|
      ensures deps[i].node == edges[i].src && deps[i].path == [root, edges[i].src] && root != edges[i].src
    {
      assert FromEdge(edges[i], root, deps[i]);
    }
  }

  function Sources(edges: seq<T.Edge>): set<string> {
    set e | e in edges :: e.src
  }

  lemma {:induction false} SourcesFew(edges: seq<T.Edge>)
    ensures |Sources(edges)| <= |edges|
  {
    if edges == [] {
    } else {
      var front, last := edges[..|edges| - 1], edges[|edges| - 1];
      SourcesFew(front);
      assert edges == front + [last];
      assert Sources(edges) == Sources(front) + {last.src};
    }
  }

  function Edges(e: string, names: seq<string>): seq<T.Edge> {
    if names == [] then []
    else Edges(e, names[..|names| - 1]) + [T.Edge(names[|names| - 1], e, T.DependsOn, 1.0)]
  }

  function Deps(e: string, names: seq<string>): seq<Dep> {
    if names == [] then []
    else Deps(e, names[..|names| - 1]) + [Dep(names[|names| - 1], 0.9, [e, names[|names| - 1]])]
  }

  lemma {:induction false} EdgesAt(e: string, names: seq<string>)
    ensures |Edges(e, names)| == |Deps(e, names)| == |names|
    ensures forall i :: 0 <= i < |names| ==>
      && Edges(e, names)[i] == T.Edge(names[i], e, T.DependsOn, 1.0)
      && Deps(e, names)[i] == Dep(names[i], 0.9, [e, names[i]])
  {
    if names == [] {
    } else {
      EdgesAt(e, names[..|names| - 1]);
    }
  }

  /** Evidence with nine dependents, none of them the invalidation to come. */
  ghost predicate Nine(nodes: map<string, Node>, e: string, t: string, names: seq<string>) {
    && |names| == 9 && (forall i, j :: 0 <= i < j < |names| ==> names[i] != names[j])
    && (forall i :: 0 <= i < |names| ==> names[i] in nodes && names[i] != e)
    && e in nodes && nodes[e] == Node(OtherKind("evidence"), Some(Active), None, true)
    && t in nodes && t != e && "p" !in nodes && "b" !in nodes
  }

  /** A gated fire that cites `e`. */
  function Citing(e: string, t: string): Request {
    Request("p", t, [], false, 0.9, Some(true), Some(e))
  }

  /** A later fire on `e`, of too little confidence to affect ten nodes unseen. */
  function Later(e: string, deps: seq<Dep>): Request {
    Request("b", e, deps, false, 0.5, None, None)
  }

  /** The state after it, and after its rejection. */
  function Cited(nodes: map<string, Node>, e: string, t: string, status: InvStatus): State
    requires t in nodes
  {
    State(
      nodes, [Inv("p", status, TargetReceipt(Start(nodes), t), [])],
      {Link(LinkInvalidates, "p", t), Link(LinkDerivedFrom, "p", e)})
  }

  lemma CitingFired(nodes: map<string, Node>, e: string, t: string)
    requires e in nodes && nodes[e] == Node(OtherKind("evidence"), Some(Active), None, true)
    requires t in nodes && "p" !in nodes
    ensures Apply(Start(nodes), DoFire(Citing(e, t))) == Cited(nodes, e, t, IsPending)
  {
    var s, r := Start(nodes), Citing(e, t);
    assert AffectsLinks("p", []) == {} && Receipts(s, r, true, []) == [];
    assert FireLinks(s, r, []) == Cited(nodes, e, t, IsPending).links;
  }

  lemma CitingRejected(nodes: map<string, Node>, e: string, t: string)
    requires t in nodes
    ensures Apply(Cited(nodes, e, t, IsPending), DoConfirm("p", false)) == Cited(nodes, e, t, IsRejected)
  {
    var u := Cited(nodes, e, t, IsPending);
    assert u.invs[..0] + u.invs[1..] == [] && Find(u.invs, "p") == Some(0);
    assert Preflight(u, u.invs[0]);
    RejectInert(u, "p");
  }

  lemma LaterLegal(s: State, e: string, deps: seq<Dep>)
    requires e in s.nodes && "b" !in s.nodes && TraversalResult(e, deps)
    requires forall i :: 0 <= i < |s.invs| ==> s.invs[i].id != "b"
    requires forall l :: l in s.links ==> l.src != "b"
    requires s.nodes[e] == Node(OtherKind("evidence"), Some(Active), None, true)
    ensures |deps| >= 10 ==> Apply(s, DoFire(Later(e, deps))).nodes == s.nodes
    ensures |deps| < 10 ==>
      var t := Apply(s, DoFire(Later(e, deps)));
      e in t.nodes && t.nodes[e].status == Some(Invalidated)
  {
    var r := Later(e, deps);
    if |deps| < 10 {
      var cs := Receipts(s, r, false, deps);
      ReceiptsBound(s, r, false, deps);
      assert forall i :: 0 <= i < |cs| ==> ReceiptBound(s, e, cs[i]);
      ApplyAllStatus(ApplyTarget(s.nodes, TargetReceipt(s, e)).0, cs, e);
    }
  }

  lemma OnePerEdge(e: string, names: seq<string>)
    requires forall i, j :: 0 <= i < j < |names| ==> names[i] != names[j]
    requires forall i :: 0 <= i < |names| ==> names[i] != e
    ensures PerEdge(Edges(e, names), e, Deps(e, names))
  {
    EdgesAt(e, names);
  }

  lemma CitedGrounds(nodes: map<string, Node>, e: string, t: string, names: seq<string>, status: InvStatus, b: Limits)
    requires Nine(nodes, e, t, names) && b.maxDepth >= 1 && b.maxNodes >= 10
    ensures var with := Later(e, Deps(e, names) + [Dep("p", 0.8, [e, "p"])]);
      Grounded(Cited(nodes, e, t, status), Move(DoFire(with), Edges(e, names)), b)
  {
    var leaf := T.Edge("p", e, T.DerivedFrom, 1.0);
    var more := Edges(e, names) + EvidenceEdges(Cited(nodes, e, t, status).links);
    OneEvidenceEdge(Cited(nodes, e, t, status).links, "p", e);
    OnePerEdge(e, names);
    EdgesAt(e, names);
    assert FromEdge(leaf, e, Dep("p", 0.8, [e, "p"]));
    StarAnswers(Edges(e, names) + [leaf], e, Deps(e, names) + [Dep("p", 0.8, [e, "p"])], b);
  }

  lemma OneEvidenceEdge(links: set<Link>, p: string, e: string)
    requires forall l :: l in links && l.kind == LinkDerivedFrom <==> l == Link(LinkDerivedFrom, p, e)
    ensures EvidenceEdges(links) == [T.Edge(p, e, T.DerivedFrom, 1.0)]
  {
    var r := EvidenceEdges(links);
    assert T.Edge(p, e, T.DerivedFrom, 1.0) in r;
    forall i | 0 <= i < |r|
      ensures i == 0 && r[i] == T.Edge(p, e, T.DerivedFrom, 1.0)
    {
      assert r[i] in r && r[0] in r;
      assert Link(LinkDerivedFrom, r[i].src, r[i].dst) in links && Link(LinkDerivedFrom, r[0].src, r[0].dst) in links;
      assert r[i] == r[0];
    }
  }

  lemma UncitedGrounds(nodes: map<string, Node>, e: string, t: string, names: seq<string>, b: Limits)
    requires Nine(nodes, e, t, names) && b.maxDepth >= 1 && b.maxNodes >= 10
    ensures Grounded(Start(nodes), Move(DoFire(Later(e, Deps(e, names))), Edges(e, names)), b)
    ensures Grounded(Start(nodes), Move(DoFire(Citing(e, t)), Edges(e, names)), b)
  {
    var edges := Edges(e, names);
    assert edges + EvidenceEdges({}) == edges;
    OnePerEdge(e, names);
    EdgesAt(e, names);
    StarAnswers(edges, e, Deps(e, names), b);
    NoDependents(edges, t, b);
  }

  lemma NoDependents(edges: seq<T.Edge>, root: string, b: Limits)
    requires (forall e :: e in edges ==> e.dst != root) && b.maxNodes >= 0
    ensures Answers(edges, root, b.maxDepth, b.maxNodes, Some(([], false)))
  {
    var q := T.Query(edges, T.PROPAGATION_EDGES, root, b.maxDepth, 0.0);
    forall n
      ensures n !in T.Qualifying(q)
    {
      T.QualifyingComplete(q, n);
      if T.Qualifies(q, n) {
        var w :| T.Admissible(q, w) && w.End(root) == n;
        FirstEdge(q, w);
      }
    }
    assert T.Qualifying(q) == {};
  }

  lemma {:induction false} FirstEdge(q: T.Query, w: T.Walk)
    requires T.IsWalk(q, w) && forall e :: e in q.edges ==> e.dst != q.root
    ensures w.Start?
  {
    if w.Start? {
    } else {
      FirstEdge(q, w.prefix);
    }
  }

  /** The leak: a gated fire cites evidence that nine nodes depend on, and a later fire
      contradicts that evidence with little confidence. Without the first, nine dependents
      are few enough to invalidate the evidence at once. With it, waiting or rejected, the
      traversal finds a tenth, and the later fire goes behind the gate and changes nothing. */
  lemma TenthDependentLeaks(nodes: map<string, Node>, e: string, t: string, names: seq<string>, b: Limits)
    requires Nine(nodes, e, t, names) && b.maxDepth >= 1 && b.maxNodes >= 10
    ensures var s := Start(nodes);
      var without, with := Later(e, Deps(e, names)), Later(e, Deps(e, names) + [Dep("p", 0.8, [e, "p"])]);
      var u := Apply(s, DoFire(Citing(e, t)));
      var v := Apply(u, DoConfirm("p", false));
      && Grounded(s, Move(DoFire(Citing(e, t)), Edges(e, names)), b)
      && Grounded(s, Move(DoFire(without), Edges(e, names)), b)
      && Grounded(u, Move(DoFire(with), Edges(e, names)), b)
      && Grounded(v, Move(DoFire(with), Edges(e, names)), b)
      && e in Apply(s, DoFire(without)).nodes && Apply(s, DoFire(without)).nodes[e].status == Some(Invalidated)
      && Apply(u, DoFire(with)).nodes == Apply(v, DoFire(with)).nodes == nodes
  {
    CitingFired(nodes, e, t);
    CitingRejected(nodes, e, t);
    UncitedGrounds(nodes, e, t, names, b);
    CitedGrounds(nodes, e, t, names, IsPending, b);
    CitedGrounds(nodes, e, t, names, IsRejected, b);
    UncitedInvalidates(nodes, e, t, names);
    CitedWaits(nodes, e, t, names, IsPending);
    CitedWaits(nodes, e, t, names, IsRejected);
  }

  lemma UncitedInvalidates(nodes: map<string, Node>, e: string, t: string, names: seq<string>)
    requires Nine(nodes, e, t, names)
    ensures var after := Apply(Start(nodes), DoFire(Later(e, Deps(e, names))));
      e in after.nodes && after.nodes[e].status == Some(Invalidated)
  {
    EdgesAt(e, names);
    LaterLegal(Start(nodes), e, Deps(e, names));
  }

  lemma CitedWaits(nodes: map<string, Node>, e: string, t: string, names: seq<string>, status: InvStatus)
    requires Nine(nodes, e, t, names)
    ensures var with := Later(e, Deps(e, names) + [Dep("p", 0.8, [e, "p"])]);
      Apply(Cited(nodes, e, t, status), DoFire(with)).nodes == nodes
  {
    EdgesAt(e, names);
    LaterLegal(Cited(nodes, e, t, status), e, Deps(e, names) + [Dep("p", 0.8, [e, "p"])]);
  }
}
