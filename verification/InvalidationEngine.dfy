/**
 The engine that owns the nodes, the invalidations and their edges, and changes them
 in place. Each operation is proved against the functions of `Invalidation`, whose
 lemmas then speak of every run of the engine.
 */
module InvalidationEngine {
  import opened Options
  import opened Invalidation
  import T = Traversal

  class Engine {
    var nodes: map<string, Node>
    var invs: seq<Inv>
    var links: set<Link>

    ghost function Value(): State
      reads this
    {
      State(nodes, invs, links)
    }

    constructor (start: map<string, Node>)
      ensures Value() == Start(start)
    {
      nodes, invs, links := start, [], {};
    }

    /** Everything an open invalidation other than this one constrains. */
    method NodesHeldByOthers(id: string) returns (held: set<string>)
      ensures forall n :: n in held <==> HeldByOthers(Value(), id, n)
    {
      held := {};
      var i := 0;
      while i < |invs|
        invariant i <= |invs|
        invariant forall n :: n in held <==> HeldByOthers(Value().(invs := invs[..i]), id, n)
      {
        ghost var before := held;
        if invs[i].status == IsOpen && invs[i].id != id {
          var j := 0;
          while j < |invs[i].affected|
            invariant j <= |invs[i].affected|
            invariant forall n :: n in held <==>
              n in before ||
              exists k :: 0 <= k < j && invs[i].affected[k].node == n && Holding(invs[i].affected[k].impact)
          {
            if Holding(invs[i].affected[j].impact) {
              held := held + {invs[i].affected[j].node};
            }
            j := j + 1;
          }
          held := held + {invs[i].target.node};
        }
        assert forall n :: n in held <==> n in before || (invs[i].id != id && Holds(invs[i], n));
        forall n
          ensures n in held <==> HeldByOthers(Value().(invs := invs[..i + 1]), id, n)
        {
        }
        i := i + 1;
      }
      assert invs[..i] == invs;
    }

    /** The status to restore that an open invalidation already carries for the node. */
    method HeldRestoreStatus(node: string, current: Option<Status>) returns (status: Option<Status>)
      ensures status == HeldRestore(invs, node, current)
    {
      var i := 0;
      while i < |invs|
        invariant i <= |invs|
        invariant HeldRestore(invs, node, current) == HeldRestore(invs[i..], node, current)
      {
        assert invs[i..][0] == invs[i] && invs[i..][1..] == invs[i + 1..];
        if invs[i].status == IsOpen {
          if invs[i].target.node == node {
            return invs[i].target.restore;
          }
          var j := 0;
          while j < |invs[i].affected|
            invariant j <= |invs[i].affected|
            invariant MentionIn(invs[i].affected, node) == MentionIn(invs[i].affected[j..], node)
          {
            assert invs[i].affected[j..][0] == invs[i].affected[j];
            assert invs[i].affected[j..][1..] == invs[i].affected[j + 1..];
            if invs[i].affected[j].node == node {
              return invs[i].affected[j].restore;
            }
            j := j + 1;
          }
        }
        i := i + 1;
      }
      return current;
    }

    /** Classifies the dependents that are nodes of this project. */
    method ClassifyAll(r: Request, human: bool) returns (classified: seq<Receipt>)
      ensures classified == Receipts(Value(), r, human, r.deps)
    {
      classified := [];
      var i := 0;
      assert r.deps[..0] == [];
      while i < |r.deps|
        invariant i <= |r.deps|
        invariant classified == Receipts(Value(), r, human, r.deps[..i])
      {
        var d := r.deps[i];
        assert r.deps[..i + 1][..i] == r.deps[..i];
        var known := Known(State(nodes, invs, links), d.node);
        if known.Some? {
          var n := known.value;
          var impact := Classify(d.strength, n.criticality, r.confidence);
          if human && (impact == Blocks || impact == Invalidates) {
            impact := ReviewRequired;
          }
          var restore := HeldRestoreStatus(d.node, n.status);
          classified := classified + [Receipt(d.node, n.kind, impact, d.path, n.status, restore, false, None)];
        }
        i := i + 1;
      }
      assert r.deps[..i] == r.deps;
    }

    /** Writes a status, unless the assumption lifecycle forbids it. */
    method SetStatus(node: string, next: Status) returns (written: bool)
      requires node in nodes
      modifies this`nodes
      ensures written == Transition(old(nodes)[node], next).Some?
      ensures nodes == if written then old(nodes)[node := Transition(old(nodes)[node], next).value] else old(nodes)
    {
      var n := nodes[node];
      var current := if n.status.None? then Proposed else n.status.value;
      if n.kind == Assumption && !ValidTransition(current, next) {
        return false;
      }
      nodes := nodes[node := n.(status := Some(next))];
      return true;
    }

    /** Applies an invalidation's receipts, the target's first. */
    method ApplyReceipts(target: Receipt, receipts: seq<Receipt>) returns (t: Receipt, done: seq<Receipt>)
      requires target.node in nodes
      modifies this`nodes
      ensures (nodes, t) == (ApplyAll(ApplyTarget(old(nodes), target).0, receipts).0, ApplyTarget(old(nodes), target).1)
      ensures done == ApplyAll(ApplyTarget(old(nodes), target).0, receipts).1
    {
      t := target;
      var before := nodes[target.node].status;
      var written := SetStatus(target.node, Invalidated);
      if written {
        var after := nodes[target.node].status;
        t := t.(applied := after != before, appliedStatus := after);
      }
      ghost var start := nodes;
      done := [];
      var i := 0;
      assert receipts[..0] == [];
      while i < |receipts|
        invariant i <= |receipts|
        invariant (nodes, done) == ApplyAll(start, receipts[..i])
      {
        var c := receipts[i];
        assert receipts[..i + 1][..i] == receipts[..i];
        if Holding(c.impact) && c.node in nodes {
          before := nodes[c.node].status;
          written := true;
          if !nodes[c.node].kind.OtherKind? {
            var next := if c.impact == Blocks && nodes[c.node].kind != Assumption then Blocked else Uncertain;
            written := SetStatus(c.node, next);
          } else {
            assert nodes[c.node := nodes[c.node]] == nodes;
          }
          if written {
            var after := nodes[c.node].status;
            c := c.(applied := after != before, appliedStatus := after);
          }
        }
        done := done + [c];
        i := i + 1;
      }
      assert receipts[..i] == receipts;
    }

    /** Fires an invalidation of a node; fails when the node does not exist, or evidence is
        cited that does not stand. */
    method FireAt(r: Request) returns (ok: bool)
      modifies this
      ensures ok == Fire(old(Value()), r).Done?
      ensures Value() == if ok then Fire(old(Value()), r).state else old(Value())
    {
      if r.target !in nodes || !EvidenceLive(nodes, r.evidence) {
        return false;
      }
      var n := nodes[r.target];
      var human := RequiresHuman(r, n);
      var classified := ClassifyAll(r, human);
      var restore := HeldRestoreStatus(r.target, n.status);
      var t := Receipt(r.target, n.kind, Invalidates, [], n.status, restore, false, None);
      var edges := {Link(LinkInvalidates, r.id, r.target)};
      if r.evidence.Some? {
        edges := edges + {Link(LinkDerivedFrom, r.id, r.evidence.value)};
      }
      edges := edges + AffectsLinks(r.id, classified);
      assert links + edges == FireLinks(Value(), r, classified);
      if !human {
        t, classified := ApplyReceipts(t, classified);
      }
      invs := invs + [Inv(r.id, if human then IsPending else IsOpen, t, classified)];
      links := links + edges;
      assert Value() == Fire(old(Value()), r).state;
      return true;
    }

    /** Restores what nothing else holds; `sweeping` limits it to what was applied. */
    method Release(held: set<string>, receipts: seq<Receipt>, sweeping: bool, ghost s: State, ghost id: string)
      requires forall n :: n in held <==> HeldByOthers(s, id, n)
      modifies this`nodes
      ensures nodes == if sweeping then Sweep(s, id, old(nodes), receipts) else ReleaseAll(s, id, old(nodes), receipts)
    {
      var i := 0;
      assert receipts[..0] == [];
      while i < |receipts|
        invariant i <= |receipts|
        invariant nodes == if sweeping then Sweep(s, id, old(nodes), receipts[..i])
          else ReleaseAll(s, id, old(nodes), receipts[..i])
      {
        var c := receipts[i];
        assert receipts[..i + 1][..i] == receipts[..i];
        if (c.applied || !sweeping) && c.node in nodes && c.node !in held {
          var n := nodes[c.node];
          if (n.status == Some(Uncertain) || n.status == Some(Blocked)) && n.mandate {
            nodes := nodes[c.node := n.(status := Some(Restored(n, c)))];
          }
        }
        i := i + 1;
      }
      assert receipts[..i] == receipts;
    }

    /** The human decision about a pending invalidation. */
    method ConfirmPending(id: string, accept: bool) returns (ok: bool)
      modifies this
      ensures ok == Confirm(old(Value()), id, accept).Done?
      ensures Value() == if ok then Confirm(old(Value()), id, accept).state else old(Value())
    {
      var f := Find(invs, id);
      if f.None? {
        return false;
      }
      var i, inv := f.value, invs[f.value];
      var bound := Preflight(State(nodes, invs, links), inv);
      if inv.status != IsPending || !bound {
        return false;
      }
      if accept {
        var t, affected := ApplyReceipts(inv.target, inv.affected);
        invs := Version(invs, i, Inv(id, IsOpen, t, affected));
      } else {
        invs := Version(invs, i, inv.(status := IsRejected));
        var held := NodesHeldByOthers(id);
        Release(held, inv.affected + [inv.target], true, Value(), id);
      }
      return true;
    }

    /** Closes an open invalidation; fails without changes when the target refuses. */
    method ResolveOpen(id: string, mode: Mode, evidence: bool) returns (ok: bool)
      modifies this
      ensures ok == Resolve(old(Value()), id, mode, evidence).Done?
      ensures Value() == if ok then Resolve(old(Value()), id, mode, evidence).state else old(Value())
    {
      var f := Find(invs, id);
      if f.None? {
        return false;
      }
      var i, inv := f.value, invs[f.value];
      var bound := Preflight(State(nodes, invs, links), inv);
      if inv.status != IsOpen || !bound || !evidence {
        return false;
      }
      var held := NodesHeldByOthers(id);
      var target := inv.target.node;
      if nodes[target].mandate && target in held {
        if mode == NarrowedScope(true) {
          nodes := nodes[target := nodes[target].(mandate := false)];
        }
      } else if nodes[target].mandate {
        if mode.NarrowedScope? {
          var n := nodes[target];
          nodes := nodes[target := n.(status := Some(Restored(n, inv.target)), mandate := !mode.ends)];
        } else {
          var written := SetStatus(target, if mode == SupersedingDecision then Superseded else Resolved);
          if !written {
            return false;
          }
        }
      }
      Release(held, inv.affected, false, old(Value()), id);
      invs := Version(invs, i, inv.(status := IsResolved));
      return true;
    }
  }

  /** What a fire may learn about the dependents of a target: all of them within the depth
      bound, or, when those exceed the budget, the ones two hops away under ten times the
      budget, or that even those exceed it. */
  ghost predicate Answers(
      edges: seq<T.Edge>, target: string, maxDepth: int, maxNodes: int, r: Option<(seq<Dep>, bool)>)
  {
    var near := T.Query(edges, T.PROPAGATION_EDGES, target, 2, 0.0);
    var full := near.(maxDepth := maxDepth);
    && (r.None? <==> |T.Qualifying(full)| > maxNodes && |T.Qualifying(near)| > 10 * maxNodes)
    && (r.Some? ==>
          var (deps, truncated) := r.value;
          && TraversalResult(target, deps)
          && (truncated <==> |T.Qualifying(full)| > maxNodes)
          && Strongest(if truncated then near else full, deps))
  }

  /** The traversal a fire makes, and the smaller one it falls back on. */
  method BlastRadius(edges: seq<T.Edge>, target: string, maxDepth: int, maxNodes: int)
    returns (r: Option<(seq<Dep>, bool)>)
    requires T.StoredEdges(edges) && maxDepth >= 1 && maxNodes >= 1
    ensures Answers(edges, target, maxDepth, maxNodes, r)
  {
    var q := T.Query(edges, T.PROPAGATION_EDGES, target, maxDepth, 0.0);
    var outcome := T.Dependents(q, maxNodes);
    var truncated := outcome.BudgetExceeded?;
    if truncated {
      q := q.(maxDepth := 2);
      outcome := T.Dependents(q, 10 * maxNodes);
      if outcome.BudgetExceeded? {
        return None;
      }
    }
    var deps := Listed(q, outcome.best);
    return Some((deps, truncated));
  }

  /** Exactly the nodes the query reaches, each with a strongest path to it. */
  ghost predicate Strongest(q: T.Query, deps: seq<Dep>) {
    && (forall n :: n in T.Qualifying(q) <==> exists i :: 0 <= i < |deps| && deps[i].node == n)
    && forall i :: 0 <= i < |deps| ==> StrongestDep(q, deps[i])
  }

  ghost predicate StrongestDep(q: T.Query, d: Dep) {
    exists m {:trigger T.IsStrongest(q, d.node, m)} ::
      T.IsStrongest(q, d.node, m) && d.strength == m.strength && d.path == m.path
  }

  /** `deps` lists, once each, the records of all nodes but those left. */
  ghost predicate Lists(best: map<string, T.Impact>, left: set<string>, deps: seq<Dep>) {
    && (forall i :: 0 <= i < |deps| ==>
          var d := deps[i];
          d.node in best && d.node !in left && d.strength == best[d.node].strength && d.path == best[d.node].path)
    && (forall i, j :: 0 <= i < j < |deps| ==> deps[i].node != deps[j].node)
    && (forall n :: n in best && n !in left ==> exists i :: 0 <= i < |deps| && deps[i].node == n)
  }

  lemma ListsOneMore(best: map<string, T.Impact>, left: set<string>, deps: seq<Dep>, n: string)
    requires Lists(best, left, deps) && n in left && n in best
    ensures Lists(best, left - {n}, deps + [Dep(n, best[n].strength, best[n].path)])
  {
    var more := deps + [Dep(n, best[n].strength, best[n].path)];
    assert forall i :: 0 <= i < |deps| ==> more[i] == deps[i];
    assert more[|deps|].node == n;
  }

  lemma ListsAll(q: T.Query, best: map<string, T.Impact>, deps: seq<Dep>)
    requires Lists(best, {}, deps)
    requires best.Keys == T.Qualifying(q) && forall n :: n in best ==> T.IsStrongest(q, n, best[n])
    ensures TraversalResult(q.root, deps) && Strongest(q, deps)
  {
    forall i | 0 <= i < |deps|
      ensures var d := deps[i];
        && d.node != q.root && d.path != [] && d.path[0] == q.root
        && d.path[|d.path| - 1] == d.node
    {
      PathBindsTarget(q, deps[i].node, best[deps[i].node]);
      T.QualifyingComplete(q, deps[i].node);
    }
    forall i | 0 <= i < |deps|
      ensures StrongestDep(q, deps[i])
    {
      assert T.IsStrongest(q, deps[i].node, best[deps[i].node]);
    }
    forall n
      ensures n in T.Qualifying(q) <==> exists i :: 0 <= i < |deps| && deps[i].node == n
    {
      assert n in best <==> n in best.Keys;
      if n in best {
        assert n !in {};
      }
    }
  }

  /** The records of a traversal as a list, in an order left open. */
  method Listed(q: T.Query, best: map<string, T.Impact>) returns (deps: seq<Dep>)
    requires best.Keys == T.Qualifying(q) && forall n :: n in best ==> T.IsStrongest(q, n, best[n])
    ensures TraversalResult(q.root, deps) && Strongest(q, deps)
  {
    deps := [];
    var left := best.Keys;
    while left != {}
      invariant left <= best.Keys && Lists(best, left, deps)
      decreases |left|
    {
      var n :| n in left;
      ListsOneMore(best, left, deps, n);
      left := left - {n};
      deps := deps + [Dep(n, best[n].strength, best[n].path)];
    }
    ListsAll(q, best, deps);
  }

  lemma PathBindsTarget(q: T.Query, n: string, m: T.Impact)
    requires T.IsStrongest(q, n, m)
    ensures m.path != [] && m.path[0] == q.root && m.path[|m.path| - 1] == n
  {
    var w :| T.Behind(q, w, m.ToHop(n)) && w.Then? && w.edge.kind == m.via;
    TrailEnds(w, q.root);
  }

  lemma {:induction false} TrailEnds(w: T.Walk, root: string)
    ensures var t := w.Trail(root); t != [] && t[0] == root && t[|t| - 1] == w.End(root)
  {
    if w.Start? {
    } else {
      TrailEnds(w.prefix, root);
    }
  }

}
