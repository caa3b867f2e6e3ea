/**
 What firing, confirming and resolving do, read off the fields of nodes, receipts and
 requests alone: when a human decides, which receipts are written, which statuses change
 and to what. None of it is stated through the transitions themselves.
 */
module InvalidationOutcome {
  import opened Options
  import opened Invalidation

  // --------------------------------------------------------------- the tables

  /** The statuses an assumption may be invalidated from. */
  const INVALIDATABLE: set<Status> := {Proposed, Supported, Active, Uncertain, Invalidated, Resolved}

  /** The statuses an assumption may become uncertain from. */
  const DOUBTABLE: set<Status> := {Proposed, Supported, Active, Uncertain, Resolved}

  const IMPACTED_KINDS: set<Kind> := {Assumption, Decision, Plan, Task, Action}

  /** A null status counts as proposed. */
  ghost predicate Stands(status: Option<Status>, among: set<Status>) {
    if status.None? then Proposed in among else status.value in among
  }

  /** What being the target of an invalidation in force leaves. */
  ghost function Targeted(n: Node): Option<Status> {
    if n.kind == Assumption && !Stands(n.status, INVALIDATABLE) then n.status else Some(Invalidated)
  }

  /** What an impact in force leaves. */
  ghost function Impacted(n: Node, impact: Impact): Option<Status> {
    if n.kind !in IMPACTED_KINDS || impact == Valid || impact == Invalidates then n.status
    else if n.kind == Assumption then if Stands(n.status, DOUBTABLE) then Some(Uncertain) else n.status
    else if impact == Blocks then Some(Blocked)
    else Some(Uncertain)
  }

  lemma TargetedIs(nodes: map<string, Node>, t: Receipt)
    requires t.node in nodes
    ensures var (after, t') := ApplyTarget(nodes, t);
      && after == nodes[t.node := nodes[t.node].(status := Targeted(nodes[t.node]))]
      && (Targeted(nodes[t.node]) != nodes[t.node].status ==>
            t' == t.(applied := true, appliedStatus := Some(Invalidated)))
  {
    var n := nodes[t.node];
    assert nodes[t.node := n] == nodes;
  }

  lemma ImpactedIs(nodes: map<string, Node>, c: Receipt)
    requires c.node in nodes
    ensures ApplyOne(nodes, c).0 == nodes[c.node := nodes[c.node].(status := Impacted(nodes[c.node], c.impact))]
  {
    var n := nodes[c.node];
    assert nodes[c.node := n] == nodes;
    assert n.(status := n.status) == n;
  }

  /** Applying receipts of distinct nodes impacts each of them once, and nothing else. */
  lemma {:induction false} AppliedNode(nodes: map<string, Node>, cs: seq<Receipt>, n: string)
    requires n in nodes && DistinctNodes(cs)
    ensures n in ApplyAll(nodes, cs).0
    ensures (forall i :: 0 <= i < |cs| ==> cs[i].node != n) ==> ApplyAll(nodes, cs).0[n] == nodes[n]
    ensures forall i :: 0 <= i < |cs| && cs[i].node == n ==>
      ApplyAll(nodes, cs).0[n] == nodes[n].(status := Impacted(nodes[n], cs[i].impact))
  {
    if cs == [] {
    } else {
      var front, c := cs[..|cs| - 1], cs[|cs| - 1];
      AppliedNode(nodes, front, n);
      var before := ApplyAll(nodes, front).0;
      if c.node in before {
        ImpactedIs(before, c);
      }
    }
  }

  // ----------------------------------------------------------------------- firing

  /** How a dependent is impacted: by the strength of its path, its own criticality and the
      confidence of the trigger. */
  ghost function Graded(strength: real, criticality: Option<Criticality>, confidence: real): Impact {
    if strength < 0.45 then Valid
    else if strength >= 0.75 && confidence >= 0.7 && criticality in {Some(High), Some(Critical)} then Blocks
    else ReviewRequired
  }

  lemma GradedIs(strength: real, criticality: Option<Criticality>, confidence: real)
    ensures Classify(strength, criticality, confidence) == Graded(strength, criticality, confidence)
  {
  }

  /** The statuses of evidence that does not stand. */
  const FALLEN: set<Option<Status>> :=
    {Some(OtherStatus("quarantined")), Some(Invalidated), Some(Superseded), Some(OtherStatus("rejected"))}

  /** A fire is refused exactly when its target is unknown, or it cites evidence that is
      unknown, of another kind, or does not stand. */
  lemma FireRefusedIff(s: State, r: Request)
    ensures Fire(s, r).Error? <==>
      || r.target !in s.nodes
      || (r.evidence.Some? &&
            (|| r.evidence.value !in s.nodes
             || s.nodes[r.evidence.value].kind !in {OtherKind("evidence"), OtherKind("verification")}
             || s.nodes[r.evidence.value].status in FALLEN))
  {
  }

  /** When a human decides: as the caller says, and otherwise when confidence is below 0.6
      and the blast radius is wide or the target is of high or critical criticality. Then
      the new invalidation is pending and no node changes; otherwise it is open. */
  lemma FireGateIff(s: State, r: Request)
    requires Fire(s, r).Done?
    ensures var t := Fire(s, r).state;
      var criticality := s.nodes[r.target].criticality;
      var human :=
        if r.requiresHuman == None then
          && r.confidence < 0.6
          && (|r.deps| >= 10 || r.truncated || criticality == Some(High) || criticality == Some(Critical))
        else r.requiresHuman == Some(true);
      && |t.invs| == |s.invs| + 1 && t.invs[..|s.invs|] == s.invs && t.invs[|s.invs|].id == r.id
      && (t.invs[|s.invs|].status == IsPending <==> human)
      && (t.invs[|s.invs|].status == IsOpen <==> !human)
      && (human ==> t.nodes == s.nodes)
  {
  }

  /** What a fire that no human decides does to each node. */
  lemma FireNodes(s: State, r: Request, n: string)
    requires Legal(s, DoFire(r)) && Fire(s, r).Done? && n in s.nodes
    requires Fire(s, r).state.invs[|s.invs|].status == IsOpen
    ensures var t := Fire(s, r).state;
      && t.nodes.Keys == s.nodes.Keys
      && (n == r.target ==> t.nodes[n] == s.nodes[n].(status := Targeted(s.nodes[n])))
      && (forall i :: 0 <= i < |r.deps| && r.deps[i].node == n ==>
            var impact := Graded(r.deps[i].strength, s.nodes[n].criticality, r.confidence);
            t.nodes[n] == s.nodes[n].(status := Impacted(s.nodes[n], impact)))
      && (n != r.target && (forall i :: 0 <= i < |r.deps| ==> r.deps[i].node != n) ==> t.nodes[n] == s.nodes[n])
  {
    var cs := Receipts(s, r, false, r.deps);
    var t0 := TargetReceipt(s, r.target);
    var nodes := ApplyTarget(s.nodes, t0).0;
    FirePreflights(s, r);
    ReceiptsBound(s, r, false, r.deps);
    TargetedIs(s.nodes, t0);
    AppliedNode(nodes, cs, n);
    forall j | 0 <= j < |cs|
      ensures exists i :: 0 <= i < |r.deps| && r.deps[i].node == cs[j].node
    {
      var i := ReceiptSource(s, r, false, r.deps, j);
    }
    forall i | 0 <= i < |r.deps| && r.deps[i].node == n
      ensures var impact := Graded(r.deps[i].strength, s.nodes[n].criticality, r.confidence);
        Fire(s, r).state.nodes[n] == s.nodes[n].(status := Impacted(s.nodes[n], impact))
    {
      var j := ReceiptOf(s, r, false, r.deps, i);
      GradedIs(r.deps[i].strength, s.nodes[n].criticality, r.confidence);
      assert cs[j].node == n && n != r.target;
    }
  }

  /** Every known dependent has a receipt. */
  lemma {:induction false} ReceiptOf(s: State, r: Request, human: bool, deps: seq<Dep>, i: nat) returns (j: nat)
    requires i < |deps| && Known(s, deps[i].node).Some?
    ensures var cs := Receipts(s, r, human, deps);
      j < |cs| && cs[j] == NewReceipt(s, r, human, deps[i], Known(s, deps[i].node).value)
  {
    if i < |deps| - 1 {
      j := ReceiptOf(s, r, human, deps[..|deps| - 1], i);
    } else {
      j := |Receipts(s, r, human, deps[..|deps| - 1])|;
    }
  }

  /** The impact is one that holds a node, and the node's lifecycle lets it. */
  ghost predicate InForce(n: Node, impact: Impact) {
    && (impact == ReviewRequired || impact == Blocks)
    && (n.kind == Assumption ==> n.status == Some(Uncertain) || Stands(n.status, DOUBTABLE))
  }

  lemma MarkedOne(nodes: map<string, Node>, c: Receipt)
    requires c.node in nodes && !c.applied
    ensures var n, done := nodes[c.node], ApplyOne(nodes, c).1;
      && (done.applied <==> Impacted(n, c.impact) != n.status)
      && (c.appliedStatus == None ==>
            done.appliedStatus == if InForce(n, c.impact) then Impacted(n, c.impact) else None)
  {
  }

  /** The receipt of an impact in force says whether it changed the node. */
  lemma {:induction false} AppliedMark(nodes: map<string, Node>, cs: seq<Receipt>, i: nat)
    requires i < |cs| && cs[i].node in nodes && DistinctNodes(cs) && !cs[i].applied
    ensures |ApplyAll(nodes, cs).1| == |cs|
    ensures var c, n := ApplyAll(nodes, cs).1[i], nodes[cs[i].node];
      && (c.applied <==> Impacted(n, cs[i].impact) != n.status)
      && (cs[i].appliedStatus == None ==>
            c.appliedStatus == if InForce(n, cs[i].impact) then Impacted(n, cs[i].impact) else None)
  {
    var front, last := cs[..|cs| - 1], cs[|cs| - 1];
    ApplyAllFrame(nodes, front);
    ApplyAllFrame(nodes, cs);
    if i < |front| {
      AppliedMark(nodes, front, i);
    } else {
      AppliedNode(nodes, front, last.node);
      MarkedOne(ApplyAll(nodes, front).0, last);
    }
  }

  /** The receipt a fire writes for a dependent that is a node. */
  ghost predicate Notes(s: State, t: State, r: Request, d: Dep, c: Receipt)
    requires d.node in s.nodes && d.node in t.nodes && |t.invs| == |s.invs| + 1
  {
    var n := s.nodes[d.node];
    var impact := Graded(d.strength, n.criticality, r.confidence);
    var human := t.invs[|s.invs|].status == IsPending;
    && c.node == d.node && c.kind == n.kind && c.path == d.path && c.prior == n.status
    && c.impact == (if human && impact == Blocks then ReviewRequired else impact)
    && c.restore == HeldRestore(s.invs, d.node, n.status)
    && (c.applied <==> t.nodes[d.node].status != n.status)
    && c.appliedStatus == if human || !InForce(n, impact) then None else t.nodes[d.node].status
  }

  lemma FireNotes(s: State, r: Request, i: nat) returns (j: nat)
    requires Legal(s, DoFire(r)) && Fire(s, r).Done? && i < |r.deps| && r.deps[i].node in s.nodes
    ensures var t := Fire(s, r).state;
      && |t.invs| == |s.invs| + 1 && j < |t.invs[|s.invs|].affected| && r.deps[i].node in t.nodes
      && Notes(s, t, r, r.deps[i], t.invs[|s.invs|].affected[j])
  {
    var d, n := r.deps[i], s.nodes[r.deps[i].node];
    var human := RequiresHuman(r, s.nodes[r.target]);
    var cs := Receipts(s, r, human, r.deps);
    var t := Fire(s, r).state;
    ReceiptsBound(s, r, human, r.deps);
    j := ReceiptOf(s, r, human, r.deps, i);
    GradedIs(d.strength, n.criticality, r.confidence);
    if !human {
      var nodes := ApplyTarget(s.nodes, TargetReceipt(s, r.target)).0;
      TargetedIs(s.nodes, TargetReceipt(s, r.target));
      ApplyAllFrame(nodes, cs);
      AppliedMark(nodes, cs, j);
      AppliedNode(nodes, cs, d.node);
      assert SameReceipt(cs[j], t.invs[|s.invs|].affected[j]);
    }
  }

  /** A new invalidation has receipts for dependents only, one for each. */
  lemma FireOnlyDeps(s: State, r: Request, j: nat) returns (i: nat)
    requires Legal(s, DoFire(r)) && Fire(s, r).Done?
    requires |Fire(s, r).state.invs| == |s.invs| + 1 && j < |Fire(s, r).state.invs[|s.invs|].affected|
    ensures i < |r.deps| && Known(s, r.deps[i].node).Some?
    ensures Fire(s, r).state.invs[|s.invs|].affected[j].node == r.deps[i].node
  {
    var human := RequiresHuman(r, s.nodes[r.target]);
    var cs := Receipts(s, r, human, r.deps);
    ApplyAllFrame(ApplyTarget(s.nodes, TargetReceipt(s, r.target)).0, cs);
    i := ReceiptSource(s, r, human, r.deps, j);
    assert SameReceipt(cs[j], Fire(s, r).state.invs[|s.invs|].affected[j]);
  }

  ghost predicate Noted(s: State, t: State, r: Request, i: nat)
    requires i < |r.deps| && r.deps[i].node in s.nodes && r.deps[i].node in t.nodes && |t.invs| == |s.invs| + 1
  {
    exists j :: 0 <= j < |t.invs[|s.invs|].affected| && Notes(s, t, r, r.deps[i], t.invs[|s.invs|].affected[j])
  }

  /** Every dependent that is a node of the project gets one receipt, graded by strength,
      criticality and confidence and downgraded behind the gate, which keeps its status from
      before and whether it changed; and only dependents get one. */
  lemma FireReceipts(s: State, r: Request)
    requires Legal(s, DoFire(r)) && Fire(s, r).Done?
    ensures var t := Fire(s, r).state;
      && |t.invs| == |s.invs| + 1 && t.nodes.Keys == s.nodes.Keys
      && DistinctNodes(t.invs[|s.invs|].affected)
      && (forall i :: 0 <= i < |r.deps| && r.deps[i].node in s.nodes ==> Noted(s, t, r, i))
      && (forall j :: 0 <= j < |t.invs[|s.invs|].affected| ==>
            exists i :: 0 <= i < |r.deps| && r.deps[i].node == t.invs[|s.invs|].affected[j].node)
  {
    var t := Fire(s, r).state;
    FirePreflights(s, r);
    forall i | 0 <= i < |r.deps| && r.deps[i].node in s.nodes
      ensures Noted(s, t, r, i)
    {
      var j := FireNotes(s, r, i);
    }
    forall j | 0 <= j < |t.invs[|s.invs|].affected|
      ensures exists i :: 0 <= i < |r.deps| && r.deps[i].node == t.invs[|s.invs|].affected[j].node
    {
      var i := FireOnlyDeps(s, r, j);
    }
  }

  /** The target's own receipt keeps its status from before and whether it changed. */
  lemma FireTarget(s: State, r: Request)
    requires Legal(s, DoFire(r)) && Fire(s, r).Done?
    ensures var t := Fire(s, r).state;
      && |t.invs| == |s.invs| + 1 && r.target in t.nodes
      && var c := t.invs[|s.invs|].target;
      && c.node == r.target && c.kind == s.nodes[r.target].kind && c.prior == s.nodes[r.target].status
      && c.restore == HeldRestore(s.invs, r.target, s.nodes[r.target].status)
      && (c.applied <==> t.nodes[r.target].status != s.nodes[r.target].status)
      && c.appliedStatus ==
        if t.invs[|s.invs|].status == IsOpen && t.nodes[r.target].status == Some(Invalidated) then Some(Invalidated)
        else None
  {
    FirePreflights(s, r);
    TargetedIs(s.nodes, TargetReceipt(s, r.target));
    if Fire(s, r).state.invs[|s.invs|].status == IsOpen {
      FireNodes(s, r, r.target);
    }
  }

  /** An identifier is known when a node or an invalidation has it. */
  lemma KnownIff(s: State, id: string)
    ensures Known(s, id).Some? <==> id in s.nodes || exists i :: 0 <= i < |s.invs| && s.invs[i].id == id
    ensures id in s.nodes ==> Known(s, id) == Some(s.nodes[id])
  {
  }

  /** The name of an invalidation's own status. */
  ghost function NameOf(status: InvStatus): Status {
    match status
    case IsOpen => Open
    case IsPending => OtherStatus("pending_confirmation")
    case IsRejected => OtherStatus("rejected")
    case IsResolved => Resolved
  }

  /** The receipt for a dependent that is itself the invalidation `inv`: graded by the
      criticality of its target, with its own status, and not in force. */
  ghost predicate NotesInvalidation(s: State, r: Request, d: Dep, inv: Inv, pending: bool, c: Receipt) {
    var criticality := if inv.target.node in s.nodes then s.nodes[inv.target.node].criticality else None;
    var impact := Graded(d.strength, criticality, r.confidence);
    && c.node == d.node && c.kind == OtherKind("invalidation") && c.path == d.path
    && c.prior == Some(NameOf(inv.status)) && !c.applied
    && c.impact == if pending && impact == Blocks then ReviewRequired else impact
  }

  lemma NewNotesInvalidation(s: State, r: Request, human: bool, d: Dep, k: int)
    requires d.node !in s.nodes && CurrentRow(s, d.node, k)
    ensures Known(s, d.node).Some?
    ensures NotesInvalidation(s, r, d, s.invs[k], human, NewReceipt(s, r, human, d, Known(s, d.node).value))
  {
    FindIsCurrent(s.invs, d.node);
    assert Find(s.invs, d.node) == Some(k);
    GradedIs(d.strength, Known(s, d.node).value.criticality, r.confidence);
  }

  /** A dependent that is an invalidation gets such a receipt. */
  lemma FireNotesInvalidation(s: State, r: Request, i: nat, k: int) returns (j: nat)
    requires Legal(s, DoFire(r)) && Fire(s, r).Done? && i < |r.deps| && r.deps[i].node !in s.nodes
    requires CurrentRow(s, r.deps[i].node, k)
    ensures var t := Fire(s, r).state;
      && |t.invs| == |s.invs| + 1 && j < |t.invs[|s.invs|].affected|
      && NotesInvalidation(
        s, r, r.deps[i], s.invs[k], t.invs[|s.invs|].status == IsPending, t.invs[|s.invs|].affected[j])
  {
    var human := RequiresHuman(r, s.nodes[r.target]);
    var cs := Receipts(s, r, human, r.deps);
    NewNotesInvalidation(s, r, human, r.deps[i], k);
    j := ReceiptOf(s, r, human, r.deps, i);
    TargetedIs(s.nodes, TargetReceipt(s, r.target));
    UnknownUnmarked(ApplyTarget(s.nodes, TargetReceipt(s, r.target)).0, cs, j);
  }

  lemma {:induction false} UnknownUnmarked(nodes: map<string, Node>, cs: seq<Receipt>, i: nat)
    requires i < |cs| && cs[i].node !in nodes
    ensures |ApplyAll(nodes, cs).1| == |cs| && ApplyAll(nodes, cs).1[i] == cs[i]
  {
    ApplyAllFrame(nodes, cs[..|cs| - 1]);
    ApplyAllFrame(nodes, cs);
    if i < |cs| - 1 {
      UnknownUnmarked(nodes, cs[..|cs| - 1], i);
    }
  }

  /** The edges a fire adds: to its target, to the evidence it cites, and to whatever it has
      a receipt for. */
  lemma FireEdges(s: State, r: Request, l: Link)
    requires Legal(s, DoFire(r)) && Fire(s, r).Done?
    ensures var t := Fire(s, r).state;
      |t.invs| == |s.invs| + 1 &&
      (l in t.links <==>
        || l in s.links
        || l == Link(LinkInvalidates, r.id, r.target)
        || (r.evidence.Some? && l == Link(LinkDerivedFrom, r.id, r.evidence.value))
        || (l.kind == LinkAffects && l.src == r.id &&
              exists j :: 0 <= j < |t.invs[|s.invs|].affected| && t.invs[|s.invs|].affected[j].node == l.dst))
  {
    var t := Fire(s, r).state;
    var inv := t.invs[|s.invs|];
    var cs := Receipts(s, r, RequiresHuman(r, s.nodes[r.target]), r.deps);
    ApplyAllFrame(ApplyTarget(s.nodes, TargetReceipt(s, r.target)).0, cs);
    assert |cs| == |inv.affected| && forall j :: 0 <= j < |cs| ==> SameReceipt(cs[j], inv.affected[j]);
    assert forall j :: 0 <= j < |cs| ==> cs[j].node == inv.affected[j].node;
  }

  /** The first open invalidation, in row order, that mentions the node. */
  ghost predicate FirstToSay(invs: seq<Inv>, node: string, i: int) {
    && 0 <= i < |invs| && invs[i].status == IsOpen && !Silent(invs[i], node)
    && forall k :: 0 <= k < i && invs[k].status == IsOpen ==> Silent(invs[k], node)
  }

  /** The status to restore: what the first open invalidation that mentions the node says,
      as its target before as an affected node. */
  lemma {:induction false} HeldRestoreFirst(invs: seq<Inv>, node: string, current: Option<Status>, i: nat)
    requires FirstToSay(invs, node, i)
    ensures Says(invs[i], node, HeldRestore(invs, node, current))
  {
    MentionSays(invs[0].affected, node);
    if i == 0 {
    } else {
      var rest := invs[1..];
      assert forall k :: 0 <= k < |rest| ==> rest[k] == invs[k + 1];
      assert invs[0].status == IsOpen ==> Silent(invs[0], node);
      HeldRestoreFirst(rest, node, current, i - 1);
    }
  }

  /** Without one, the present status. */
  lemma {:induction false} HeldRestoreNone(invs: seq<Inv>, node: string, current: Option<Status>)
    requires forall i :: 0 <= i < |invs| && invs[i].status == IsOpen ==> Silent(invs[i], node)
    ensures HeldRestore(invs, node, current) == current
  {
    if invs == [] {
    } else {
      MentionSays(invs[0].affected, node);
      assert forall k :: 0 <= k < |invs[1..]| ==> invs[1..][k] == invs[k + 1];
      HeldRestoreNone(invs[1..], node, current);
    }
  }

  /** The invalidation has no receipt for the node. */
  ghost predicate Silent(inv: Inv, node: string) {
    inv.target.node != node && forall j :: 0 <= j < |inv.affected| ==> inv.affected[j].node != node
  }

  ghost predicate Says(inv: Inv, node: string, restore: Option<Status>) {
    if inv.target.node == node then restore == inv.target.restore
    else exists j :: 0 <= j < |inv.affected| && inv.affected[j].node == node && inv.affected[j].restore == restore
           && forall k :: 0 <= k < j ==> inv.affected[k].node != node
  }

  lemma {:induction false} MentionSays(rs: seq<Receipt>, node: string)
    ensures MentionIn(rs, node).None? <==> forall j :: 0 <= j < |rs| ==> rs[j].node != node
    ensures MentionIn(rs, node).Some? ==>
      exists j :: 0 <= j < |rs| && rs[j].node == node && rs[j] == MentionIn(rs, node).value
        && forall k :: 0 <= k < j ==> rs[k].node != node
  {
    if rs == [] {
    } else {
      MentionSays(rs[1..], node);
      if rs[0].node != node && MentionIn(rs, node).Some? {
        var rest := rs[1..];
        var j :| 0 <= j < |rest| && rest[j].node == node && rest[j] == MentionIn(rest, node).value
          && forall k :: 0 <= k < j ==> rest[k].node != node;
        assert rs[j + 1] == rest[j];
        forall k | 0 <= k < j + 1
          ensures rs[k].node != node
        {
          assert k > 0 ==> rs[k] == rest[k - 1];
        }
      }
    }
  }

  // ------------------------------------------------------------------ what is bound

  ghost function Destinations(s: State, id: string, kind: LinkKind): set<string> {
    set l | l in s.links && l.kind == kind && l.src == id :: l.dst
  }

  ghost function Affected(inv: Inv): set<string> {
    set j | 0 <= j < |inv.affected| :: inv.affected[j].node
  }

  /** An invalidation whose one target edge goes to its target, whose `affects` edges go to
      just the nodes it has receipts for, one each, of nodes that are still of their kind,
      by paths from the target; and, while it is pending, without any applied receipt. */
  ghost predicate Bound(s: State, inv: Inv) {
    && inv.target.node in s.nodes
    && Destinations(s, inv.id, LinkInvalidates) == {inv.target.node}
    && Destinations(s, inv.id, LinkAffects) == Affected(inv)
    && DistinctNodes(inv.affected)
    && (forall j :: 0 <= j < |inv.affected| ==>
          var c := inv.affected[j];
          && c.node != inv.target.node && Known(s, c.node).Some? && Known(s, c.node).value.kind == c.kind
          && c.path != [] && c.path[0] == inv.target.node && c.path[|c.path| - 1] == c.node)
    && (inv.status == IsPending ==>
          && !inv.target.applied && inv.target.appliedStatus == None
          && forall j :: 0 <= j < |inv.affected| ==> !inv.affected[j].applied && inv.affected[j].appliedStatus == None)
  }

  lemma PreflightIsBound(s: State, inv: Inv)
    ensures Preflight(s, inv) <==> Bound(s, inv)
  {
    if Preflight(s, inv) {
      PreflightBinds(s, inv);
    }
    if Bound(s, inv) {
      BoundPreflights(s, inv);
    }
  }

  lemma PreflightBinds(s: State, inv: Inv)
    requires Preflight(s, inv)
    ensures Bound(s, inv)
  {
    assert Link(LinkInvalidates, inv.id, inv.target.node) in s.links;
    forall j | 0 <= j < |inv.affected|
      ensures inv.affected[j].node in Destinations(s, inv.id, LinkAffects)
      ensures ReceiptBound(s, inv.target.node, inv.affected[j])
    {
      assert Link(LinkAffects, inv.id, inv.affected[j].node) in s.links;
    }
  }

  lemma BoundPreflights(s: State, inv: Inv)
    requires Bound(s, inv)
    ensures Preflight(s, inv)
  {
    forall l | l in s.links && l.src == inv.id
      ensures l.kind == LinkInvalidates ==> l.dst == inv.target.node
      ensures l.kind == LinkAffects ==> exists j :: 0 <= j < |inv.affected| && inv.affected[j].node == l.dst
    {
      assert l.dst in Destinations(s, inv.id, l.kind);
    }
    assert inv.target.node in Destinations(s, inv.id, LinkInvalidates);
    forall j | 0 <= j < |inv.affected|
      ensures Link(LinkAffects, inv.id, inv.affected[j].node) in s.links
      ensures ReceiptBound(s, inv.target.node, inv.affected[j])
    {
      assert inv.affected[j].node in Affected(inv);
    }
  }

  // ------------------------------------------------------------------- deciding

  /** The invalidation whose row is current under an identifier. */
  ghost predicate CurrentRow(s: State, id: string, i: int) {
    && 0 <= i < |s.invs| && s.invs[i].id == id
    && forall k :: i < k < |s.invs| ==> s.invs[k].id != id
  }

  lemma {:induction false} FindIsCurrent(invs: seq<Inv>, id: string)
    ensures var f := Find(invs, id);
      f.Some? ==> forall k :: f.value < k < |invs| ==> invs[k].id != id
  {
    if invs == [] || invs[|invs| - 1].id == id {
    } else {
      FindIsCurrent(invs[..|invs| - 1], id);
    }
  }

  /** A decision succeeds exactly when the invalidation is pending and bound. */
  lemma ConfirmIff(s: State, id: string, accept: bool)
    ensures Confirm(s, id, accept).Done? <==>
      exists i :: CurrentRow(s, id, i) && s.invs[i].status == IsPending && Bound(s, s.invs[i])
  {
    var f := Find(s.invs, id);
    FindIsCurrent(s.invs, id);
    if f.Some? {
      PreflightIsBound(s, s.invs[f.value]);
      assert CurrentRow(s, id, f.value);
    }
  }

  /** What putting an invalidation in force does to a node. */
  lemma InForceNode(nodes: map<string, Node>, inv: Inv, n: string)
    requires inv.target.node in nodes && n in nodes && DistinctNodes(inv.affected)
    requires inv.target.node !in Affected(inv)
    ensures var after := ApplyAll(ApplyTarget(nodes, inv.target).0, inv.affected).0;
      && n in after
      && (n == inv.target.node ==> after[n] == nodes[n].(status := Targeted(nodes[n])))
      && (forall j :: 0 <= j < |inv.affected| && inv.affected[j].node == n ==>
            after[n] == nodes[n].(status := Impacted(nodes[n], inv.affected[j].impact)))
      && (n != inv.target.node && n !in Affected(inv) ==> after[n] == nodes[n])
  {
    TargetedIs(nodes, inv.target);
    AppliedNode(ApplyTarget(nodes, inv.target).0, inv.affected, n);
    assert forall j :: 0 <= j < |inv.affected| ==> inv.affected[j].node in Affected(inv);
  }

  /** Accepting moves the invalidation to the last row, open, with its receipts. */
  lemma AcceptRows(s: State, id: string, i: nat)
    requires CurrentRow(s, id, i) && Confirm(s, id, true).Done?
    ensures var t, inv := Confirm(s, id, true).state, s.invs[i];
      && t.nodes.Keys == s.nodes.Keys && t.links == s.links
      && |t.invs| == |s.invs| && t.invs[..|t.invs| - 1] == s.invs[..i] + s.invs[i + 1..]
      && t.invs[|t.invs| - 1].id == id && t.invs[|t.invs| - 1].status == IsOpen
      && SameReceipts(inv.affected, t.invs[|t.invs| - 1].affected)
  {
    FindIsCurrent(s.invs, id);
    assert Find(s.invs, id) == Some(i);
    AppliedPreflights(s, s.invs[i]);
  }

  /** Accepting puts the target's invalidation and the recorded impacts in force, on the
      nodes as they are now. */
  lemma AcceptNodes(s: State, id: string, i: nat, n: string)
    requires CurrentRow(s, id, i) && Confirm(s, id, true).Done? && n in s.nodes
    ensures var t, inv := Confirm(s, id, true).state, s.invs[i];
      && n in t.nodes
      && (n == inv.target.node ==> t.nodes[n] == s.nodes[n].(status := Targeted(s.nodes[n])))
      && (forall j :: 0 <= j < |inv.affected| && inv.affected[j].node == n ==>
            t.nodes[n] == s.nodes[n].(status := Impacted(s.nodes[n], inv.affected[j].impact)))
      && (n != inv.target.node && n !in Affected(inv) ==> t.nodes[n] == s.nodes[n])
  {
    FindIsCurrent(s.invs, id);
    assert Find(s.invs, id) == Some(i);
    PreflightIsBound(s, s.invs[i]);
    InForceNode(s.nodes, s.invs[i], n);
  }

  /** Rejecting changes no node and no edge, and closes the invalidation, as the last row. */
  lemma RejectOutcome(s: State, id: string, i: nat)
    requires CurrentRow(s, id, i) && Confirm(s, id, false).Done?
    ensures var t := Confirm(s, id, false).state;
      && t.nodes == s.nodes && t.links == s.links
      && t.invs == s.invs[..i] + s.invs[i + 1..] + [s.invs[i].(status := IsRejected)]
  {
    FindIsCurrent(s.invs, id);
    assert Find(s.invs, id) == Some(i);
    RejectInert(s, id);
  }

  // ------------------------------------------------------------------- resolving

  /** Another open invalidation targets the node, or holds it for review or blocked. */
  ghost predicate Constrained(s: State, id: string, n: string) {
    exists i :: 0 <= i < |s.invs| && s.invs[i].id != id && s.invs[i].status == IsOpen && Constrains(s.invs[i], n)
  }

  ghost predicate Constrains(inv: Inv, n: string) {
    || inv.target.node == n
    || exists j :: 0 <= j < |inv.affected| && inv.affected[j].node == n
         && inv.affected[j].impact in {ReviewRequired, Blocks}
  }

  lemma ConstrainedIs(s: State, id: string, n: string)
    ensures HeldByOthers(s, id, n) <==> Constrained(s, id, n)
  {
    forall i | 0 <= i < |s.invs|
      ensures Holds(s.invs[i], n) <==> s.invs[i].status == IsOpen && Constrains(s.invs[i], n)
    {
    }
  }

  /** The status a receipt gives back: the one it carries, or the default of the kind. */
  ghost function GivenBack(c: Receipt, kind: Kind): Option<Status> {
    if c.restore != None then c.restore
    else if kind == Task then Some(Open)
    else if kind == Decision then Some(Accepted)
    else Some(Active)
  }

  /** The target after a resolution nothing refuses. */
  ghost function Settled(n: Node, c: Receipt, mode: Mode, constrained: bool): Node {
    if !n.mandate then n
    else if constrained then if mode == NarrowedScope(true) then n.(mandate := false) else n
    else match mode
      case NarrowedScope(ends) => n.(status := GivenBack(c, n.kind), mandate := !ends)
      case ReplacementEvidence => n.(status := Some(Resolved))
      case SupersedingDecision => n.(status := Some(Superseded))
  }

  /** An affected node after a resolution. */
  ghost function Released(n: Node, c: Receipt, constrained: bool): Node {
    if n.mandate && !constrained && n.status in {Some(Uncertain), Some(Blocked)} then
      n.(status := GivenBack(c, n.kind))
    else n
  }

  /** The statuses an assumption may be resolved from, and superseded from. */
  const RESOLVABLE: set<Status> := {Proposed, Supported, Active, Uncertain, Invalidated, Resolved}
  const SUPERSEDABLE: set<Status> := RESOLVABLE + {Superseded}

  /** The target's own lifecycle refuses the resolution. */
  ghost predicate Refuses(n: Node, mode: Mode, constrained: bool) {
    && n.kind == Assumption && n.mandate && !constrained
    && ((mode == ReplacementEvidence && !Stands(n.status, RESOLVABLE))
        || (mode == SupersedingDecision && !Stands(n.status, SUPERSEDABLE)))
  }

  lemma ResolveTargetIs(s: State, id: string, mode: Mode, c: Receipt)
    requires c.node in s.nodes
    ensures var n, constrained := s.nodes[c.node], Constrained(s, id, c.node);
      ResolveTarget(s, id, mode, c) ==
        if Refuses(n, mode, constrained) then None else Some(s.nodes[c.node := Settled(n, c, mode, constrained)])
  {
    ConstrainedIs(s, id, c.node);
    assert s.nodes[c.node := s.nodes[c.node]] == s.nodes;
  }

  /** A resolution succeeds exactly when the invalidation is open and bound, the promised
      evidence is there, and the target's lifecycle does not refuse. */
  lemma ResolveIff(s: State, id: string, mode: Mode, evidence: bool)
    ensures Resolve(s, id, mode, evidence).Done? <==>
      exists i :: CurrentRow(s, id, i) && s.invs[i].status == IsOpen && Bound(s, s.invs[i]) && evidence
        && !Refuses(s.nodes[s.invs[i].target.node], mode, Constrained(s, id, s.invs[i].target.node))
  {
    var f := Find(s.invs, id);
    FindIsCurrent(s.invs, id);
    if f.Some? {
      PreflightIsBound(s, s.invs[f.value]);
      assert CurrentRow(s, id, f.value);
      if Bound(s, s.invs[f.value]) {
        ResolveTargetIs(s, id, mode, s.invs[f.value].target);
      }
    }
  }

  lemma {:induction false} ReleasedNode(s: State, id: string, nodes: map<string, Node>, cs: seq<Receipt>, n: string)
    requires n in nodes && DistinctNodes(cs)
    ensures n in ReleaseAll(s, id, nodes, cs)
    ensures (forall i :: 0 <= i < |cs| ==> cs[i].node != n) ==> ReleaseAll(s, id, nodes, cs)[n] == nodes[n]
    ensures forall i :: 0 <= i < |cs| && cs[i].node == n ==>
      ReleaseAll(s, id, nodes, cs)[n] == Released(nodes[n], cs[i], Constrained(s, id, n))
  {
    if cs == [] {
    } else {
      var front, c := cs[..|cs| - 1], cs[|cs| - 1];
      ReleasedNode(s, id, nodes, front, n);
      ConstrainedIs(s, id, n);
    }
  }

  /** What a resolution does to each node, and to the invalidation, whose row becomes the
      last. */
  lemma ResolveNodes(s: State, id: string, mode: Mode, i: nat, n: string)
    requires CurrentRow(s, id, i) && Resolve(s, id, mode, true).Done? && n in s.nodes
    ensures var t := Resolve(s, id, mode, true).state;
      var inv, constrained := s.invs[i], Constrained(s, id, n);
      && t.nodes.Keys == s.nodes.Keys && t.links == s.links
      && t.invs == s.invs[..i] + s.invs[i + 1..] + [inv.(status := IsResolved)]
      && (n == inv.target.node ==> t.nodes[n] == Settled(s.nodes[n], inv.target, mode, constrained))
      && (forall j :: 0 <= j < |inv.affected| && inv.affected[j].node == n ==>
            t.nodes[n] == Released(s.nodes[n], inv.affected[j], constrained))
      && (n != inv.target.node && n !in Affected(inv) ==> t.nodes[n] == s.nodes[n])
  {
    var inv := s.invs[i];
    FindIsCurrent(s.invs, id);
    assert Find(s.invs, id) == Some(i);
    PreflightIsBound(s, inv);
    ResolveTargetIs(s, id, mode, inv.target);
    ResolveOnlyStatuses(s, id, mode);
    ReleasedNode(s, id, ResolveTarget(s, id, mode, inv.target).value, inv.affected, n);
  }
}
