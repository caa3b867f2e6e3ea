/**
 The life of an invalidation: fired (directly or behind a human gate), confirmed or
 rejected, resolved. Several invalidations may hold one node at a time; each keeps a
 receipt of the status to restore.

 One tenant and project. The dependents of a target come from the bounded traversal;
 `nodes` holds the project's nodes other than invalidations. An invalidation that cites
 evidence is derived from it, and so may be a dependent of a later target itself.
 */
module Invalidation {
  import opened Options

  datatype Kind = Assumption | Decision | Plan | Task | Action | OtherKind(name: string)

  datatype Status =
    | Proposed | Supported | Active | Uncertain | Invalidated | Resolved | Superseded
    | Blocked | Open | Accepted | OtherStatus(name: string)

  datatype Criticality = Low | Medium | High | Critical

  /** `mandate` is whether the node's authority is current. */
  datatype Node = Node(kind: Kind, status: Option<Status>, criticality: Option<Criticality>, mandate: bool)

  datatype Impact = Valid | ReviewRequired | Blocks | Invalidates

  /** What an invalidation recorded about a node, and did to it. */
  datatype Receipt = Receipt(
    node: string, kind: Kind, impact: Impact, path: seq<string>,
    prior: Option<Status>, restore: Option<Status>,
    applied: bool, appliedStatus: Option<Status>)

  datatype InvStatus = IsOpen | IsPending | IsRejected | IsResolved

  datatype Inv = Inv(id: string, status: InvStatus, target: Receipt, affected: seq<Receipt>)

  datatype LinkKind = LinkInvalidates | LinkAffects | LinkDerivedFrom

  /** A current edge out of an invalidation; there is at most one per kind and pair. */
  datatype Link = Link(kind: LinkKind, src: string, dst: string)

  /** `invs` is in the order of the invalidations' current rows. */
  datatype State = State(nodes: map<string, Node>, invs: seq<Inv>, links: set<Link>)

  // --------------------------------------------------------- classification

  function Classify(strength: real, criticality: Option<Criticality>, confidence: real): Impact {
    var crit := if criticality.None? then Medium else criticality.value;
    if strength >= 0.75 && (crit == High || crit == Critical) then
      if confidence >= 0.7 then Blocks else ReviewRequired
    else if strength >= 0.45 then ReviewRequired
    else Valid
  }

  predicate ValidTransition(current: Status, next: Status) {
    || current == next
    || match current
       case Proposed => next == Supported || next == Active || next == Uncertain || next == Invalidated
         || next == Superseded || next == Resolved
       case Supported => next == Active || next == Uncertain || next == Invalidated || next == Superseded
         || next == Resolved
       case Active => next == Uncertain || next == Invalidated || next == Superseded || next == Resolved
       case Uncertain => next == Active || next == Supported || next == Invalidated || next == Superseded
         || next == Resolved
       case Invalidated => next == Resolved || next == Superseded
       case Resolved => next == Invalidated || next == Uncertain || next == Superseded
       case _ => false
  }

  /** A status change, or `None` when the assumption lifecycle forbids it. */
  function Transition(n: Node, next: Status): Option<Node> {
    var current := if n.status.None? then Proposed else n.status.value;
    if n.kind == Assumption && !ValidTransition(current, next) then None
    else Some(n.(status := Some(next)))
  }

  predicate Holding(impact: Impact) {
    impact == ReviewRequired || impact == Blocks
  }

  function ApplyImpact(n: Node, impact: Impact): Option<Node> {
    if n.kind.OtherKind? || !Holding(impact) then Some(n)
    else if impact == Blocks && n.kind != Assumption then Transition(n, Blocked)
    else Transition(n, Uncertain)
  }

  function DefaultStatus(k: Kind): Status {
    match k
    case Task => Open
    case Decision => Accepted
    case _ => Active
  }

  function Restored(n: Node, r: Receipt): Status {
    if r.restore.Some? then r.restore.value else DefaultStatus(n.kind)
  }

  // ---------------------------------------------------------------- holders

  /** The receipt by which an invalidation mentions a node, if it does. */
  function Mention(inv: Inv, node: string): Option<Receipt> {
    if inv.target.node == node then Some(inv.target) else MentionIn(inv.affected, node)
  }

  function MentionIn(rs: seq<Receipt>, node: string): Option<Receipt> {
    if rs == [] then None
    else if rs[0].node == node then Some(rs[0])
    else MentionIn(rs[1..], node)
  }

  /** The status to restore that an open invalidation already carries for the node. */
  function HeldRestore(invs: seq<Inv>, node: string, current: Option<Status>): Option<Status> {
    if invs == [] then current
    else if invs[0].status == IsOpen && Mention(invs[0], node).Some? then Mention(invs[0], node).value.restore
    else HeldRestore(invs[1..], node, current)
  }

  /** An open invalidation constrains its target and the nodes it impacts. */
  predicate Holds(inv: Inv, node: string) {
    inv.status == IsOpen &&
    (inv.target.node == node ||
     exists i :: 0 <= i < |inv.affected| && inv.affected[i].node == node && Holding(inv.affected[i].impact))
  }

  predicate HeldByOthers(s: State, id: string, node: string) {
    exists i :: 0 <= i < |s.invs| && s.invs[i].id != id && Holds(s.invs[i], node)
  }

  predicate Held(s: State, node: string) {
    exists i :: 0 <= i < |s.invs| && Holds(s.invs[i], node)
  }

  // -------------------------------------------------------------- preflight

  /** The position of an invalidation's current row. */
  function Find(invs: seq<Inv>, id: string): (r: Option<nat>)
    ensures r.Some? ==> r.value < |invs| && invs[r.value].id == id
    ensures r.None? ==> forall i :: 0 <= i < |invs| ==> invs[i].id != id
  {
    if invs == [] then None
    else if invs[|invs| - 1].id == id then Some(|invs| - 1)
    else Find(invs[..|invs| - 1], id)
  }

  const INVALIDATION := OtherKind("invalidation")

  function StatusOf(status: InvStatus): Status {
    match status
    case IsOpen => Open
    case IsPending => OtherStatus("pending_confirmation")
    case IsRejected => OtherStatus("rejected")
    case IsResolved => Resolved
  }

  /** A node of the project by its identifier; an invalidation is one, as critical as its
      target. */
  function Known(s: State, id: string): Option<Node> {
    if id in s.nodes then Some(s.nodes[id])
    else match Find(s.invs, id)
      case None => None
      case Some(i) =>
        var target := s.invs[i].target.node;
        Some(Node(
          INVALIDATION, Some(StatusOf(s.invs[i].status)),
          if target in s.nodes then s.nodes[target].criticality else None, false))
  }

  predicate Unapplied(r: Receipt) {
    !r.applied && r.appliedStatus.None?
  }

  predicate DistinctNodes(rs: seq<Receipt>) {
    forall i, j :: 0 <= i < j < |rs| ==> rs[i].node != rs[j].node
  }

  /** One affected receipt against the graph and its target. */
  predicate ReceiptBound(s: State, target: string, r: Receipt) {
    && r.node != target
    && Known(s, r.node).Some? && Known(s, r.node).value.kind == r.kind
    && r.path != [] && r.path[0] == target && r.path[|r.path| - 1] == r.node
  }

  /** The references confirmation and resolution require before changing anything. */
  predicate Preflight(s: State, inv: Inv) {
    && inv.target.node in s.nodes
    && (forall l :: l in s.links && l.kind == LinkInvalidates && l.src == inv.id ==> l.dst == inv.target.node)
    && Link(LinkInvalidates, inv.id, inv.target.node) in s.links
    && (forall i :: 0 <= i < |inv.affected| ==> ReceiptBound(s, inv.target.node, inv.affected[i]))
    && DistinctNodes(inv.affected)
    && (forall l :: l in s.links && l.kind == LinkAffects && l.src == inv.id ==>
          exists i :: 0 <= i < |inv.affected| && inv.affected[i].node == l.dst)
    && (forall i :: 0 <= i < |inv.affected| ==> Link(LinkAffects, inv.id, inv.affected[i].node) in s.links)
    && (inv.status == IsPending ==>
          Unapplied(inv.target) && forall i :: 0 <= i < |inv.affected| ==> Unapplied(inv.affected[i]))
  }

  // ------------------------------------------------------------------- fire

  datatype Dep = Dep(node: string, strength: real, path: seq<string>)

  /** `evidence` is the trigger evidence the caller cites, if any. */
  datatype Request = Request(
    id: string, target: string, deps: seq<Dep>, truncated: bool,
    confidence: real, requiresHuman: Option<bool>, evidence: Option<string>)

  /** Cited evidence is an evidence or verification node that still stands. */
  predicate EvidenceLive(nodes: map<string, Node>, evidence: Option<string>) {
    evidence.Some? ==>
      && evidence.value in nodes
      && var n := nodes[evidence.value];
      && (n.kind == OtherKind("evidence") || n.kind == OtherKind("verification"))
      && n.status != Some(OtherStatus("quarantined")) && n.status != Some(Invalidated)
      && n.status != Some(Superseded) && n.status != Some(OtherStatus("rejected"))
  }

  /** What the traversal guarantees about the dependents it returns. */
  predicate TraversalResult(target: string, deps: seq<Dep>) {
    && (forall i :: 0 <= i < |deps| ==>
          && deps[i].node != target && deps[i].path != []
          && deps[i].path[0] == target && deps[i].path[|deps[i].path| - 1] == deps[i].node)
    && (forall i, j :: 0 <= i < j < |deps| ==> deps[i].node != deps[j].node)
  }

  function RequiresHuman(r: Request, target: Node): bool {
    if r.requiresHuman.Some? then r.requiresHuman.value
    else
      var lowConfidence := r.confidence < 0.6;
      var highBlast := |r.deps| >= 10 || r.truncated;
      (lowConfidence && highBlast)
      || ((target.criticality == Some(High) || target.criticality == Some(Critical)) && lowConfidence)
  }

  function NewReceipt(s: State, r: Request, human: bool, d: Dep, n: Node): Receipt {
    var impact := Classify(d.strength, n.criticality, r.confidence);
    var gated := if human && (impact == Blocks || impact == Invalidates) then ReviewRequired else impact;
    Receipt(d.node, n.kind, gated, d.path, n.status, HeldRestore(s.invs, d.node, n.status), false, None)
  }

  /** The receipts of the dependents that are nodes of this project. */
  function Receipts(s: State, r: Request, human: bool, deps: seq<Dep>): seq<Receipt> {
    if deps == [] then []
    else
      var front, d := Receipts(s, r, human, deps[..|deps| - 1]), deps[|deps| - 1];
      match Known(s, d.node)
      case None => front
      case Some(n) => front + [NewReceipt(s, r, human, d, n)]
  }

  /** Applies one receipt: the node's new status, and what the receipt records. */
  function ApplyOne(nodes: map<string, Node>, c: Receipt): (map<string, Node>, Receipt) {
    if !Holding(c.impact) || c.node !in nodes then (nodes, c)
    else
      var n := nodes[c.node];
      match ApplyImpact(n, c.impact)
      case None => (nodes, c)
      case Some(m) => (nodes[c.node := m], c.(applied := m.status != n.status, appliedStatus := m.status))
  }

  function ApplyAll(nodes: map<string, Node>, cs: seq<Receipt>): (map<string, Node>, seq<Receipt>) {
    if cs == [] then (nodes, [])
    else
      var (before, done) := ApplyAll(nodes, cs[..|cs| - 1]);
      var (after, c) := ApplyOne(before, cs[|cs| - 1]);
      (after, done + [c])
  }

  /** Invalidates the target, if its lifecycle allows. */
  function ApplyTarget(nodes: map<string, Node>, t: Receipt): (map<string, Node>, Receipt)
    requires t.node in nodes
  {
    var n := nodes[t.node];
    match Transition(n, Invalidated)
    case None => (nodes, t)
    case Some(m) => (nodes[t.node := m], t.(applied := m.status != n.status, appliedStatus := m.status))
  }

  function AffectsLinks(id: string, cs: seq<Receipt>): set<Link> {
    set i | 0 <= i < |cs| :: Link(LinkAffects, id, cs[i].node)
  }

  function TargetReceipt(s: State, target: string): Receipt
    requires target in s.nodes
  {
    var n := s.nodes[target];
    Receipt(target, n.kind, Invalidates, [], n.status, HeldRestore(s.invs, target, n.status), false, None)
  }

  /** All edges a fire adds. */
  function FireLinks(s: State, r: Request, cs: seq<Receipt>): set<Link> {
    s.links + {Link(LinkInvalidates, r.id, r.target)}
    + (if r.evidence.Some? then {Link(LinkDerivedFrom, r.id, r.evidence.value)} else {})
    + AffectsLinks(r.id, cs)
  }

  datatype Result = Error | Done(state: State)

  function Fire(s: State, r: Request): Result {
    if r.target !in s.nodes || !EvidenceLive(s.nodes, r.evidence) then Error
    else
      var n := s.nodes[r.target];
      var human := RequiresHuman(r, n);
      var classified := Receipts(s, r, human, r.deps);
      var t := TargetReceipt(s, r.target);
      var links := FireLinks(s, r, classified);
      if human then
        Done(State(s.nodes, s.invs + [Inv(r.id, IsPending, t, classified)], links))
      else
        var (nodes, t') := ApplyTarget(s.nodes, t);
        var (nodes', classified') := ApplyAll(nodes, classified);
        Done(State(nodes', s.invs + [Inv(r.id, IsOpen, t', classified')], links))
  }

  // ------------------------------------------------------ confirm and resolve

  /** A new version of an invalidation becomes its current row, after all others. */
  function Version(invs: seq<Inv>, i: nat, inv: Inv): seq<Inv>
    requires i < |invs|
  {
    invs[..i] + invs[i + 1..] + [inv]
  }

  predicate Releasable(n: Node) {
    n.status == Some(Uncertain) || n.status == Some(Blocked)
  }

  /** Restores a node unless it is not impacted any more, held, or out of mandate. */
  function ReleaseOne(s: State, id: string, nodes: map<string, Node>, c: Receipt): map<string, Node> {
    if c.node !in nodes then nodes
    else
      var n := nodes[c.node];
      if Releasable(n) && !HeldByOthers(s, id, c.node) && n.mandate then
        nodes[c.node := n.(status := Some(Restored(n, c)))]
      else nodes
  }

  function ReleaseAll(s: State, id: string, nodes: map<string, Node>, cs: seq<Receipt>): map<string, Node> {
    if cs == [] then nodes
    else ReleaseOne(s, id, ReleaseAll(s, id, nodes, cs[..|cs| - 1]), cs[|cs| - 1])
  }

  /** Rejecting sweeps only what this invalidation changed itself. */
  function Sweep(s: State, id: string, nodes: map<string, Node>, cs: seq<Receipt>): map<string, Node> {
    if cs == [] then nodes
    else
      var before := Sweep(s, id, nodes, cs[..|cs| - 1]);
      var c := cs[|cs| - 1];
      if c.applied then ReleaseOne(s, id, before, c) else before
  }

  function Confirm(s: State, id: string, accept: bool): Result {
    match Find(s.invs, id)
    case None => Error
    case Some(i) =>
      var inv := s.invs[i];
      if inv.status != IsPending || !Preflight(s, inv) then Error
      else if accept then
        var (nodes, t) := ApplyTarget(s.nodes, inv.target);
        var (nodes', affected) := ApplyAll(nodes, inv.affected);
        Done(s.(nodes := nodes', invs := Version(s.invs, i, Inv(id, IsOpen, t, affected))))
      else
        var closed := s.(invs := Version(s.invs, i, inv.(status := IsRejected)));
        Done(closed.(nodes := Sweep(closed, id, s.nodes, inv.affected + [inv.target])))
  }

  /** `ends` is whether the narrower scope is another than the one the target's authority
      was confirmed for, which ends that authority. */
  datatype Mode = NarrowedScope(ends: bool) | ReplacementEvidence | SupersedingDecision

  /** The target's part of a resolution: `None` when its lifecycle refuses. */
  function ResolveTarget(s: State, id: string, mode: Mode, t: Receipt): Option<map<string, Node>>
    requires t.node in s.nodes
  {
    var n := s.nodes[t.node];
    if !n.mandate then Some(s.nodes)
    else if HeldByOthers(s, id, t.node) then
      Some(if mode == NarrowedScope(true) then s.nodes[t.node := n.(mandate := false)] else s.nodes)
    else match mode
      case NarrowedScope(ends) =>
        Some(s.nodes[t.node := n.(status := Some(Restored(n, t)), mandate := !ends)])
      case SupersedingDecision =>
        var m := Transition(n, Superseded);
        if m.None? then None else Some(s.nodes[t.node := m.value])
      case ReplacementEvidence =>
        var m := Transition(n, Resolved);
        if m.None? then None else Some(s.nodes[t.node := m.value])
  }

  /** A resolution that narrows the node itself beyond its authority. */
  predicate Ends(s: State, id: string, mode: Mode, n: string) {
    var f := Find(s.invs, id);
    f.Some? && s.invs[f.value].target.node == n && mode == NarrowedScope(true)
  }

  /** `evidence` is whether the replacement or scope the mode promises was given. */
  function Resolve(s: State, id: string, mode: Mode, evidence: bool): Result {
    match Find(s.invs, id)
    case None => Error
    case Some(i) =>
      var inv := s.invs[i];
      if inv.status != IsOpen || !Preflight(s, inv) || !evidence then Error
      else match ResolveTarget(s, id, mode, inv.target)
        case None => Error
        case Some(nodes) =>
          Done(s.(
            nodes := ReleaseAll(s, id, nodes, inv.affected),
            invs := Version(s.invs, i, inv.(status := IsResolved))))
  }

  // -------------------------------------------------------------------- runs

  datatype Step =
    | DoFire(r: Request)
    | DoConfirm(id: string, accept: bool)
    | DoResolve(id: string, mode: Mode, evidence: bool)

  /** Fires use fresh identifiers and what the traversal returned. */
  predicate Legal(s: State, step: Step) {
    step.DoFire? ==>
      && TraversalResult(step.r.target, step.r.deps)
      && step.r.id !in s.nodes
      && (forall i :: 0 <= i < |s.invs| ==> s.invs[i].id != step.r.id)
      && (forall l :: l in s.links ==> l.src != step.r.id)
  }

  /** A step that is refused, or is not a legal step, changes nothing. */
  function Apply(s: State, step: Step): State {
    if !Legal(s, step) then s
    else
      var result := match step
        case DoFire(r) => Fire(s, r)
        case DoConfirm(id, accept) => Confirm(s, id, accept)
        case DoResolve(id, mode, evidence) => Resolve(s, id, mode, evidence);
      if result.Done? then result.state else s
  }

  function Run(s: State, steps: seq<Step>): State {
    if steps == [] then s else Apply(Run(s, steps[..|steps| - 1]), steps[|steps| - 1])
  }

  function Start(nodes: map<string, Node>): State {
    State(nodes, [], {})
  }

  // ------------------------------------------------------ what steps preserve

  /** Nothing but statuses changes, and a mandate may end. */
  ghost predicate OnlyStatuses(a: map<string, Node>, b: map<string, Node>) {
    && a.Keys == b.Keys
    && forall n {:trigger a[n]} {:trigger b[n]} :: n in a ==>
         a[n].(status := b[n].status, mandate := b[n].mandate) == b[n] && (b[n].mandate ==> a[n].mandate)
  }

  /** A receipt apart from what applying it recorded. */
  ghost predicate SameReceipt(a: Receipt, b: Receipt) {
    a.(applied := b.applied, appliedStatus := b.appliedStatus) == b
  }

  ghost predicate SameReceipts(a: seq<Receipt>, b: seq<Receipt>) {
    |a| == |b| && forall i :: 0 <= i < |a| ==> SameReceipt(a[i], b[i])
  }

  lemma {:induction false} ApplyAllFrame(nodes: map<string, Node>, cs: seq<Receipt>)
    ensures OnlyStatuses(nodes, ApplyAll(nodes, cs).0)
    ensures SameReceipts(cs, ApplyAll(nodes, cs).1)
  {
    if cs == [] {
    } else {
      ApplyAllFrame(nodes, cs[..|cs| - 1]);
    }
  }

  /** A node no holding receipt names keeps its status; any other keeps it or
      becomes uncertain or blocked. */
  lemma {:induction false} ApplyAllStatus(nodes: map<string, Node>, cs: seq<Receipt>, n: string)
    requires n in nodes
    ensures var m := ApplyAll(nodes, cs).0;
      && n in m
      && (m[n].status == nodes[n].status || Releasable(m[n]))
      && ((forall i :: 0 <= i < |cs| ==> cs[i].node != n || !Holding(cs[i].impact)) ==> m[n] == nodes[n])
  {
    if cs == [] {
    } else {
      ApplyAllStatus(nodes, cs[..|cs| - 1], n);
    }
  }

  lemma {:induction false} ReleaseAllFrame(s: State, id: string, nodes: map<string, Node>, cs: seq<Receipt>)
    ensures OnlyStatuses(nodes, ReleaseAll(s, id, nodes, cs))
  {
    if cs == [] {
    } else {
      ReleaseAllFrame(s, id, nodes, cs[..|cs| - 1]);
    }
  }

  /** Held nodes and nodes without a receipt are left alone. */
  lemma {:induction false} ReleaseAllSkips(s: State, id: string, nodes: map<string, Node>, cs: seq<Receipt>, n: string)
    requires n in nodes
    requires HeldByOthers(s, id, n) || forall i :: 0 <= i < |cs| ==> cs[i].node != n
    ensures n in ReleaseAll(s, id, nodes, cs) && ReleaseAll(s, id, nodes, cs)[n] == nodes[n]
  {
    if cs == [] {
    } else {
      ReleaseAllSkips(s, id, nodes, cs[..|cs| - 1], n);
    }
  }

  /** A node nobody else holds gets the status its receipt carries, if impacted. */
  lemma {:induction false} ReleaseAllRestores(
      s: State, id: string, nodes: map<string, Node>, cs: seq<Receipt>, n: string, b: Status)
    requires n in nodes && nodes[n].mandate && !HeldByOthers(s, id, n)
    requires forall i :: 0 <= i < |cs| && cs[i].node == n ==> cs[i].restore == Some(b)
    ensures var m := ReleaseAll(s, id, nodes, cs);
      && n in m && m[n].mandate
      && ((exists i :: 0 <= i < |cs| && cs[i].node == n) ==>
            m[n].status == if Releasable(nodes[n]) then Some(b) else nodes[n].status)
      && (m[n].status == Some(b) || m[n].status == nodes[n].status)
  {
    if cs == [] {
    } else {
      var front, c := cs[..|cs| - 1], cs[|cs| - 1];
      ReleaseAllRestores(s, id, nodes, front, n, b);
      if c.node == n {
        if !(exists i :: 0 <= i < |front| && front[i].node == n) {
          ReleaseAllSkips(s, id, nodes, front, n);
        }
      } else {
        assert (exists i :: 0 <= i < |cs| && cs[i].node == n) ==> exists i :: 0 <= i < |front| && front[i].node == n;
      }
    }
  }

  lemma {:induction false} SweepUnapplied(s: State, id: string, nodes: map<string, Node>, cs: seq<Receipt>)
    requires forall i :: 0 <= i < |cs| ==> !cs[i].applied
    ensures Sweep(s, id, nodes, cs) == nodes
  {
    if cs == [] {
    } else {
      SweepUnapplied(s, id, nodes, cs[..|cs| - 1]);
    }
  }

  lemma {:induction false} SweepSkips(s: State, id: string, nodes: map<string, Node>, cs: seq<Receipt>, n: string)
    requires n in nodes && HeldByOthers(s, id, n)
    ensures n in Sweep(s, id, nodes, cs) && Sweep(s, id, nodes, cs)[n] == nodes[n]
  {
    if cs == [] {
    } else {
      SweepSkips(s, id, nodes, cs[..|cs| - 1], n);
    }
  }

  // -------------------------------------------------------- overlapping holds

  /** Closing one invalidation, by any resolution or by rejection, leaves every node that
      another open invalidation holds as it is; only a narrower scope may end its mandate. */
  lemma ClosingKeepsHeld(s: State, id: string, mode: Mode, evidence: bool, n: string)
    requires n in s.nodes && HeldByOthers(s, id, n)
    ensures var r := Resolve(s, id, mode, evidence);
      r.Done? ==>
        && n in r.state.nodes
        && r.state.nodes[n] == if Ends(s, id, mode, n) then s.nodes[n].(mandate := false) else s.nodes[n]
    ensures var r := Confirm(s, id, false);
      r.Done? ==> n in r.state.nodes && r.state.nodes[n] == s.nodes[n]
  {
    var f := Find(s.invs, id);
    if f.Some? {
      var i, inv := f.value, s.invs[f.value];
      var r := Resolve(s, id, mode, evidence);
      if r.Done? {
        var nodes := ResolveTarget(s, id, mode, inv.target).value;
        ReleaseAllSkips(s, id, nodes, inv.affected, n);
      }
      if Confirm(s, id, false).Done? {
        var closed := s.(invs := Version(s.invs, i, inv.(status := IsRejected)));
        OthersStillHold(s, s.nodes, i, inv.(status := IsRejected), n);
        SweepSkips(closed, id, s.nodes, inv.affected + [inv.target], n);
      }
    }
  }

  /** A new version of one invalidation does not touch what the others hold. */
  lemma OthersStillHold(s: State, nodes: map<string, Node>, i: nat, inv: Inv, n: string)
    requires i < |s.invs| && inv.id == s.invs[i].id
    ensures HeldByOthers(s.(nodes := nodes, invs := Version(s.invs, i, inv)), inv.id, n) <==> HeldByOthers(s, inv.id, n)
  {
    var v := Version(s.invs, i, inv);
    if HeldByOthers(s, inv.id, n) {
      var k :| 0 <= k < |s.invs| && s.invs[k].id != inv.id && Holds(s.invs[k], n);
      assert v[if k < i then k else k - 1] == s.invs[k];
    }
    if HeldByOthers(s.(invs := v), inv.id, n) {
      var j :| 0 <= j < |v| && v[j].id != inv.id && Holds(v[j], n);
      assert j < |v| - 1 ==> v[j] == s.invs[if j < i then j else j + 1];
    }
  }

  // ---------------------------------------- producer and consumer, over all runs

  predicate Live(inv: Inv) {
    inv.status == IsOpen || inv.status == IsPending
  }

  ghost predicate Sound(s: State) {
    && (forall i, j :: 0 <= i < j < |s.invs| ==> s.invs[i].id != s.invs[j].id)
    && (forall i {:trigger Preflight(s, s.invs[i])} :: 0 <= i < |s.invs| && Live(s.invs[i]) ==> Preflight(s, s.invs[i]))
    && (forall l :: l in s.links ==> exists i :: 0 <= i < |s.invs| && s.invs[i].id == l.src)
  }

  /** Every invalidation is still there. */
  ghost predicate KeepsIds(a: seq<Inv>, b: seq<Inv>) {
    forall id :: Find(a, id).Some? ==> Find(b, id).Some?
  }

  lemma AppendKeepsIds(a: seq<Inv>, inv: Inv)
    ensures KeepsIds(a, a + [inv])
  {
    assert (a + [inv])[..|a|] == a;
  }

  lemma VersionKeepsIds(a: seq<Inv>, i: nat, inv: Inv)
    requires i < |a| && inv.id == a[i].id
    ensures KeepsIds(a, Version(a, i, inv))
  {
    var v := Version(a, i, inv);
    forall id | Find(a, id).Some?
      ensures Find(v, id).Some?
    {
      var k := Find(a, id).value;
      assert v[if k < i then k else if k == i then |v| - 1 else k - 1].id == id;
    }
  }

  /** Preflight survives status changes and edges out of other invalidations. */
  lemma PreflightFrame(s: State, t: State, inv: Inv)
    requires Preflight(s, inv) && OnlyStatuses(s.nodes, t.nodes) && KeepsIds(s.invs, t.invs)
    requires s.links <= t.links && forall l :: l in t.links && l.src == inv.id ==> l in s.links
    ensures Preflight(t, inv)
  {
    forall i | 0 <= i < |inv.affected|
      ensures ReceiptBound(t, inv.target.node, inv.affected[i])
    {
      assert ReceiptBound(s, inv.target.node, inv.affected[i]);
      var n := inv.affected[i].node;
      if n in s.nodes {
        assert s.nodes[n].kind == t.nodes[n].kind;
      }
    }
  }

  /** Applying an invalidation's own receipts keeps its references bound. */
  lemma PreflightApplied(s: State, inv: Inv, t: Receipt, affected: seq<Receipt>)
    requires Preflight(s, inv) && SameReceipt(inv.target, t) && SameReceipts(inv.affected, affected)
    ensures Preflight(s, Inv(inv.id, IsOpen, t, affected))
  {
    assert forall i :: 0 <= i < |affected| ==> SameReceipt(inv.affected[i], affected[i]);
  }

  /** Each receipt is that of one of the dependents. */
  ghost predicate FromDep(s: State, r: Request, human: bool, deps: seq<Dep>, c: Receipt, j: int) {
    && 0 <= j < |deps| && Known(s, deps[j].node).Some?
    && c == NewReceipt(s, r, human, deps[j], Known(s, deps[j].node).value)
  }

  lemma {:induction false} ReceiptSource(s: State, r: Request, human: bool, deps: seq<Dep>, i: nat) returns (j: nat)
    requires i < |Receipts(s, r, human, deps)|
    ensures FromDep(s, r, human, deps, Receipts(s, r, human, deps)[i], j)
  {
    var front := Receipts(s, r, human, deps[..|deps| - 1]);
    if i < |front| {
      j := ReceiptSource(s, r, human, deps[..|deps| - 1], i);
    } else {
      j := |deps| - 1;
    }
  }

  lemma {:induction false} ReceiptsDistinct(s: State, r: Request, human: bool, deps: seq<Dep>)
    requires forall i, j :: 0 <= i < j < |deps| ==> deps[i].node != deps[j].node
    ensures DistinctNodes(Receipts(s, r, human, deps))
  {
    if deps == [] {
    } else {
      var front := deps[..|deps| - 1];
      ReceiptsDistinct(s, r, human, front);
      forall i | 0 <= i < |Receipts(s, r, human, front)|
        ensures Receipts(s, r, human, front)[i].node != deps[|deps| - 1].node
      {
        var j := ReceiptSource(s, r, human, front, i);
      }
    }
  }

  lemma ReceiptsBound(s: State, r: Request, human: bool, deps: seq<Dep>)
    requires TraversalResult(r.target, deps)
    ensures var cs := Receipts(s, r, human, deps);
      DistinctNodes(cs) && forall i :: 0 <= i < |cs| ==> ReceiptBound(s, r.target, cs[i]) && Unapplied(cs[i])
  {
    var cs := Receipts(s, r, human, deps);
    ReceiptsDistinct(s, r, human, deps);
    forall i | 0 <= i < |cs|
      ensures ReceiptBound(s, r.target, cs[i]) && Unapplied(cs[i])
    {
      var j := ReceiptSource(s, r, human, deps, i);
    }
  }

  /** Before anything is applied, a fresh invalidation's references are bound. */
  lemma NewbornPreflight(s: State, r: Request, human: bool, t: Receipt)
    requires Legal(s, DoFire(r)) && r.target in s.nodes && t.node == r.target && Unapplied(t)
    ensures var cs := Receipts(s, r, human, r.deps);
      Preflight(s.(links := FireLinks(s, r, cs)), Inv(r.id, IsPending, t, cs))
  {
    var cs := Receipts(s, r, human, r.deps);
    ReceiptsBound(s, r, human, r.deps);
    forall i | 0 <= i < |cs|
      ensures Link(LinkAffects, r.id, cs[i].node) in AffectsLinks(r.id, cs)
    {
    }
  }

  /** Applying all its receipts changes only statuses and keeps its references bound. */
  lemma AppliedPreflights(s: State, inv: Inv)
    requires Preflight(s, inv)
    ensures var (nodes, t) := ApplyTarget(s.nodes, inv.target);
      var (nodes', affected) := ApplyAll(nodes, inv.affected);
      && OnlyStatuses(s.nodes, nodes') && SameReceipt(inv.target, t) && SameReceipts(inv.affected, affected)
      && Preflight(s.(nodes := nodes'), Inv(inv.id, IsOpen, t, affected))
  {
    var (nodes, t) := ApplyTarget(s.nodes, inv.target);
    ApplyAllFrame(nodes, inv.affected);
    var (nodes', affected) := ApplyAll(nodes, inv.affected);
    PreflightApplied(s, inv, t, affected);
    PreflightFrame(s, s.(nodes := nodes'), Inv(inv.id, IsOpen, t, affected));
  }

  /** A fresh invalidation is born with its references bound. */
  lemma FirePreflights(s: State, r: Request)
    requires Legal(s, DoFire(r)) && Fire(s, r).Done?
    ensures var t := Fire(s, r).state;
      && |t.invs| == |s.invs| + 1 && t.invs[..|s.invs|] == s.invs
      && t.invs[|s.invs|].id == r.id && t.invs[|s.invs|].target.node == r.target
      && Preflight(t, t.invs[|s.invs|])
      && OnlyStatuses(s.nodes, t.nodes)
  {
    var n := s.nodes[r.target];
    var human := RequiresHuman(r, n);
    var t0 := TargetReceipt(s, r.target);
    NewbornPreflight(s, r, human, t0);
    var links := FireLinks(s, r, Receipts(s, r, human, r.deps));
    var t := Fire(s, r).state;
    AppendKeepsIds(s.invs, t.invs[|s.invs|]);
    if human {
      PreflightFrame(s.(links := links), t, t.invs[|s.invs|]);
    } else {
      AppliedPreflights(s.(links := links), Inv(r.id, IsPending, t0, Receipts(s, r, false, r.deps)));
      PreflightFrame(State(t.nodes, s.invs, links), t, t.invs[|s.invs|]);
    }
  }

  lemma FireKeepsSound(s: State, r: Request)
    requires Sound(s) && Legal(s, DoFire(r)) && Fire(s, r).Done?
    ensures Sound(Fire(s, r).state)
  {
    var t := Fire(s, r).state;
    FirePreflights(s, r);
    forall i | 0 <= i < |t.invs| && Live(t.invs[i])
      ensures Preflight(t, t.invs[i])
    {
      if i < |s.invs| {
        assert t.invs[i] == s.invs[i] && Preflight(s, s.invs[i]);
        FirePreservesPreflight(s, r, s.invs[i]);
      }
    }
    forall l | l in t.links
      ensures exists i :: 0 <= i < |t.invs| && t.invs[i].id == l.src
    {
      FireLinksKnown(s, r, l);
    }
  }

  lemma FirePreservesPreflight(s: State, r: Request, inv: Inv)
    requires Legal(s, DoFire(r)) && Fire(s, r).Done? && Preflight(s, inv) && inv.id != r.id
    ensures Preflight(Fire(s, r).state, inv)
  {
    FirePreflights(s, r);
    AppendKeepsIds(s.invs, Fire(s, r).state.invs[|s.invs|]);
    PreflightFrame(s, Fire(s, r).state, inv);
  }

  lemma FireLinksKnown(s: State, r: Request, l: Link)
    requires Sound(s) && Legal(s, DoFire(r)) && Fire(s, r).Done? && l in Fire(s, r).state.links
    ensures var t := Fire(s, r).state;
      exists i :: 0 <= i < |t.invs| && t.invs[i].id == l.src
  {
    var t := Fire(s, r).state;
    FirePreflights(s, r);
    if l in s.links {
      var i :| 0 <= i < |s.invs| && s.invs[i].id == l.src;
      assert t.invs[i] == s.invs[i];
    } else {
      assert t.invs[|s.invs|].id == l.src;
    }
  }

  /** Replacing one invalidation by a sound new version keeps the state sound. */
  lemma VersionKeepsSound(s: State, nodes: map<string, Node>, i: nat, inv: Inv)
    requires Sound(s) && i < |s.invs| && inv.id == s.invs[i].id && OnlyStatuses(s.nodes, nodes)
    requires Live(inv) ==> Preflight(s.(nodes := nodes), inv)
    ensures Sound(s.(nodes := nodes, invs := Version(s.invs, i, inv)))
  {
    var v := Version(s.invs, i, inv);
    var t := s.(nodes := nodes, invs := v);
    VersionKeepsIds(s.invs, i, inv);
    forall j | 0 <= j < |v| && Live(v[j])
      ensures Preflight(t, v[j])
    {
      if j == |v| - 1 {
        PreflightFrame(s.(nodes := nodes), t, inv);
      } else {
        var k := if j < i then j else j + 1;
        assert v[j] == s.invs[k];
        PreflightFrame(s, t, s.invs[k]);
      }
    }
    forall l | l in t.links
      ensures exists j :: 0 <= j < |v| && v[j].id == l.src
    {
      var k :| 0 <= k < |s.invs| && s.invs[k].id == l.src;
      var j := if k < i then k else if k == i then |v| - 1 else k - 1;
      assert v[j].id == l.src;
    }
  }

  lemma AcceptKeepsSound(s: State, id: string)
    requires Sound(s) && Confirm(s, id, true).Done?
    ensures Sound(Confirm(s, id, true).state)
  {
    var i := Find(s.invs, id).value;
    var t := Confirm(s, id, true).state;
    AppliedPreflights(s, s.invs[i]);
    VersionKeepsSound(s, t.nodes, i, t.invs[|t.invs| - 1]);
  }

  lemma RejectKeepsSound(s: State, id: string)
    requires Sound(s) && Confirm(s, id, false).Done?
    ensures Sound(Confirm(s, id, false).state)
  {
    var i := Find(s.invs, id).value;
    var inv := s.invs[i];
    RejectInert(s, id);
    VersionKeepsSound(s, s.nodes, i, inv.(status := IsRejected));
  }

  lemma ResolveKeepsSound(s: State, id: string, mode: Mode, evidence: bool)
    requires Sound(s) && Resolve(s, id, mode, evidence).Done?
    ensures Sound(Resolve(s, id, mode, evidence).state)
  {
    var i := Find(s.invs, id).value;
    var inv := s.invs[i];
    var nodes := ResolveTarget(s, id, mode, inv.target).value;
    ReleaseAllFrame(s, id, nodes, inv.affected);
    VersionKeepsSound(s, ReleaseAll(s, id, nodes, inv.affected), i, inv.(status := IsResolved));
  }

  lemma ApplyKeepsSound(s: State, step: Step)
    requires Sound(s)
    ensures Sound(Apply(s, step))
  {
    if Legal(s, step) {
      match step
      case DoFire(r) => if Fire(s, r).Done? { FireKeepsSound(s, r); }
      case DoConfirm(id, accept) =>
        if Confirm(s, id, accept).Done? {
          if accept { AcceptKeepsSound(s, id); } else { RejectKeepsSound(s, id); }
        }
      case DoResolve(id, mode, evidence) =>
        if Resolve(s, id, mode, evidence).Done? { ResolveKeepsSound(s, id, mode, evidence); }
    }
  }

  /** In every reachable state, invalidations have distinct identifiers, and every open or
      pending one passes the checks that confirming and resolving it make first. */
  lemma {:induction false} RunSound(nodes: map<string, Node>, steps: seq<Step>)
    ensures Sound(Run(Start(nodes), steps))
  {
    if steps == [] {
    } else {
      RunSound(nodes, steps[..|steps| - 1]);
      ApplyKeepsSound(Run(Start(nodes), steps[..|steps| - 1]), steps[|steps| - 1]);
    }
  }

  // ---------------------------------------------------------- the human gate

  /** Rejecting a pending invalidation changes no node: the preflight has made sure
      that none of its receipts was applied. */
  lemma RejectInert(s: State, id: string)
    requires Confirm(s, id, false).Done?
    ensures Confirm(s, id, false).state.nodes == s.nodes
  {
    var i := Find(s.invs, id).value;
    var inv := s.invs[i];
    var closed := s.(invs := Version(s.invs, i, inv.(status := IsRejected)));
    SweepUnapplied(closed, id, s.nodes, inv.affected + [inv.target]);
  }

  lemma {:induction false} FindExact(invs: seq<Inv>, i: nat)
    requires i < |invs| && forall j, k :: 0 <= j < k < |invs| ==> invs[j].id != invs[k].id
    ensures Find(invs, invs[i].id) == Some(i)
  {
    if i < |invs| - 1 {
      FindExact(invs[..|invs| - 1], i);
    }
  }

  /** In every reachable state a pending invalidation can be confirmed and can be
      rejected, and rejecting it changes no node. */
  lemma PendingCanBeDecided(nodes: map<string, Node>, steps: seq<Step>, i: nat)
    ensures var s := Run(Start(nodes), steps);
      i < |s.invs| && s.invs[i].status == IsPending ==>
        var id := s.invs[i].id;
        && Confirm(s, id, true).Done?
        && Confirm(s, id, false).Done? && Confirm(s, id, false).state.nodes == s.nodes
  {
    var s := Run(Start(nodes), steps);
    RunSound(nodes, steps);
    if i < |s.invs| && s.invs[i].status == IsPending {
      FindExact(s.invs, i);
      assert Preflight(s, s.invs[i]);
      RejectInert(s, s.invs[i].id);
    }
  }

  // --------------------------------------------------------------- restoring

  /** The node only ever appears as an affected node, or only as a target. */
  ghost predicate AffectedRole(s: State, n: string) {
    forall i :: 0 <= i < |s.invs| ==> s.invs[i].target.node != n
  }

  ghost predicate TargetRole(s: State, n: string) {
    forall i, j :: 0 <= i < |s.invs| && 0 <= j < |s.invs[i].affected| ==> s.invs[i].affected[j].node != n
  }

  /** The invalidation's receipts of the node carry `b`. */
  ghost predicate Carries(inv: Inv, n: string, b: Status) {
    && (inv.target.node == n ==> inv.target.restore == Some(b))
    && forall j :: 0 <= j < |inv.affected| && inv.affected[j].node == n ==> inv.affected[j].restore == Some(b)
  }

  /** Open invalidations, and pending ones that would only affect the node. A pending one
      that targets it answers for its receipt when it is confirmed. */
  predicate InUse(inv: Inv, n: string) {
    inv.status == IsOpen || (inv.status == IsPending && inv.target.node != n)
  }

  ghost predicate AllCarry(s: State, n: string, b: Status) {
    forall i {:trigger Carries(s.invs[i], n, b)} :: 0 <= i < |s.invs| && InUse(s.invs[i], n) ==>
      Carries(s.invs[i], n, b)
  }

  /** `b` is the status the node had when it was last free, and has when it is. */
  ghost predicate Tracked(s: State, n: string, b: Status) {
    && n in s.nodes && s.nodes[n].mandate
    && AllCarry(s, n, b)
    && (!Held(s, n) ==> s.nodes[n].status == Some(b))
    && (s.nodes[n].status == Some(b)
        || (AffectedRole(s, n) && Releasable(s.nodes[n]))
        || (TargetRole(s, n) && s.nodes[n].status == Some(Invalidated)))
  }

  /** Confirming a pending invalidation of the node finds the receipt a fire would write
      now: the status open holders carry, or else the present one. */
  predicate ConfirmsFresh(s: State, step: Step, n: string) {
    step.DoConfirm? && step.accept ==>
      var f := Find(s.invs, step.id);
      f.Some? && s.invs[f.value].status == IsPending && s.invs[f.value].target.node == n && n in s.nodes ==>
        s.invs[f.value].target.restore == HeldRestore(s.invs, n, s.nodes[n].status)
  }

  lemma {:induction false} HeldRestoreCarries(invs: seq<Inv>, n: string, current: Option<Status>, b: Status)
    requires forall i :: 0 <= i < |invs| && InUse(invs[i], n) ==> Carries(invs[i], n, b)
    requires current == Some(b) || exists i :: 0 <= i < |invs| && Holds(invs[i], n)
    ensures HeldRestore(invs, n, current) == Some(b)
  {
    if invs == [] {
    } else {
      MentionCarries(invs[0], n, b);
      if !(invs[0].status == IsOpen && Mention(invs[0], n).Some?) {
        if current != Some(b) {
          var i :| 0 <= i < |invs| && Holds(invs[i], n);
          assert i > 0 && invs[1..][i - 1] == invs[i];
        }
        HeldRestoreCarries(invs[1..], n, current, b);
      }
    }
  }

  lemma MentionCarries(inv: Inv, n: string, b: Status)
    ensures Carries(inv, n, b) && Mention(inv, n).Some? ==> Mention(inv, n).value.restore == Some(b)
    ensures Holds(inv, n) ==> inv.status == IsOpen && Mention(inv, n).Some?
  {
    MentionInFinds(inv.affected, n);
  }

  lemma {:induction false} MentionInFinds(rs: seq<Receipt>, n: string)
    ensures MentionIn(rs, n).Some? <==> exists i :: 0 <= i < |rs| && rs[i].node == n
    ensures MentionIn(rs, n).Some? ==> exists i :: 0 <= i < |rs| && rs[i].node == n && rs[i] == MentionIn(rs, n).value
  {
    if rs == [] {
    } else {
      MentionInFinds(rs[1..], n);
      if rs[0].node == n {
      } else {
        if i :| 0 <= i < |rs| && rs[i].node == n {
          assert rs[1..][i - 1].node == n;
        }
        if i :| 0 <= i < |rs[1..]| && rs[1..][i].node == n && rs[1..][i] == MentionIn(rs[1..], n).value {
          assert rs[i + 1] == MentionIn(rs, n).value;
        }
      }
    }
  }

  /** Holding and carrying after one invalidation gets a new version. */
  lemma VersionTracks(s: State, nodes: map<string, Node>, i: nat, inv: Inv, n: string, b: Status)
    requires i < |s.invs| && inv.id == s.invs[i].id && Sound(s)
    requires AllCarry(s, n, b) && (InUse(inv, n) ==> Carries(inv, n, b))
    ensures var t := s.(nodes := nodes, invs := Version(s.invs, i, inv));
      && AllCarry(t, n, b)
      && (Held(t, n) <==> HeldByOthers(s, inv.id, n) || Holds(inv, n))
  {
    var v := Version(s.invs, i, inv);
    var t := s.(nodes := nodes, invs := v);
    forall j | 0 <= j < |v| && InUse(v[j], n)
      ensures Carries(v[j], n, b)
    {
      if j < |v| - 1 {
        var k := if j < i then j else j + 1;
        assert v[j] == s.invs[k] && Carries(s.invs[k], n, b);
      }
    }
    if HeldByOthers(s, inv.id, n) {
      var k :| 0 <= k < |s.invs| && s.invs[k].id != inv.id && Holds(s.invs[k], n);
      assert v[if k < i then k else k - 1] == s.invs[k];
    }
    if Holds(inv, n) {
      assert v[|v| - 1] == inv;
    }
    if Held(t, n) {
      var j :| 0 <= j < |v| && Holds(v[j], n);
      if j < |v| - 1 {
        var k := if j < i then j else j + 1;
        assert s.invs[k] == v[j];
        assert s.invs[k].id != s.invs[i].id;
      }
    }
  }

  lemma FireTracks(s: State, r: Request, n: string, b: Status)
    requires Sound(s) && Tracked(s, n, b) && Legal(s, DoFire(r)) && Fire(s, r).Done?
    requires AffectedRole(Fire(s, r).state, n) || TargetRole(Fire(s, r).state, n)
    ensures Tracked(Fire(s, r).state, n, b)
  {
    var t := Fire(s, r).state;
    var inv := t.invs[|s.invs|];
    FireCarries(s, r, n, b);
    forall i | 0 <= i < |t.invs| && InUse(t.invs[i], n)
      ensures Carries(t.invs[i], n, b)
    {
      if i < |s.invs| { assert t.invs[i] == s.invs[i] && Carries(s.invs[i], n, b); }
    }
    if Held(s, n) {
      var i :| 0 <= i < |s.invs| && Holds(s.invs[i], n);
      assert Holds(t.invs[i], n);
    }
    FireStatus(s, r, n);
    assert t.invs[|s.invs|] == inv;
  }

  /** The receipts of a fresh invalidation carry the node's last free status. */
  lemma FireCarries(s: State, r: Request, n: string, b: Status)
    requires Tracked(s, n, b) && Legal(s, DoFire(r)) && Fire(s, r).Done?
    ensures var t := Fire(s, r).state;
      |t.invs| == |s.invs| + 1 && t.invs[..|s.invs|] == s.invs && Carries(t.invs[|s.invs|], n, b)
  {
    var human := RequiresHuman(r, s.nodes[r.target]);
    var cs := Receipts(s, r, human, r.deps);
    HeldRestoreCarries(s.invs, n, s.nodes[n].status, b);
    ApplyAllFrame(ApplyTarget(s.nodes, TargetReceipt(s, r.target)).0, cs);
    var inv := Fire(s, r).state.invs[|s.invs|];
    forall j | 0 <= j < |inv.affected| && inv.affected[j].node == n
      ensures inv.affected[j].restore == Some(b)
    {
      assert SameReceipt(cs[j], inv.affected[j]);
      var k := ReceiptSource(s, r, human, r.deps, j);
    }
  }

  /** What a fire does to one node's status. */
  lemma FireStatus(s: State, r: Request, n: string)
    requires Legal(s, DoFire(r)) && Fire(s, r).Done? && n in s.nodes
    ensures var t := Fire(s, r).state;
      var inv := t.invs[|t.invs| - 1];
      && n in t.nodes && t.nodes[n].mandate == s.nodes[n].mandate
      && (!Holds(inv, n) ==> t.nodes[n] == s.nodes[n])
      && (t.nodes[n].status == s.nodes[n].status
          || (inv.target.node == n && t.nodes[n].status == Some(Invalidated))
          || (Releasable(t.nodes[n]) && exists j :: 0 <= j < |inv.affected| && inv.affected[j].node == n))
  {
    var human := RequiresHuman(r, s.nodes[r.target]);
    if !human {
      var cs := Receipts(s, r, human, r.deps);
      var t0 := TargetReceipt(s, r.target);
      ReceiptsBound(s, r, human, r.deps);
      ApplyStatus(s.nodes, t0, cs, n);
    }
  }

  /** What applying a target receipt and affected receipts does to one node. */
  lemma ApplyStatus(nodes: map<string, Node>, t: Receipt, cs: seq<Receipt>, n: string)
    requires t.node in nodes && n in nodes
    requires forall i :: 0 <= i < |cs| ==> cs[i].node != t.node
    ensures var (after, t') := ApplyTarget(nodes, t);
      var (after', cs') := ApplyAll(after, cs);
      var inv := Inv("", IsOpen, t', cs');
      && n in after' && after'[n].mandate == nodes[n].mandate
      && (!Holds(inv, n) ==> after'[n] == nodes[n])
      && (after'[n].status == nodes[n].status
          || (t'.node == n && after'[n].status == Some(Invalidated))
          || (Releasable(after'[n]) && exists j :: 0 <= j < |cs'| && cs'[j].node == n))
  {
    var (after, t') := ApplyTarget(nodes, t);
    var (after', cs') := ApplyAll(after, cs);
    var inv := Inv("", IsOpen, t', cs');
    ApplyAllFrame(after, cs);
    ApplyAllStatus(after, cs, n);
    ApplyAllMandate(after, cs, n);
    AppliedHolds(cs, inv, n);
  }

  /** Applying receipts does not change what they hold. */
  lemma AppliedHolds(cs: seq<Receipt>, inv: Inv, n: string)
    requires SameReceipts(cs, inv.affected) && inv.status == IsOpen
    ensures !Holds(inv, n) ==>
      inv.target.node != n && forall i :: 0 <= i < |cs| ==> cs[i].node != n || !Holding(cs[i].impact)
    ensures (exists i :: 0 <= i < |cs| && cs[i].node == n) ==>
      exists i :: 0 <= i < |inv.affected| && inv.affected[i].node == n
  {
    forall i | 0 <= i < |cs| && cs[i].node == n
      ensures inv.affected[i].node == n && (Holding(cs[i].impact) ==> Holds(inv, n))
    {
      assert SameReceipt(cs[i], inv.affected[i]);
    }
  }

  /** A node stays tracked when one invalidation gets a new version. */
  lemma VersionTracked(s: State, nodes: map<string, Node>, i: nat, inv: Inv, n: string, b: Status)
    requires Sound(s) && AllCarry(s, n, b)
    requires i < |s.invs| && inv.id == s.invs[i].id && (InUse(inv, n) ==> Carries(inv, n, b))
    requires SameReceipt(s.invs[i].target, inv.target) && SameReceipts(s.invs[i].affected, inv.affected)
    requires n in nodes && nodes[n].mandate
    requires !HeldByOthers(s, inv.id, n) && !Holds(inv, n) ==> nodes[n].status == Some(b)
    requires nodes[n].status == Some(b)
      || (AffectedRole(s, n) && Releasable(nodes[n])) || (TargetRole(s, n) && nodes[n].status == Some(Invalidated))
    ensures Tracked(s.(nodes := nodes, invs := Version(s.invs, i, inv)), n, b)
  {
    VersionTracks(s, nodes, i, inv, n, b);
    VersionRoles(s, nodes, i, inv, n);
  }

  /** What accepting does to a tracked node. */
  lemma AcceptStatus(s: State, i: nat, n: string, b: Status)
    requires Sound(s) && Tracked(s, n, b) && i < |s.invs| && s.invs[i].status == IsPending
    requires AffectedRole(s, n) || TargetRole(s, n)
    ensures s.invs[i].target.node in s.nodes
    ensures var inv := s.invs[i];
      var (nodes, t) := ApplyTarget(s.nodes, inv.target);
      var (nodes', affected) := ApplyAll(nodes, inv.affected);
      && n in nodes' && nodes'[n].mandate
      && (!HeldByOthers(s, inv.id, n) && !Holds(Inv(inv.id, IsOpen, t, affected), n) ==> nodes'[n].status == Some(b))
      && (nodes'[n].status == Some(b)
          || (AffectedRole(s, n) && Releasable(nodes'[n]))
          || (TargetRole(s, n) && nodes'[n].status == Some(Invalidated)))
  {
    var inv := s.invs[i];
    assert Preflight(s, inv);
    forall j | 0 <= j < |inv.affected|
      ensures inv.affected[j].node != inv.target.node
    {
      assert ReceiptBound(s, inv.target.node, inv.affected[j]);
    }
    ApplyStatus(s.nodes, inv.target, inv.affected, n);
    HeldSplits(s, i, n);
    ApplyAllFrame(ApplyTarget(s.nodes, inv.target).0, inv.affected);
  }

  lemma AcceptTracks(s: State, id: string, n: string, b: Status)
    requires Sound(s) && Tracked(s, n, b) && Confirm(s, id, true).Done? && ConfirmsFresh(s, DoConfirm(id, true), n)
    requires AffectedRole(s, n) || TargetRole(s, n)
    ensures Tracked(Confirm(s, id, true).state, n, b)
  {
    var i := Find(s.invs, id).value;
    var inv := s.invs[i];
    FreshCarries(s, id, n, b);
    var (nodes, t) := ApplyTarget(s.nodes, inv.target);
    var (nodes', affected) := ApplyAll(nodes, inv.affected);
    ApplyAllFrame(nodes, inv.affected);
    ReceiptsCarry(inv.affected, affected, n, b);
    AcceptStatus(s, i, n, b);
    VersionTracked(s, nodes', i, Inv(id, IsOpen, t, affected), n, b);
  }

  /** A freshly confirmed invalidation carries what the open ones carry. */
  lemma FreshCarries(s: State, id: string, n: string, b: Status)
    requires Sound(s) && Tracked(s, n, b) && Confirm(s, id, true).Done? && ConfirmsFresh(s, DoConfirm(id, true), n)
    ensures Carries(s.invs[Find(s.invs, id).value], n, b)
  {
    var inv := s.invs[Find(s.invs, id).value];
    if inv.target.node == n {
      HeldRestoreCarries(s.invs, n, s.nodes[n].status, b);
      forall j | 0 <= j < |inv.affected|
        ensures inv.affected[j].node != n
      {
        assert ReceiptBound(s, n, inv.affected[j]);
      }
    } else {
      assert InUse(inv, n);
    }
  }

  lemma ReceiptsCarry(cs: seq<Receipt>, done: seq<Receipt>, n: string, b: Status)
    requires SameReceipts(cs, done)
    requires forall j :: 0 <= j < |cs| && cs[j].node == n ==> cs[j].restore == Some(b)
    ensures forall j :: 0 <= j < |done| && done[j].node == n ==> done[j].restore == Some(b) && cs[j].node == n
  {
    assert forall j :: 0 <= j < |done| ==> SameReceipt(cs[j], done[j]);
  }

  lemma RejectTracks(s: State, id: string, n: string, b: Status)
    requires Sound(s) && Tracked(s, n, b) && Confirm(s, id, false).Done?
    ensures Tracked(Confirm(s, id, false).state, n, b)
  {
    var i := Find(s.invs, id).value;
    RejectInert(s, id);
    HeldSplits(s, i, n);
    VersionTracked(s, s.nodes, i, s.invs[i].(status := IsRejected), n, b);
  }

  lemma HeldSplits(s: State, i: nat, n: string)
    requires Sound(s) && i < |s.invs|
    ensures Held(s, n) <==> HeldByOthers(s, s.invs[i].id, n) || Holds(s.invs[i], n)
  {
    if Held(s, n) {
      var j :| 0 <= j < |s.invs| && Holds(s.invs[j], n);
      assert s.invs[j].id == s.invs[i].id ==> j == i;
    }
  }

  /** A new version of an invalidation names the same nodes. */
  lemma VersionRoles(s: State, nodes: map<string, Node>, i: nat, inv: Inv, n: string)
    requires i < |s.invs| && SameReceipt(s.invs[i].target, inv.target) && SameReceipts(s.invs[i].affected, inv.affected)
    ensures var t := s.(nodes := nodes, invs := Version(s.invs, i, inv));
      (AffectedRole(t, n) <==> AffectedRole(s, n)) && (TargetRole(t, n) <==> TargetRole(s, n))
  {
    var v := Version(s.invs, i, inv);
    assert forall j :: 0 <= j < |s.invs| && j != i ==> v[if j < i then j else j - 1] == s.invs[j];
    assert v[|v| - 1] == inv;
    assert forall j :: 0 <= j < |inv.affected| ==> SameReceipt(s.invs[i].affected[j], inv.affected[j]);
  }

  /** A resolution that takes the target itself out of its held status for good. */
  predicate Retires(s: State, id: string, mode: Mode, n: string) {
    var f := Find(s.invs, id);
    f.Some? && s.invs[f.value].target.node == n && !mode.NarrowedScope? && !HeldByOthers(s, id, n)
  }

  /** What a resolution does to the status of a tracked node. */
  lemma ResolveStatus(s: State, i: nat, mode: Mode, n: string, b: Status)
    requires i < |s.invs| && Sound(s) && Tracked(s, n, b) && s.invs[i].status == IsOpen
    requires AffectedRole(s, n) || TargetRole(s, n)
    requires s.invs[i].target.node in s.nodes && ResolveTarget(s, s.invs[i].id, mode, s.invs[i].target).Some?
    requires s.invs[i].target.node == n && !mode.NarrowedScope? ==> HeldByOthers(s, s.invs[i].id, n)
    requires s.invs[i].target.node == n ==> mode != NarrowedScope(true)
    ensures var inv := s.invs[i];
      var nodes := ResolveTarget(s, inv.id, mode, inv.target).value;
      var m := ReleaseAll(s, inv.id, nodes, inv.affected);
      && n in m && m[n].mandate
      && (m[n].status == Some(b) || m[n].status == s.nodes[n].status)
      && (!HeldByOthers(s, inv.id, n) ==> m[n].status == Some(b))
  {
    var inv := s.invs[i];
    var nodes := ResolveTarget(s, inv.id, mode, inv.target).value;
    assert Carries(inv, n, b);
    if HeldByOthers(s, inv.id, n) {
      ReleaseAllSkips(s, inv.id, nodes, inv.affected, n);
    } else {
      ReleaseAllRestores(s, inv.id, nodes, inv.affected, n, b);
      HeldSplits(s, i, n);
      if inv.target.node == n {
      } else if exists j :: 0 <= j < |inv.affected| && inv.affected[j].node == n {
      } else {
        assert !Holds(inv, n);
      }
    }
  }

  lemma ResolveTracks(s: State, id: string, mode: Mode, evidence: bool, n: string, b: Status)
    requires Sound(s) && Tracked(s, n, b) && Resolve(s, id, mode, evidence).Done?
    requires AffectedRole(s, n) || TargetRole(s, n)
    requires !Retires(s, id, mode, n) && !Ends(s, id, mode, n)
    ensures Tracked(Resolve(s, id, mode, evidence).state, n, b)
  {
    var i := Find(s.invs, id).value;
    var inv := s.invs[i];
    assert Carries(inv, n, b);
    var closed := inv.(status := IsResolved);
    var nodes := ResolveTarget(s, id, mode, inv.target).value;
    var nodes' := ReleaseAll(s, id, nodes, inv.affected);
    ResolveStatus(s, i, mode, n, b);
    VersionTracked(s, nodes', i, closed, n, b);
  }

  /** Retiring a target gives it a new free status, and no open receipt of it remains. */
  lemma RetireTracks(s: State, id: string, mode: Mode, evidence: bool, n: string, b: Status)
    requires Sound(s) && Tracked(s, n, b) && Resolve(s, id, mode, evidence).Done?
    requires TargetRole(s, n) && Retires(s, id, mode, n)
    ensures var t := Resolve(s, id, mode, evidence).state;
      n in t.nodes && t.nodes[n].status.Some? && !Held(t, n) && Tracked(t, n, t.nodes[n].status.value)
  {
    var i := Find(s.invs, id).value;
    var inv := s.invs[i];
    var closed := inv.(status := IsResolved);
    var nodes := ResolveTarget(s, id, mode, inv.target).value;
    var nodes' := ReleaseAll(s, id, nodes, inv.affected);
    ReleaseAllSkips(s, id, nodes, inv.affected, n);
    VersionTracks(s, nodes', i, closed, n, b);
    VersionRoles(s, nodes', i, closed, n);
    var t := Resolve(s, id, mode, evidence).state;
    forall j | 0 <= j < |t.invs| && InUse(t.invs[j], n)
      ensures Carries(t.invs[j], n, t.nodes[n].status.value)
    {
      assert t.invs[j].target.node == n ==> Holds(t.invs[j], n);
    }
  }

  // ------------------------------------------------------ restoring, over runs

  predicate Mandated(s: State, n: string) {
    n in s.nodes && s.nodes[n].mandate
  }

  ghost predicate AlwaysFresh(nodes: map<string, Node>, steps: seq<Step>, n: string) {
    steps == [] ||
    var front := steps[..|steps| - 1];
    AlwaysFresh(nodes, front, n) && ConfirmsFresh(Run(Start(nodes), front), steps[|steps| - 1], n)
  }

  /** The node's status in the last state of the run in which nothing held it. */
  ghost function FreeStatus(nodes: map<string, Node>, steps: seq<Step>, n: string): Option<Status>
    requires n in nodes
  {
    var s := Run(Start(nodes), steps);
    if n in s.nodes && !Held(s, n) then s.nodes[n].status
    else if steps == [] then None
    else FreeStatus(nodes, steps[..|steps| - 1], n)
  }

  lemma FireRoles(s: State, r: Request, n: string)
    requires Legal(s, DoFire(r)) && Fire(s, r).Done?
    ensures AffectedRole(Fire(s, r).state, n) ==> AffectedRole(s, n)
    ensures TargetRole(Fire(s, r).state, n) ==> TargetRole(s, n)
  {
    FirePreflights(s, r);
  }

  /** Steps never take a node's role away. */
  lemma ApplyRoles(s: State, step: Step, n: string)
    ensures AffectedRole(Apply(s, step), n) ==> AffectedRole(s, n)
    ensures TargetRole(Apply(s, step), n) ==> TargetRole(s, n)
  {
    if Legal(s, step) {
      match step
      case DoFire(r) =>
        if Fire(s, r).Done? {
          FireRoles(s, r, n);
        }
      case DoConfirm(id, accept) =>
        if Confirm(s, id, accept).Done? {
          var i := Find(s.invs, id).value;
          var t := Confirm(s, id, accept).state;
          ConfirmVersion(s, id, accept);
          VersionRoles(s, t.nodes, i, t.invs[|t.invs| - 1], n);
        }
      case DoResolve(id, mode, evidence) =>
        if Resolve(s, id, mode, evidence).Done? {
          var i := Find(s.invs, id).value;
          var t := Resolve(s, id, mode, evidence).state;
          VersionRoles(s, t.nodes, i, s.invs[i].(status := IsResolved), n);
        }
    }
  }

  lemma ConfirmVersion(s: State, id: string, accept: bool)
    requires Confirm(s, id, accept).Done?
    ensures var i := Find(s.invs, id).value;
      var t := Confirm(s, id, accept).state;
      && t.invs != []
      && var inv := t.invs[|t.invs| - 1];
      && SameReceipt(s.invs[i].target, inv.target) && SameReceipts(s.invs[i].affected, inv.affected)
      && t == s.(nodes := t.nodes, invs := Version(s.invs, i, inv))
  {
    var i := Find(s.invs, id).value;
    var inv := s.invs[i];
    if accept {
      ApplyAllFrame(ApplyTarget(s.nodes, inv.target).0, inv.affected);
    }
  }

  lemma EndsMandate(s: State, id: string, mode: Mode, evidence: bool, n: string)
    requires Resolve(s, id, mode, evidence).Done? && Ends(s, id, mode, n)
    ensures var t := Resolve(s, id, mode, evidence).state; n in t.nodes && !t.nodes[n].mandate
  {
    var inv := s.invs[Find(s.invs, id).value];
    ReleaseAllFrame(s, id, ResolveTarget(s, id, mode, inv.target).value, inv.affected);
  }

  lemma ApplyTracks(s: State, step: Step, n: string, b: Status)
    requires Sound(s) && Tracked(s, n, b) && ConfirmsFresh(s, step, n) && Mandated(Apply(s, step), n)
    requires AffectedRole(Apply(s, step), n) || TargetRole(Apply(s, step), n)
    ensures var t := Apply(s, step);
      n in t.nodes && (Tracked(t, n, b)
        || (!Held(t, n) && t.nodes[n].status.Some? && Tracked(t, n, t.nodes[n].status.value)))
  {
    ApplyRoles(s, step, n);
    if Legal(s, step) {
      match step
      case DoFire(r) => if Fire(s, r).Done? { FireTracks(s, r, n, b); }
      case DoConfirm(id, accept) =>
        if Confirm(s, id, accept).Done? {
          if accept { AcceptTracks(s, id, n, b); } else { RejectTracks(s, id, n, b); }
        }
      case DoResolve(id, mode, evidence) =>
        if Resolve(s, id, mode, evidence).Done? {
          if Retires(s, id, mode, n) {
            RetireTracks(s, id, mode, evidence, n, b);
          } else {
            if Ends(s, id, mode, n) {
              EndsMandate(s, id, mode, evidence, n);
              assert false;
            }
            ResolveTracks(s, id, mode, evidence, n, b);
          }
        }
    }
  }

  /** Over every run that confirms fresh receipts only, a mandated node in one role is where
      it was when it was last free, or is held; and every open receipt carries that. */
  lemma {:induction false} RunTracks(nodes: map<string, Node>, steps: seq<Step>, n: string)
    requires n in nodes && nodes[n].status.Some?
    requires var s := Run(Start(nodes), steps); Mandated(s, n) && (AffectedRole(s, n) || TargetRole(s, n))
    requires AlwaysFresh(nodes, steps, n)
    ensures var b := FreeStatus(nodes, steps, n);
      b.Some? && Tracked(Run(Start(nodes), steps), n, b.value)
  {
    if steps == [] {
    } else {
      var front, step := steps[..|steps| - 1], steps[|steps| - 1];
      var s := Run(Start(nodes), front);
      ApplyRoles(s, step, n);
      RunSound(nodes, front);
      ApplyOnlyStatuses(s, step);
      RunTracks(nodes, front, n);
      ApplyTracks(s, step, n, FreeStatus(nodes, front, n).value);
    }
  }

  /** A node that is only ever affected has only fresh receipts. */
  lemma {:induction false} AffectedIsFresh(nodes: map<string, Node>, steps: seq<Step>, n: string)
    requires AffectedRole(Run(Start(nodes), steps), n)
    ensures AlwaysFresh(nodes, steps, n)
  {
    if steps == [] {
    } else {
      ApplyRoles(Run(Start(nodes), steps[..|steps| - 1]), steps[|steps| - 1], n);
      AffectedIsFresh(nodes, steps[..|steps| - 1], n);
    }
  }

  /** In every state of the run, every open receipt of the node carries its free status. */
  ghost predicate AlwaysCarried(nodes: map<string, Node>, steps: seq<Step>, n: string)
    requires n in nodes
  {
    && FreeStatus(nodes, steps, n).Some?
    && AllCarry(Run(Start(nodes), steps), n, FreeStatus(nodes, steps, n).value)
    && (steps == [] || AlwaysCarried(nodes, steps[..|steps| - 1], n))
  }

  /** And only such runs keep every open receipt right. */
  lemma {:induction false} CarriedIffFresh(nodes: map<string, Node>, steps: seq<Step>, n: string)
    requires n in nodes && nodes[n].status.Some?
    requires var s := Run(Start(nodes), steps); Mandated(s, n) && (AffectedRole(s, n) || TargetRole(s, n))
    ensures AlwaysCarried(nodes, steps, n) <==> AlwaysFresh(nodes, steps, n)
  {
    if steps == [] {
    } else {
      var front, step := steps[..|steps| - 1], steps[|steps| - 1];
      var s := Run(Start(nodes), front);
      ApplyRoles(s, step, n);
      RunSound(nodes, front);
      ApplyOnlyStatuses(s, step);
      CarriedIffFresh(nodes, front, n);
      if AlwaysFresh(nodes, front, n) {
        RunTracks(nodes, front, n);
        if AlwaysFresh(nodes, steps, n) {
          RunTracks(nodes, steps, n);
        } else {
          StaleReceiptIsOpen(s, step, n, FreeStatus(nodes, front, n).value);
        }
      }
    }
  }

  /** A stale receipt, confirmed, is an open receipt that carries something else. */
  lemma StaleReceiptIsOpen(s: State, step: Step, n: string, b: Status)
    requires Sound(s) && Tracked(s, n, b) && !ConfirmsFresh(s, step, n)
    ensures Held(Apply(s, step), n) && !AllCarry(Apply(s, step), n, b)
  {
    var i := Find(s.invs, step.id).value;
    assert Preflight(s, s.invs[i]);
    HeldRestoreCarries(s.invs, n, s.nodes[n].status, b);
    ConfirmVersion(s, step.id, true);
    var t := Apply(s, step);
    var inv := t.invs[|t.invs| - 1];
    assert Holds(inv, n) && InUse(inv, n) && !Carries(inv, n, b);
  }

  /** Over every run, a node keeps its entry, and a mandate at most ends. */
  lemma {:induction false} RunOnlyStatuses(nodes: map<string, Node>, steps: seq<Step>)
    ensures OnlyStatuses(nodes, Run(Start(nodes), steps).nodes)
  {
    if steps == [] {
    } else {
      var s, step := Run(Start(nodes), steps[..|steps| - 1]), steps[|steps| - 1];
      RunOnlyStatuses(nodes, steps[..|steps| - 1]);
      RunSound(nodes, steps[..|steps| - 1]);
      ApplyOnlyStatuses(s, step);
    }
  }

  lemma ApplyOnlyStatuses(s: State, step: Step)
    requires Sound(s)
    ensures OnlyStatuses(s.nodes, Apply(s, step).nodes)
  {
    if Legal(s, step) {
      match step
      case DoFire(r) => if Fire(s, r).Done? { FirePreflights(s, r); }
      case DoConfirm(id, accept) =>
        if Confirm(s, id, accept).Done? {
          if accept { AppliedPreflights(s, s.invs[Find(s.invs, id).value]); } else { RejectInert(s, id); }
        }
      case DoResolve(id, mode, evidence) =>
        if Resolve(s, id, mode, evidence).Done? { ResolveOnlyStatuses(s, id, mode); }
    }
  }

  lemma ResolveOnlyStatuses(s: State, id: string, mode: Mode)
    requires Resolve(s, id, mode, true).Done?
    ensures OnlyStatuses(s.nodes, Resolve(s, id, mode, true).state.nodes)
  {
    var inv := s.invs[Find(s.invs, id).value];
    ReleaseAllFrame(s, id, ResolveTarget(s, id, mode, inv.target).value, inv.affected);
  }

  /** The receipt the closing invalidation has of its target is the status from before the
      first hold; of a node it only affects, it always is. */
  ghost predicate ReceiptIsFree(nodes: map<string, Node>, steps: seq<Step>, id: string, n: string)
    requires n in nodes
  {
    var s := Run(Start(nodes), steps);
    var f := Find(s.invs, id);
    f.Some? && n in s.nodes && s.invs[f.value].target.node == n ==>
      FreeStatus(nodes, steps, n) == Some(Restored(s.nodes[n], s.invs[f.value].target))
  }

  /** Over every run, when the last holder of a node in one role closes by narrowed scope:
      a mandated node returns to exactly the status it had before the first hold if and only
      if the closing receipt is right; one whose mandate has ended stays as it is. */
  lemma LastHolderRestores(
      nodes: map<string, Node>, steps: seq<Step>, id: string, ends: bool, evidence: bool, n: string)
    requires n in nodes && nodes[n].status.Some?
    requires var s := Run(Start(nodes), steps); AffectedRole(s, n) || TargetRole(s, n)
    ensures var s := Run(Start(nodes), steps);
      var t := Apply(s, DoResolve(id, NarrowedScope(ends), evidence));
      n in s.nodes && n in t.nodes && (Held(s, n) && !Held(t, n) ==>
        if s.nodes[n].mandate then
          t.nodes[n].status == FreeStatus(nodes, steps, n) <==> ReceiptIsFree(nodes, steps, id, n)
        else t.nodes[n] == s.nodes[n])
  {
    var s := Run(Start(nodes), steps);
    var t := Apply(s, DoResolve(id, NarrowedScope(ends), evidence));
    RunSound(nodes, steps);
    RunOnlyStatuses(nodes, steps);
    ApplyOnlyStatuses(s, DoResolve(id, NarrowedScope(ends), evidence));
    if Held(s, n) && !Held(t, n) {
      if !s.nodes[n].mandate {
        UnmandatedKept(s, id, NarrowedScope(ends), evidence, n);
      } else if AffectedRole(s, n) {
        AffectedIsFresh(nodes, steps, n);
        RunTracks(nodes, steps, n);
        ResolveTracks(s, id, NarrowedScope(ends), evidence, n, FreeStatus(nodes, steps, n).value);
      } else {
        TargetReleased(s, id, ends, evidence, n);
      }
    }
  }

  /** In runs whose confirmations find fresh receipts, the last holder to close by narrowed
      scope returns a mandated node to the status it had before the first hold. */
  lemma FreshRunsRestore(
      nodes: map<string, Node>, steps: seq<Step>, id: string, ends: bool, evidence: bool, n: string)
    requires n in nodes && nodes[n].status.Some?
    requires var s := Run(Start(nodes), steps); Mandated(s, n) && (AffectedRole(s, n) || TargetRole(s, n))
    requires AlwaysFresh(nodes, steps, n)
    ensures var s := Run(Start(nodes), steps);
      var t := Apply(s, DoResolve(id, NarrowedScope(ends), evidence));
      Held(s, n) && !Held(t, n) ==> n in t.nodes && t.nodes[n].status == FreeStatus(nodes, steps, n)
  {
    var s := Run(Start(nodes), steps);
    RunTracks(nodes, steps, n);
    LastHolderRestores(nodes, steps, id, ends, evidence, n);
    var f := Find(s.invs, id);
    if f.Some? && s.invs[f.value].status == IsOpen {
      assert InUse(s.invs[f.value], n) && Carries(s.invs[f.value], n, FreeStatus(nodes, steps, n).value);
    }
  }

  /** No resolution touches a node whose mandate has ended. */
  lemma UnmandatedKept(s: State, id: string, mode: Mode, evidence: bool, n: string)
    requires n in s.nodes && !s.nodes[n].mandate && Resolve(s, id, mode, evidence).Done?
    ensures var t := Resolve(s, id, mode, evidence).state; n in t.nodes && t.nodes[n] == s.nodes[n]
  {
    var inv := s.invs[Find(s.invs, id).value];
    ReleaseAllUnmandated(s, id, ResolveTarget(s, id, mode, inv.target).value, inv.affected, n);
  }

  lemma {:induction false} ReleaseAllUnmandated(
      s: State, id: string, nodes: map<string, Node>, cs: seq<Receipt>, n: string)
    requires n in nodes && !nodes[n].mandate
    ensures n in ReleaseAll(s, id, nodes, cs) && ReleaseAll(s, id, nodes, cs)[n] == nodes[n]
  {
    if cs == [] {
    } else {
      ReleaseAllUnmandated(s, id, nodes, cs[..|cs| - 1], n);
    }
  }

  /** The last holder of a node that is only ever targeted targets it, and closing it
      writes the status on its receipt. */
  lemma TargetReleased(s: State, id: string, ends: bool, evidence: bool, n: string)
    requires Sound(s) && TargetRole(s, n) && n in s.nodes && s.nodes[n].mandate
    requires Resolve(s, id, NarrowedScope(ends), evidence).Done?
    requires Held(s, n) && !Held(Resolve(s, id, NarrowedScope(ends), evidence).state, n)
    ensures var inv := s.invs[Find(s.invs, id).value];
      var t := Resolve(s, id, NarrowedScope(ends), evidence).state;
      inv.target.node == n && n in t.nodes && t.nodes[n].status == Some(Restored(s.nodes[n], inv.target))
  {
    var i := Find(s.invs, id).value;
    var inv := s.invs[i];
    var t := Resolve(s, id, NarrowedScope(ends), evidence).state;
    HeldSplits(s, i, n);
    if HeldByOthers(s, id, n) {
      OthersStillHold(s, t.nodes, i, inv.(status := IsResolved), n);
    }
    ReleaseAllSkips(s, id, ResolveTarget(s, id, NarrowedScope(ends), inv.target).value, inv.affected, n);
  }

  // ------------------------------------------- when a resolution does restore

  /** For any node, in any role: the narrowed resolution of an invalidation nobody else
      backs gives the node the status on its receipt exactly when the node is the
      target, is still uncertain or blocked, or has that status anyway. */
  lemma ResolveRestoresIff(s: State, id: string, ends: bool, evidence: bool, n: string, r: Status)
    requires Resolve(s, id, NarrowedScope(ends), evidence).Done?
    requires n in s.nodes && s.nodes[n].mandate && !HeldByOthers(s, id, n)
    requires var inv := s.invs[Find(s.invs, id).value];
      Mention(inv, n).Some? && Mention(inv, n).value.restore == Some(r)
    ensures var target := s.invs[Find(s.invs, id).value].target.node;
      var t := Resolve(s, id, NarrowedScope(ends), evidence).state;
      && n in t.nodes
      && (t.nodes[n].status == Some(r) <==> n == target || Releasable(s.nodes[n]) || s.nodes[n].status == Some(r))
  {
    var inv := s.invs[Find(s.invs, id).value];
    var nodes := ResolveTarget(s, id, NarrowedScope(ends), inv.target).value;
    if inv.target.node == n {
      forall j | 0 <= j < |inv.affected|
        ensures inv.affected[j].node != n
      {
        assert ReceiptBound(s, n, inv.affected[j]);
      }
      ReleaseAllSkips(s, id, nodes, inv.affected, n);
    } else {
      MentionRestores(s, id, nodes, inv.affected, n, r);
    }
  }

  /** Releasing a node by the one receipt that mentions it. */
  lemma MentionRestores(s: State, id: string, nodes: map<string, Node>, cs: seq<Receipt>, n: string, r: Status)
    requires n in nodes && nodes[n].mandate && !HeldByOthers(s, id, n) && DistinctNodes(cs)
    requires MentionIn(cs, n).Some? && MentionIn(cs, n).value.restore == Some(r)
    ensures var m := ReleaseAll(s, id, nodes, cs);
      n in m && m[n].status == if Releasable(nodes[n]) then Some(r) else nodes[n].status
  {
    MentionInFinds(cs, n);
    var k :| 0 <= k < |cs| && cs[k].node == n && cs[k] == MentionIn(cs, n).value;
    forall j | 0 <= j < |cs| && cs[j].node == n
      ensures j == k
    {
    }
    ReleaseAllRestores(s, id, nodes, cs, n, r);
  }

  /** For every sound state and pending invalidation of a node nobody else holds: confirming
      it and then narrowing it leaves the node's status as it was exactly when its receipt
      restores that status. */
  lemma ConfirmThenNarrowIff(s: State, id: string, ends: bool, n: string)
    requires Sound(s) && Find(s.invs, id).Some?
    requires var inv := s.invs[Find(s.invs, id).value]; inv.status == IsPending && inv.target.node == n
    requires n in s.nodes && s.nodes[n].mandate && !HeldByOthers(s, id, n)
    ensures var receipt := s.invs[Find(s.invs, id).value].target;
      var confirmed := Confirm(s, id, true);
      && confirmed.Done?
      && var narrowed := Resolve(confirmed.state, id, NarrowedScope(ends), true);
      && narrowed.Done? && n in narrowed.state.nodes
      && narrowed.state.nodes[n].status == Some(Restored(s.nodes[n], receipt))
      && (narrowed.state.nodes[n].status == s.nodes[n].status <==>
        s.nodes[n].status == Some(Restored(s.nodes[n], receipt)))
  {
    assert Preflight(s, s.invs[Find(s.invs, id).value]);
    AcceptOpens(s, id);
    AcceptPreflights(s, id);
    AcceptKeepsOthers(s, id, n);
    AcceptKeepsMandate(s, id, n);
    var t := Confirm(s, id, true).state;
    NarrowWrites(t, |t.invs| - 1, ends, n);
  }

  /** An accepted invalidation is open and last in row order. */
  lemma AcceptOpens(s: State, id: string)
    requires Sound(s) && Confirm(s, id, true).Done?
    ensures var t := Confirm(s, id, true).state;
      && t.invs != []
      && var inv := t.invs[|t.invs| - 1];
      && inv.id == id && inv.status == IsOpen && Find(t.invs, id) == Some(|t.invs| - 1)
      && SameReceipt(s.invs[Find(s.invs, id).value].target, inv.target)
      && OnlyStatuses(s.nodes, t.nodes)
  {
    var i := Find(s.invs, id).value;
    AppliedPreflights(s, s.invs[i]);
  }

  lemma AcceptPreflights(s: State, id: string)
    requires Sound(s) && Confirm(s, id, true).Done?
    ensures var t := Confirm(s, id, true).state;
      t.invs != [] && Preflight(t, t.invs[|t.invs| - 1])
  {
    var i, t := Find(s.invs, id).value, Confirm(s, id, true).state;
    AppliedPreflights(s, s.invs[i]);
    VersionKeepsIds(s.invs, i, t.invs[|t.invs| - 1]);
    PreflightFrame(s.(nodes := t.nodes), t, t.invs[|t.invs| - 1]);
  }

  lemma AcceptKeepsMandate(s: State, id: string, n: string)
    requires Confirm(s, id, true).Done? && n in s.nodes
    ensures var t := Confirm(s, id, true).state; n in t.nodes && t.nodes[n].mandate == s.nodes[n].mandate
  {
    var inv := s.invs[Find(s.invs, id).value];
    ApplyAllMandate(ApplyTarget(s.nodes, inv.target).0, inv.affected, n);
  }

  lemma {:induction false} ApplyAllMandate(nodes: map<string, Node>, cs: seq<Receipt>, n: string)
    requires n in nodes
    ensures var m := ApplyAll(nodes, cs).0; n in m && m[n].mandate == nodes[n].mandate
  {
    if cs == [] {
    } else {
      ApplyAllMandate(nodes, cs[..|cs| - 1], n);
    }
  }

  lemma AcceptKeepsOthers(s: State, id: string, n: string)
    requires Sound(s) && Confirm(s, id, true).Done?
    ensures HeldByOthers(Confirm(s, id, true).state, id, n) <==> HeldByOthers(s, id, n)
  {
    var i := Find(s.invs, id).value;
    var (nodes, target) := ApplyTarget(s.nodes, s.invs[i].target);
    var (nodes', affected) := ApplyAll(nodes, s.invs[i].affected);
    OthersStillHold(s, nodes', i, Inv(id, IsOpen, target, affected), n);
  }

  lemma NarrowWrites(s: State, i: nat, ends: bool, n: string)
    requires i < |s.invs| && Find(s.invs, s.invs[i].id) == Some(i) && s.invs[i].status == IsOpen
      && Preflight(s, s.invs[i])
    requires s.invs[i].target.node == n && s.nodes[n].mandate && !HeldByOthers(s, s.invs[i].id, n)
    ensures var r := Resolve(s, s.invs[i].id, NarrowedScope(ends), true);
      r.Done? && n in r.state.nodes && r.state.nodes[n].status == Some(Restored(s.nodes[n], s.invs[i].target))
  {
    var inv := s.invs[i];
    forall j | 0 <= j < |inv.affected|
      ensures inv.affected[j].node != n
    {
      assert ReceiptBound(s, n, inv.affected[j]);
    }
    ReleaseAllSkips(s, inv.id, ResolveTarget(s, inv.id, NarrowedScope(ends), inv.target).value, inv.affected, n);
  }

  const OPEN_TASK := Node(Task, Some(Open), None, true)
  const TWO_TASKS := map["t" := OPEN_TASK, "n" := OPEN_TASK]
  const FIRE_ON_T := Request("a", "t", [Dep("n", 0.5, ["t", "n"])], false, 0.9, Some(false), None)
  const FIRE_ON_N := Request("b", "n", [], false, 0.9, Some(false), None)
  const N_AFFECTED := Receipt("n", Task, ReviewRequired, ["t", "n"], Some(Open), Some(Open), true, Some(Uncertain))
  const T_TARGETED := Receipt("t", Task, Invalidates, [], Some(Open), Some(Open), true, Some(Invalidated))
  const N_TARGETED := Receipt("n", Task, Invalidates, [], Some(Uncertain), Some(Open), true, Some(Invalidated))
  const A_OPEN := Inv("a", IsOpen, T_TARGETED, [N_AFFECTED])
  const B_OPEN := Inv("b", IsOpen, N_TARGETED, [])

  /** An open task that one invalidation affected and another then targeted. */
  ghost predicate MixedRoles(s: State) {
    && s.invs == [A_OPEN, B_OPEN]
    && s.nodes == map["t" := OPEN_TASK.(status := Some(Invalidated)), "n" := OPEN_TASK.(status := Some(Invalidated))]
    && s.links == {Link(LinkInvalidates, "a", "t"), Link(LinkAffects, "a", "n"), Link(LinkInvalidates, "b", "n")}
  }

  lemma OneReceipt()
    ensures Receipts(Start(TWO_TASKS), FIRE_ON_T, false, FIRE_ON_T.deps) ==
      [N_AFFECTED.(applied := false, appliedStatus := None)]
  {
    assert FIRE_ON_T.deps[..0] == [];
  }

  lemma AppliedReceipt(c: Receipt)
    requires c == N_AFFECTED.(applied := false, appliedStatus := None)
    ensures ApplyTarget(TWO_TASKS, T_TARGETED.(applied := false, appliedStatus := None))
      == (TWO_TASKS["t" := OPEN_TASK.(status := Some(Invalidated))], T_TARGETED)
    ensures ApplyAll(TWO_TASKS["t" := OPEN_TASK.(status := Some(Invalidated))], [c])
      == (map["t" := OPEN_TASK.(status := Some(Invalidated)), "n" := OPEN_TASK.(status := Some(Uncertain))],
        [N_AFFECTED])
  {
    var nodes := TWO_TASKS["t" := OPEN_TASK.(status := Some(Invalidated))];
    assert ApplyAll(nodes, [c][..0]) == (nodes, []);
    var uncertain := OPEN_TASK.(status := Some(Uncertain));
    assert ApplyOne(nodes, c) == (nodes["n" := uncertain], N_AFFECTED);
    assert nodes["n" := uncertain] == map["t" := OPEN_TASK.(status := Some(Invalidated)), "n" := uncertain];
    assert [c][0] == c && [] + [N_AFFECTED] == [N_AFFECTED];
  }

  lemma FireOnT()
    ensures Apply(Start(TWO_TASKS), DoFire(FIRE_ON_T)) == State(
      map["t" := OPEN_TASK.(status := Some(Invalidated)), "n" := OPEN_TASK.(status := Some(Uncertain))],
      [Inv("a", IsOpen, T_TARGETED, [N_AFFECTED])],
      {Link(LinkInvalidates, "a", "t"), Link(LinkAffects, "a", "n")})
  {
    var c := N_AFFECTED.(applied := false, appliedStatus := None);
    OneReceipt();
    AppliedReceipt(c);
    assert [c][0] == c && AffectsLinks("a", [c]) == {Link(LinkAffects, "a", "n")};
    assert TargetReceipt(Start(TWO_TASKS), "t") == T_TARGETED.(applied := false, appliedStatus := None);
  }

  lemma FireOnN(s: State)
    requires s.invs == [A_OPEN] && "n" in s.nodes && s.nodes["n"] == OPEN_TASK.(status := Some(Uncertain))
    ensures Apply(s, DoFire(FIRE_ON_N)) == if Legal(s, DoFire(FIRE_ON_N)) then State(
      s.nodes["n" := OPEN_TASK.(status := Some(Invalidated))], [A_OPEN, B_OPEN],
      s.links + {Link(LinkInvalidates, "b", "n")}) else s
  {
    assert AffectsLinks("b", []) == {};
    assert A_OPEN.affected[0] == N_AFFECTED;
    assert HeldRestore([A_OPEN], "n", Some(Uncertain)) == Some(Open);
    assert TargetReceipt(s, "n") == N_TARGETED.(applied := false, appliedStatus := None);
  }

  /** Two fires reach it. */
  lemma MixedRolesReached()
    ensures MixedRoles(Apply(Apply(Start(TWO_TASKS), DoFire(FIRE_ON_T)), DoFire(FIRE_ON_N)))
  {
    FireOnT();
    FireOnN(Apply(Start(TWO_TASKS), DoFire(FIRE_ON_T)));
  }

  lemma CloseB(s: State)
    requires MixedRoles(s)
    ensures Apply(s, DoResolve("b", NarrowedScope(false), true)) == s.(invs := [A_OPEN, B_OPEN.(status := IsResolved)])
  {
    assert Preflight(s, B_OPEN);
    assert A_OPEN.affected[0] == N_AFFECTED;
    assert HeldByOthers(s, "b", "n") by { assert s.invs[0] == A_OPEN && Holds(A_OPEN, "n"); }
  }

  lemma CloseA(u: State)
    requires u.invs == [A_OPEN, B_OPEN.(status := IsResolved)] && "n" in u.nodes && Preflight(u, A_OPEN)
    requires u.nodes["n"].status == Some(Invalidated)
    ensures var t := Apply(u, DoResolve("a", NarrowedScope(false), true));
      && t.invs == [B_OPEN.(status := IsResolved), A_OPEN.(status := IsResolved)]
      && "n" in t.nodes && t.nodes["n"] == u.nodes["n"]
  {
    assert u.invs[..1] == [A_OPEN] && Find(u.invs, "a") == Some(0);
    var nodes := ResolveTarget(u, "a", NarrowedScope(false), T_TARGETED).value;
    assert A_OPEN.affected[0] == N_AFFECTED && ReleaseAll(u, "a", nodes, A_OPEN.affected[..0]) == nodes;
  }

  /** The one that targets the task is resolved first and leaves it alone, because the
      other holds it; and the other one skips what is invalidated. Nothing holds the task
      in the end, and it is still invalidated. */
  lemma MixedRolesStrand(s: State)
    requires MixedRoles(s)
    ensures var u := Apply(s, DoResolve("b", NarrowedScope(false), true));
      var t := Apply(u, DoResolve("a", NarrowedScope(false), true));
      !Held(t, "n") && "n" in t.nodes && t.nodes["n"].status == Some(Invalidated)
  {
    CloseB(s);
    var u := Apply(s, DoResolve("b", NarrowedScope(false), true));
    assert ReceiptBound(u, "t", N_AFFECTED) && A_OPEN.affected[0] == N_AFFECTED;
    assert Preflight(u, A_OPEN);
    CloseA(u);
  }

  const T_PENDING := T_TARGETED.(applied := false, appliedStatus := None)
  const FIRE_GATED := Request("p", "t", [], false, 0.9, Some(true), None)
  const FIRE_PLAIN := Request("a", "t", [], false, 0.9, Some(false), None)

  /** A task retired while an invalidation of it, fired when it was open, is pending. */
  const RETIRED := State(
    TWO_TASKS["t" := OPEN_TASK.(status := Some(Resolved))],
    [Inv("p", IsPending, T_PENDING, []), Inv("a", IsResolved, T_TARGETED, [])],
    {Link(LinkInvalidates, "p", "t"), Link(LinkInvalidates, "a", "t")})

  lemma BothFired()
    ensures Apply(Apply(Start(TWO_TASKS), DoFire(FIRE_GATED)), DoFire(FIRE_PLAIN)) == State(
      TWO_TASKS["t" := OPEN_TASK.(status := Some(Invalidated))],
      [Inv("p", IsPending, T_PENDING, []), Inv("a", IsOpen, T_TARGETED, [])], RETIRED.links)
  {
    var p := Inv("p", IsPending, T_PENDING, []);
    assert AffectsLinks("p", []) == {} && AffectsLinks("a", []) == {};
    var s1 := Apply(Start(TWO_TASKS), DoFire(FIRE_GATED));
    assert s1 == State(TWO_TASKS, [p], {Link(LinkInvalidates, "p", "t")});
    assert HeldRestore([p], "t", Some(Open)) == Some(Open) by { assert [p][1..] == []; }
    assert TargetReceipt(s1, "t") == T_PENDING;
  }

  /** A gated fire, a plain one, and the resolution of the second reach it. */
  lemma RetiredReached()
    ensures var s := Apply(Apply(Start(TWO_TASKS), DoFire(FIRE_GATED)), DoFire(FIRE_PLAIN));
      Apply(s, DoResolve("a", ReplacementEvidence, true)) == RETIRED
  {
    BothFired();
    var s := Apply(Apply(Start(TWO_TASKS), DoFire(FIRE_GATED)), DoFire(FIRE_PLAIN));
    assert Find(s.invs, "a") == Some(1) && Preflight(s, s.invs[1]) && !HeldByOthers(s, "a", "t");
    assert Resolve(s, "a", ReplacementEvidence, true) == Done(RETIRED) by {
      assert s.nodes["t" := OPEN_TASK.(status := Some(Resolved))] == RETIRED.nodes;
      assert Version(s.invs, 1, s.invs[1].(status := IsResolved)) == RETIRED.invs;
    }
  }

  lemma RetiredSound()
    ensures Sound(RETIRED) && Find(RETIRED.invs, "p") == Some(0) && !Held(RETIRED, "t")
  {
    assert Preflight(RETIRED, RETIRED.invs[0]) && Preflight(RETIRED, RETIRED.invs[1]);
    assert RETIRED.invs[..1] == [Inv("p", IsPending, T_PENDING, [])];
  }

  /** The pending one, confirmed and narrowed, brings the old status back. */
  lemma StalePendingRevives()
    ensures !Held(RETIRED, "t") && RETIRED.nodes["t"].status == Some(Resolved)
    ensures var t := Apply(Apply(RETIRED, DoConfirm("p", true)), DoResolve("p", NarrowedScope(false), true));
      "t" in t.nodes && t.nodes["t"].status == Some(Open)
  {
    RetiredSound();
    ConfirmThenNarrowIff(RETIRED, "p", false, "t");
  }

  /** Narrowing a node beyond its authority while something else holds it strands it: no
      later resolution, in any mode, gives it another status. */
  lemma NarrowedBeyondStrands(s: State, a: string, b: string, mode: Mode, evidence: bool, n: string)
    requires n in s.nodes && HeldByOthers(s, a, n) && Ends(s, a, NarrowedScope(true), n)
    requires Resolve(s, a, NarrowedScope(true), true).Done?
    ensures var u := Resolve(s, a, NarrowedScope(true), true).state;
      var r := Resolve(u, b, mode, evidence);
      r.Done? ==> n in r.state.nodes && r.state.nodes[n].status == s.nodes[n].status
  {
    ClosingKeepsHeld(s, a, NarrowedScope(true), true, n);
    var u := Resolve(s, a, NarrowedScope(true), true).state;
    if Resolve(u, b, mode, evidence).Done? {
      UnmandatedKept(u, b, mode, evidence, n);
    }
  }

  const C_OPEN := Inv(
    "c", IsOpen, Receipt("t", Task, Invalidates, [], Some(Invalidated), Some(Open), false, Some(Invalidated)), [])

  /** Two fires on one open task. */
  const TWICE_TARGETED := State(
    TWO_TASKS["t" := OPEN_TASK.(status := Some(Invalidated))],
    [Inv("a", IsOpen, T_TARGETED, []), C_OPEN],
    {Link(LinkInvalidates, "a", "t"), Link(LinkInvalidates, "c", "t")})

  lemma TwiceTargetedReached()
    ensures Apply(Apply(Start(TWO_TASKS), DoFire(FIRE_PLAIN)), DoFire(FIRE_PLAIN.(id := "c"))) == TWICE_TARGETED
  {
    var a := Inv("a", IsOpen, T_TARGETED, []);
    assert AffectsLinks("a", []) == {} && AffectsLinks("c", []) == {};
    var s1 := Apply(Start(TWO_TASKS), DoFire(FIRE_PLAIN));
    assert s1 == State(TWICE_TARGETED.nodes, [a], {Link(LinkInvalidates, "a", "t")});
    assert HeldRestore([a], "t", Some(Invalidated)) == Some(Open);
    assert TWICE_TARGETED.nodes["t" := TWICE_TARGETED.nodes["t"]] == TWICE_TARGETED.nodes;
  }

  const NARROWED_ONCE := TWICE_TARGETED.(
    nodes := TWO_TASKS["t" := OPEN_TASK.(status := Some(Invalidated), mandate := false)],
    invs := [C_OPEN, Inv("a", IsResolved, T_TARGETED, [])])

  lemma NarrowedOnceReached()
    ensures Apply(TWICE_TARGETED, DoResolve("a", NarrowedScope(true), true)) == NARROWED_ONCE
  {
    var s := TWICE_TARGETED;
    assert s.invs[..0] + s.invs[1..] == [C_OPEN] && s.invs[..1] == [s.invs[0]];
    assert Find(s.invs, "a") == Some(0) && Preflight(s, s.invs[0]);
    assert HeldByOthers(s, "a", "t") by { assert Holds(s.invs[1], "t"); }
    assert s.nodes["t" := s.nodes["t"].(mandate := false)] == NARROWED_ONCE.nodes;
  }

  lemma ClosedOutOfMandate(u: State, c: Inv, a: Inv)
    requires u.invs == [c, a] && c.id != a.id && c.status == IsOpen && c.affected == [] && Preflight(u, c)
    requires !u.nodes[c.target.node].mandate
    ensures Apply(u, DoResolve(c.id, NarrowedScope(false), true)) == u.(invs := [a, c.(status := IsResolved)])
  {
    assert u.invs[..1] == [c] && u.invs[..0] + u.invs[1..] == [a];
    assert Find(u.invs, c.id) == Some(0);
  }

  /** Both narrowed, the first beyond the task's authority: nothing holds the task any
      more, and it is still invalidated. */
  lemma NarrowedTaskStranded()
    ensures var u := Apply(TWICE_TARGETED, DoResolve("a", NarrowedScope(true), true));
      var t := Apply(u, DoResolve("c", NarrowedScope(false), true));
      !Held(t, "t") && "t" in t.nodes && t.nodes["t"].status == Some(Invalidated)
  {
    NarrowedOnceReached();
    assert Preflight(NARROWED_ONCE, C_OPEN);
    ClosedOutOfMandate(NARROWED_ONCE, C_OPEN, NARROWED_ONCE.invs[1]);
  }
}
