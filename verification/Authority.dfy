/**
 Authority decisions: confirming a proposal, revoking a confirmation, replacing its
 scope. The log of decisions is canonical; a confirmation's state is derived from it,
 and each decision names the revision of the state it decides about.

 One project. An event is known by its position in the log, and a confirmation by the
 position of the decision that made it.
 */
module Authority {
  import opened Options

  /** What a node's scope field holds: the two scopes a decision may set, or any other
      object, which only other code writes. */
  datatype Scope = Global | Tasks(ids: seq<nat>) | Foreign(text: string)

  /** The retained extraction a proposal comes from. */
  datatype Origin = Origin(version: int, digest: string, kind: string, text: string, criticality: string)

  datatype Request =
    | Confirm(id: string, project: string, proposal: string, expectedVersion: int, expectedDigest: string,
              kind: string, text: string, scope: Scope)
    | Revoke(id: string, project: string, confirmation: nat, expectedVersion: int, expectedDigest: string)
    | ReplaceScope(id: string, project: string, confirmation: nat, expectedVersion: int, expectedDigest: string,
                   newScope: Scope)

  /** What the decisions about one confirmation add up to. */
  datatype State = State(
    confirmation: nat, proposal: string, statement: string, kind: string, scope: Scope,
    version: nat, revoked: bool, decisionEvent: nat, decidedAt: int)

  datatype Event = Decision(request: Request, at: int) | OtherEvent

  /** The graph node that projects a confirmation. */
  datatype Node = Node(state: State, scope: Scope, status: string, criticality: string)

  datatype Ledger = Ledger(log: seq<Event>, nodes: map<nat, Node>)

  /** What stays fixed: the project, the retained extractions and the two digests. */
  datatype Env = Env(
    project: string, origins: map<string, Origin>,
    stateDigest: State -> string, requestDigest: Request -> string)

  /** What the rest of the project says at the time of a request: the proposals that are
      unaltered and supported, those still supported, and whether the capture policy
      lets the request be kept. */
  datatype World = World(now: int, unaltered: set<string>, supported: set<string>, retainable: bool)

  datatype Answer =
    | Receipt(event: nat, confirmation: nat, at: int, requestDigest: string)
    | Malformed | OutsideProject | IdentityConflict | NotBound | NotRetainable

  // ---------------------------------------------------------------- the fold

  /** The confirmation an event decides about, if it is a decision. */
  function About(e: Event, position: nat): Option<nat> {
    match e
    case OtherEvent => None
    case Decision(r, _) => Some(if r.Confirm? then position else r.confirmation)
  }

  datatype Folded = NoDecision | Current(state: State) | Corrupt

  predicate BindsProposal(env: Env, r: Request)
    requires r.Confirm?
  {
    r.proposal in env.origins &&
    var o := env.origins[r.proposal];
    o.version == r.expectedVersion && o.digest == r.expectedDigest && o.kind == r.kind && o.text == r.text
  }

  predicate BindsRevision(env: Env, s: State, r: Request) {
    !s.revoked && r.expectedVersion == s.version && r.expectedDigest == env.stateDigest(s)
  }

  /** The state after one more decision about the confirmation. */
  function Next(env: Env, before: Folded, r: Request, position: nat, at: int): Folded {
    match r
    case Confirm(_, _, proposal, _, _, kind, text, scope) =>
      if before != NoDecision || !BindsProposal(env, r) then Corrupt
      else Current(State(position, proposal, text, kind, scope, 1, false, position, at))
    case Revoke(_, _, _, _, _) =>
      if !before.Current? || !BindsRevision(env, before.state, r) then Corrupt
      else
        Current(before.state.(
          version := before.state.version + 1, revoked := true, decisionEvent := position, decidedAt := at))
    case ReplaceScope(_, _, _, _, _, scope) =>
      if !before.Current? || !BindsRevision(env, before.state, r) then Corrupt
      else
        Current(before.state.(
          version := before.state.version + 1, scope := scope, decisionEvent := position, decidedAt := at))
  }

  /** The state of a confirmation, folded from the decisions since its origin. */
  function Fold(env: Env, log: seq<Event>, id: nat): Folded {
    if |log| <= id then NoDecision
    else
      var n := |log| - 1;
      var before := Fold(env, log[..n], id);
      if About(log[n], n) == Some(id) && before != Corrupt then Next(env, before, log[n].request, n, log[n].at)
      else before
  }

  /** How many decisions there are about a confirmation. */
  function Decisions(log: seq<Event>, id: nat): nat {
    if log == [] then 0
    else
      var n := |log| - 1;
      Decisions(log[..n], id) + if About(log[n], n) == Some(id) then 1 else 0
  }

  // ---------------------------------------------------------------- deciding

  /** The grammar of a scope: global, or 1 to 128 distinct tasks. */
  predicate ScopeShape(s: Scope) {
    match s
    case Global => true
    case Tasks(ids) => 1 <= |ids| <= 128 && forall i, j :: 0 <= i < j < |ids| ==> ids[i] != ids[j]
    case Foreign(_) => false
  }

  /** The grammar of a request, as far as it bears on deciding. */
  predicate Grammatical(r: Request) {
    && r.expectedVersion >= 1
    && match r
       case Confirm(_, _, _, _, _, _, _, scope) => ScopeShape(scope)
       case Revoke(_, _, _, _, _) => true
       case ReplaceScope(_, _, _, _, _, scope) => ScopeShape(scope)
  }

  /** The node shows this state and its scope. */
  predicate Shows(n: Node, s: State) {
    n.state == s && n.scope == s.scope
  }

  /** The node shows this state as the decisions left it. */
  predicate Intact(env: Env, n: Node, s: State) {
    && n.status != "quarantined" && Shows(n, s)
    && s.proposal in env.origins && n.criticality == env.origins[s.proposal].criticality
  }

  /** Whether the projected node carries the authority the log gives it. */
  predicate IsCurrent(env: Env, l: Ledger, id: nat, supported: set<string>) {
    var f := Fold(env, l.log, id);
    && id in l.nodes && f.Current? && !f.state.revoked && f.state.proposal in supported
    && Intact(env, l.nodes[id], f.state)
  }

  const LIVE_TASK: set<string> := {"open", "active", "in_progress", "blocked", "review_required", "uncertain"}

  predicate LiveTask(env: Env, l: Ledger, id: nat, supported: set<string>) {
    IsCurrent(env, l, id, supported) && l.nodes[id].state.kind == "task" && l.nodes[id].status in LIVE_TASK
  }

  predicate ScopeAllowed(env: Env, l: Ledger, kind: string, scope: Scope, supported: set<string>) {
    match scope
    case Global => true
    case Tasks(ids) => kind != "task" && forall i :: 0 <= i < |ids| ==> LiveTask(env, l, ids[i], supported)
    case Foreign(_) => false
  }

  /** The operands of a fresh request against the ledger. */
  predicate Valid(env: Env, l: Ledger, r: Request, w: World) {
    match r
    case Confirm(_, _, proposal, _, _, kind, _, scope) =>
      proposal in w.unaltered && BindsProposal(env, r) && ScopeAllowed(env, l, kind, scope, w.supported)
    case Revoke(_, _, id, _, _) =>
      var f := Fold(env, l.log, id);
      id in l.nodes && f.Current? && BindsRevision(env, f.state, r)
    case ReplaceScope(_, _, id, _, _, scope) =>
      var f := Fold(env, l.log, id);
      && id in l.nodes && f.Current? && BindsRevision(env, f.state, r)
      && IsCurrent(env, l, id, w.supported) && ScopeAllowed(env, l, f.state.kind, scope, w.supported)
  }

  /** The position of the recorded decision with a request identifier. */
  function Recorded(log: seq<Event>, id: string): (r: Option<nat>)
    ensures r.Some? ==> r.value < |log| && log[r.value].Decision? && log[r.value].request.id == id
    ensures r.None? ==> forall i :: 0 <= i < |log| && log[i].Decision? ==> log[i].request.id != id
  {
    if log == [] then None
    else
      var n := |log| - 1;
      if log[n].Decision? && log[n].request.id == id then Some(n) else Recorded(log[..n], id)
  }

  function ReceiptOf(env: Env, e: Event, position: nat): Answer
    requires e.Decision?
  {
    Receipt(position, About(e, position).value, e.at, env.requestDigest(e.request))
  }

  /** The status a decision writes on the node. */
  function NextStatus(l: Ledger, r: Request): string {
    match r
    case Confirm(_, _, _, _, _, kind, _, _) =>
      if kind == "task" then "open" else if kind == "decision" then "accepted" else "active"
    case Revoke(_, _, _, _, _) => "revoked"
    case ReplaceScope(_, _, id, _, _, _) => if id in l.nodes then l.nodes[id].status else ""
  }

  /** A confirmation takes its proposal's criticality; later decisions leave it as it is. */
  function NextCriticality(env: Env, l: Ledger, r: Request): string {
    if r.Confirm? then if r.proposal in env.origins then env.origins[r.proposal].criticality else ""
    else if r.confirmation in l.nodes then l.nodes[r.confirmation].criticality
    else ""
  }

  /** One request: append, project and mark as one step, or change nothing. */
  function Record(env: Env, l: Ledger, r: Request, w: World): (Ledger, Answer) {
    if !Grammatical(r) then (l, Malformed)
    else if r.project != env.project then (l, OutsideProject)
    else
      var known := Recorded(l.log, r.id);
      if known.Some? then
        (l, if l.log[known.value].request == r then ReceiptOf(env, l.log[known.value], known.value)
          else IdentityConflict)
      else if !Valid(env, l, r, w) then (l, NotBound)
      else if !w.retainable then (l, NotRetainable)
      else
        var n := |l.log|;
        var e := Decision(r, w.now);
        var id := About(e, n).value;
        var next := Next(env, Fold(env, l.log, id), r, n, w.now);
        var node := Node(next.state, next.state.scope, NextStatus(l, r), NextCriticality(env, l, r));
        (Ledger(l.log + [e], l.nodes[id := node]), ReceiptOf(env, e, n))
  }

  /** Other events enter the log, and other code rewrites any part of a node: its data, its
      scope, its status, its criticality. */
  datatype Step = Request(r: Request, w: World) | Append | Rewrite(id: nat, node: Node)

  function Apply(env: Env, l: Ledger, step: Step): Ledger {
    match step
    case Request(r, w) => Record(env, l, r, w).0
    case Append => l.(log := l.log + [OtherEvent])
    case Rewrite(id, node) => if id in l.nodes then l.(nodes := l.nodes[id := node]) else l
  }

  function Run(env: Env, l: Ledger, steps: seq<Step>): Ledger {
    if steps == [] then l else Apply(env, Run(env, l, steps[..|steps| - 1]), steps[|steps| - 1])
  }

  const EMPTY := Ledger([], map[])

  // --------------------------------------------------------------- invariants

  /** A confirmation has a node and a fold, whose version is the number of decisions;
      there are no other nodes. What the node shows is not part of this. */
  ghost predicate Agrees(env: Env, l: Ledger, id: nat) {
    var f := Fold(env, l.log, id);
    if id < |l.log| && l.log[id].Decision? && l.log[id].request.Confirm? then
      && f.Current? && f.state.confirmation == id && f.state.version == Decisions(l.log, id)
      && id in l.nodes
    else
      f == NoDecision && Decisions(l.log, id) == 0 && id !in l.nodes
  }

  /** A decision after the origin names the number of decisions before it. */
  ghost predicate NamesRevision(log: seq<Event>, j: nat)
    requires j < |log|
  {
    log[j].Decision? && !log[j].request.Confirm? ==>
      log[j].request.expectedVersion == Decisions(log[..j], log[j].request.confirmation)
  }

  ghost predicate Sound(env: Env, l: Ledger) {
    && (forall id: nat :: Agrees(env, l, id))
    && (forall j :: 0 <= j < |l.log| ==> NamesRevision(l.log, j))
    && (forall i, j :: 0 <= i < j < |l.log| && l.log[i].Decision? && l.log[j].Decision? ==>
      l.log[i].request.id != l.log[j].request.id)
  }

  lemma RecordAgrees(env: Env, l: Ledger, r: Request, w: World, id: nat)
    requires Sound(env, l)
    ensures Agrees(env, Record(env, l, r, w).0, id)
  {
    var t := Record(env, l, r, w).0;
    assert Agrees(env, l, id) && Agrees(env, l, |l.log|);
    if t != l {
      var about := About(Decision(r, w.now), |l.log|).value;
      assert Agrees(env, l, about);
    }
  }

  lemma RecordNames(env: Env, l: Ledger, r: Request, w: World, j: nat)
    requires Sound(env, l) && j < |Record(env, l, r, w).0.log|
    ensures NamesRevision(Record(env, l, r, w).0.log, j)
  {
    var t := Record(env, l, r, w).0;
    assert t.log[..j] == l.log[..j];
    if j < |l.log| {
      assert NamesRevision(l.log, j);
    } else {
      assert l.log[..j] == l.log;
      if !r.Confirm? {
        assert Agrees(env, l, r.confirmation);
      }
    }
  }

  lemma AppendSound(env: Env, l: Ledger)
    requires Sound(env, l)
    ensures Sound(env, l.(log := l.log + [OtherEvent]))
  {
    var log := l.log + [OtherEvent];
    forall id: nat
      ensures Agrees(env, l.(log := log), id)
    {
      assert Agrees(env, l, id);
    }
    forall j | 0 <= j < |log|
      ensures NamesRevision(log, j)
    {
      if j < |l.log| {
        assert NamesRevision(l.log, j) && log[..j] == l.log[..j];
      }
    }
  }

  lemma ApplySound(env: Env, l: Ledger, step: Step)
    requires Sound(env, l)
    ensures Sound(env, Apply(env, l, step))
  {
    match step
    case Append => AppendSound(env, l);
    case Rewrite(_, _) =>
      forall i: nat ensures Agrees(env, Apply(env, l, step), i) { assert Agrees(env, l, i); }
    case Request(r, w) =>
      forall id: nat ensures Agrees(env, Record(env, l, r, w).0, id) { RecordAgrees(env, l, r, w, id); }
      var t := Record(env, l, r, w).0;
      forall j | 0 <= j < |t.log| ensures NamesRevision(t.log, j) { RecordNames(env, l, r, w, j); }
  }

  /** Over every run from the empty ledger, or from any other with these properties, each
      confirmation has a node and a fold, whose version counts its decisions, and each
      decision named the revision that was current when it was recorded. */
  lemma {:induction false} RunSound(env: Env, l: Ledger, steps: seq<Step>)
    requires l == EMPTY || Sound(env, l)
    ensures Sound(env, Run(env, l, steps))
  {
    if steps == [] {
    } else {
      RunSound(env, l, steps[..|steps| - 1]);
      ApplySound(env, Run(env, l, steps[..|steps| - 1]), steps[|steps| - 1]);
    }
  }

  // ------------------------------------------------------- what the nodes show

  /** The request was recorded, as a decision about the confirmation. */
  predicate Decides(env: Env, l: Ledger, r: Request, w: World, id: nat) {
    Record(env, l, r, w).0.log != l.log && About(Decision(r, w.now), |l.log|) == Some(id)
  }

  /** The last rewrite of a confirmation's node since the last decision about it, if any. */
  function LastRewrite(env: Env, steps: seq<Step>, id: nat): Option<Node> {
    if steps == [] then None
    else
      var front, last := steps[..|steps| - 1], steps[|steps| - 1];
      var l := Run(env, EMPTY, front);
      if last.Rewrite? && last.id == id && id in l.nodes then Some(last.node)
      else if last.Request? && Decides(env, l, last.r, last.w, id) then None
      else LastRewrite(env, front, id)
  }

  /** A node is what the last rewrite left, or else what the last decision projected. */
  ghost predicate Written(env: Env, l: Ledger, id: nat, last: Option<Node>) {
    var f := Fold(env, l.log, id);
    if id !in l.nodes then f == NoDecision && last.None?
    else
      && f.Current? && f.state.proposal in env.origins
      && if last.Some? then l.nodes[id] == last.value
         else Shows(l.nodes[id], f.state) && (!f.state.revoked ==> Intact(env, l.nodes[id], f.state))
  }

  lemma RequestWritten(env: Env, l: Ledger, r: Request, w: World, id: nat, last: Option<Node>)
    requires Sound(env, l) && Written(env, l, id, last)
    ensures Written(env, Record(env, l, r, w).0, id, if Decides(env, l, r, w, id) then None else last)
  {
    assert Agrees(env, l, id) && Agrees(env, l, |l.log|);
  }

  lemma {:induction false} RunWritten(env: Env, steps: seq<Step>, id: nat)
    ensures Written(env, Run(env, EMPTY, steps), id, LastRewrite(env, steps, id))
  {
    if steps == [] {
    } else {
      var front := steps[..|steps| - 1];
      var l := Run(env, EMPTY, front);
      RunWritten(env, front, id);
      RunSound(env, EMPTY, front);
      match steps[|steps| - 1]
      case Append => assert Agrees(env, l, |l.log|);
      case Rewrite(_, _) =>
      case Request(r, w) => RequestWritten(env, l, r, w, id, LastRewrite(env, front, id));
    }
  }

  /** Over every run, the node of a confirmation shows the fold of the log exactly when no
      rewrite followed the last decision about it, or the last one that did wrote what the
      fold says. */
  lemma NodeAgreesIff(env: Env, steps: seq<Step>, id: nat)
    requires id in Run(env, EMPTY, steps).nodes
    ensures var l, f := Run(env, EMPTY, steps), Fold(env, Run(env, EMPTY, steps).log, id);
      var last := LastRewrite(env, steps, id);
      && f.Current?
      && (Shows(l.nodes[id], f.state) <==> last.None? || Shows(last.value, f.state))
  {
    RunWritten(env, steps, id);
  }

  /** And authority is current exactly when it is unrevoked and supported, and no rewrite
      followed the last decision, or the last one that did left the node intact. */
  lemma CurrentIff(env: Env, steps: seq<Step>, id: nat, supported: set<string>)
    ensures var l, f := Run(env, EMPTY, steps), Fold(env, Run(env, EMPTY, steps).log, id);
      var last := LastRewrite(env, steps, id);
      IsCurrent(env, l, id, supported) <==>
        && f.Current? && !f.state.revoked && f.state.proposal in supported
        && (last.None? || Intact(env, last.value, f.state))
  {
    RunWritten(env, steps, id);
  }

  /** Agreement does fail: narrowing a confirmed node to another scope, or correcting its
      data, leaves a node that no longer shows the fold, and whose authority is not current
      until a decision or a rewrite says so again. */
  lemma RewriteDetaches(env: Env, steps: seq<Step>, id: nat, scope: Scope, statement: string, supported: set<string>)
    requires IsCurrent(env, Run(env, EMPTY, steps), id, supported)
    requires var n := Run(env, EMPTY, steps).nodes[id]; scope != n.scope && statement != n.state.statement
    ensures var l := Run(env, EMPTY, steps);
      var n := l.nodes[id];
      var narrowed := Apply(env, l, Rewrite(id, n.(scope := scope)));
      var corrected := Apply(env, l, Rewrite(id, n.(state := n.state.(statement := statement))));
      && Fold(env, narrowed.log, id) == Fold(env, corrected.log, id) == Current(n.state)
      && !Shows(narrowed.nodes[id], n.state) && !IsCurrent(env, narrowed, id, supported)
      && !Shows(corrected.nodes[id], n.state) && !IsCurrent(env, corrected, id, supported)
  {
  }

  /** The shortest such run: one confirmation, and one narrowing. */
  lemma ConfirmThenNarrow(env: Env, r: Request, w: World)
    requires r.Confirm? && r.scope == Global && r.expectedVersion >= 1 && r.project == env.project
    requires r.proposal in w.unaltered && BindsProposal(env, r) && w.retainable
    ensures var l := Run(env, EMPTY, [Step.Request(r, w)]);
      && 0 in l.nodes && IsCurrent(env, l, 0, {r.proposal})
      && var api := l.nodes[0].(scope := Foreign("{\"component\":\"api\"}"));
      var t := Run(env, EMPTY, [Step.Request(r, w), Rewrite(0, api)]);
      && 0 in t.nodes && Fold(env, t.log, 0) == Current(l.nodes[0].state)
      && !Shows(t.nodes[0], l.nodes[0].state) && !IsCurrent(env, t, 0, {r.proposal})
  {
    var confirm := Step.Request(r, w);
    assert Grammatical(r) && Recorded(EMPTY.log, r.id).None? && Valid(env, EMPTY, r, w);
    assert [confirm][..0] == [] && Run(env, EMPTY, [confirm]) == Record(env, EMPTY, r, w).0;
    var l := Run(env, EMPTY, [confirm]);
    assert l.log == [Decision(r, w.now)] && l.log[..0] == [];
    var rewrite := Rewrite(0, l.nodes[0].(scope := Foreign("{\"component\":\"api\"}")));
    assert [confirm, rewrite][..1] == [confirm];
  }

  // --------------------------------------------------------- compare and swap

  lemma {:induction false} DecisionsGrow(log: seq<Event>, i: nat, j: nat, id: nat)
    requires i <= j <= |log|
    ensures Decisions(log[..i], id) <= Decisions(log[..j], id)
    ensures i < j && About(log[i], i) == Some(id) ==> Decisions(log[..i], id) < Decisions(log[..j], id)
    decreases j
  {
    if i < j {
      assert log[..j][..j - 1] == log[..j - 1];
      DecisionsGrow(log, i, j - 1, id);
    }
  }

  /** Two decisions that bind the same revision are never both recorded. */
  lemma RevisionBoundOnce(env: Env, steps: seq<Step>, i: nat, j: nat)
    ensures var log := Run(env, EMPTY, steps).log;
      i < j < |log| && log[i].Decision? && log[j].Decision?
      && !log[i].request.Confirm? && !log[j].request.Confirm?
        && log[i].request.confirmation == log[j].request.confirmation ==>
        log[i].request.expectedVersion < log[j].request.expectedVersion
  {
    var l := Run(env, EMPTY, steps);
    RunSound(env, EMPTY, steps);
    if i < j < |l.log| && l.log[i].Decision? && !l.log[i].request.Confirm? {
      assert NamesRevision(l.log, i) && NamesRevision(l.log, j);
      DecisionsGrow(l.log, i, j, l.log[i].request.confirmation);
    }
  }

  lemma RevokedStays(env: Env, l: Ledger, step: Step, id: nat)
    requires Sound(env, l) && Fold(env, l.log, id).Current? && Fold(env, l.log, id).state.revoked
    ensures Fold(env, Apply(env, l, step).log, id) == Fold(env, l.log, id)
  {
    assert Agrees(env, l, id);
    match step
    case Rewrite(_, _) =>
    case Append =>
    case Request(r, w) =>
  }

  /** A revoked confirmation keeps its state through every later step. */
  lemma {:induction false} RevocationIsFinal(env: Env, l: Ledger, steps: seq<Step>, id: nat)
    requires Sound(env, l) && Fold(env, l.log, id).Current? && Fold(env, l.log, id).state.revoked
    ensures var t := Run(env, l, steps);
      Sound(env, t) && Fold(env, t.log, id) == Fold(env, l.log, id)
  {
    if steps == [] {
    } else {
      var s := Run(env, l, steps[..|steps| - 1]);
      RevocationIsFinal(env, l, steps[..|steps| - 1], id);
      ApplySound(env, s, steps[|steps| - 1]);
      RevokedStays(env, s, steps[|steps| - 1], id);
    }
  }

  // ----------------------------------------------------------- later requests

  /** The log only grows. */
  lemma {:induction false} LogGrows(env: Env, l: Ledger, steps: seq<Step>)
    ensures l.log <= Run(env, l, steps).log
  {
    if steps == [] {
    } else {
      LogGrows(env, l, steps[..|steps| - 1]);
    }
  }

  /** Of two requests that bind one revision, the second is refused, whatever happens
      between them. */
  lemma LoserIsRefused(env: Env, before: seq<Step>, r: Request, w: World, between: seq<Step>, other: Request, w': World)
    requires !r.Confirm? && !other.Confirm? && other.confirmation == r.confirmation
    requires other.expectedVersion == r.expectedVersion && other.project == env.project && Grammatical(other)
    requires var l := Run(env, EMPTY, before);
      Recorded(l.log, r.id).None? && Record(env, l, r, w).1.Receipt?
    ensures var t := Run(env, Record(env, Run(env, EMPTY, before), r, w).0, between);
      Recorded(t.log, other.id).None? ==> Record(env, t, other, w') == (t, NotBound)
  {
    var l := Run(env, EMPTY, before);
    var done := Record(env, l, r, w).0;
    var t := Run(env, done, between);
    RunSound(env, EMPTY, before);
    ApplySound(env, l, Step.Request(r, w));
    RunSound(env, done, between);
    LogGrows(env, done, between);
    var n := |l.log|;
    assert done.log[n] == Decision(r, w.now) && t.log[n] == done.log[n];
    assert NamesRevision(t.log, n) && Agrees(env, t, r.confirmation);
    DecisionsGrow(t.log, n, |t.log|, r.confirmation);
    assert t.log[..|t.log|] == t.log;
  }

  /** However the ledger has moved on since, repeating an answered request appends
      nothing and returns the identical receipt; another request under the same
      identifier is refused. */
  lemma RetryReturnsReceipt(
      env: Env, before: seq<Step>, r: Request, w: World, after: seq<Step>, w': World, other: Request)
    requires var l := Run(env, EMPTY, before);
      Record(env, l, r, w).1.Receipt?
    ensures var l := Run(env, EMPTY, before);
      var (done, receipt) := Record(env, l, r, w);
      var t := Run(env, done, after);
      && Record(env, t, r, w') == (t, receipt)
      && (other.id == r.id && other != r && other.project == env.project && Grammatical(other) ==>
        Record(env, t, other, w') == (t, IdentityConflict))
  {
    var l := Run(env, EMPTY, before);
    var (done, receipt) := Record(env, l, r, w);
    var t := Run(env, done, after);
    RunSound(env, EMPTY, before);
    ApplySound(env, l, Step.Request(r, w));
    LogGrows(env, done, after);
    RunSound(env, done, after);
    var i := receipt.event;
    assert i < |done.log| && done.log[i] == t.log[i];
  }

  // ----------------------------------------------------- what the log says, by itself

  /** The event at `j` is a recorded decision about the confirmation. */
  ghost predicate Decided(log: seq<Event>, id: nat, j: int) {
    && 0 <= j < |log| && log[j].Decision?
    && (if log[j].request.Confirm? then j == id else log[j].request.confirmation == id && id < j)
  }

  /** The event at `j` is one that carries a scope. */
  ghost predicate Scoped(log: seq<Event>, id: nat, j: int, scope: Scope) {
    && Decided(log, id, j)
    && match log[j].request
       case Confirm(_, _, _, _, _, _, _, given) => given == scope
       case ReplaceScope(_, _, _, _, _, given) => given == scope
       case Revoke(_, _, _, _, _) => false
  }

  ghost predicate LastDecided(log: seq<Event>, id: nat, j: int) {
    Decided(log, id, j) && forall k :: j < k < |log| ==> !Decided(log, id, k)
  }

  ghost predicate LastScoped(log: seq<Event>, id: nat, j: int, scope: Scope) {
    Scoped(log, id, j, scope) && forall k :: j < k < |log| && Decided(log, id, k) ==> log[k].request.Revoke?
  }

  ghost predicate Revoked(log: seq<Event>, id: nat) {
    exists j :: Decided(log, id, j) && log[j].request.Revoke?
  }

  ghost function DecidedCount(log: seq<Event>, id: nat): nat {
    if log == [] then 0
    else DecidedCount(log[..|log| - 1], id) + if Decided(log, id, |log| - 1) then 1 else 0
  }

  lemma {:induction false} NoneDecided(log: seq<Event>, id: nat)
    requires forall j :: !Decided(log, id, j)
    ensures DecidedCount(log, id) == 0
  {
    if log == [] {
    } else {
      var n := |log| - 1;
      forall j
        ensures !Decided(log[..n], id, j)
      {
        if 0 <= j < n {
          DecidedBelow(log, id, n, j);
        }
      }
      NoneDecided(log[..n], id);
    }
  }

  /** The state is what the recorded decisions about the confirmation say. */
  ghost predicate ReadOff(log: seq<Event>, id: nat, s: State) {
    && id < |log| && log[id].Decision? && log[id].request.Confirm?
    && s.confirmation == id && s.proposal == log[id].request.proposal
    && s.statement == log[id].request.text && s.kind == log[id].request.kind
    && s.version == DecidedCount(log, id)
    && (s.revoked <==> Revoked(log, id))
    && LastDecided(log, id, s.decisionEvent) && s.decidedAt == log[s.decisionEvent].at
    && exists j :: LastScoped(log, id, j, s.scope)
  }

  /** Decisions of the shorter log are those of the longer one below its end. */
  lemma DecidedBelow(log: seq<Event>, id: nat, n: nat, j: int)
    requires n <= |log| && j < n
    ensures Decided(log[..n], id, j) <==> Decided(log, id, j)
  {
  }

  lemma ReadOffKept(log: seq<Event>, id: nat, s: State)
    requires log != [] && ReadOff(log[..|log| - 1], id, s) && !Decided(log, id, |log| - 1)
    ensures ReadOff(log, id, s)
  {
    var n := |log| - 1;
    forall j | j < n
      ensures Decided(log[..n], id, j) <==> Decided(log, id, j)
    {
      DecidedBelow(log, id, n, j);
    }
    var j :| LastScoped(log[..n], id, j, s.scope);
    assert LastScoped(log, id, j, s.scope);
    if Revoked(log[..n], id) {
      var k :| Decided(log[..n], id, k) && log[..n][k].request.Revoke?;
      assert Decided(log, id, k);
    }
    if Revoked(log, id) {
      var k :| Decided(log, id, k) && log[k].request.Revoke?;
      assert Decided(log[..n], id, k);
    }
  }

  lemma ReadOffNext(log: seq<Event>, id: nat, s: State, t: State)
    requires log != [] && ReadOff(log[..|log| - 1], id, s) && Decided(log, id, |log| - 1)
    requires !log[|log| - 1].request.Confirm? && !s.revoked
    requires var n := |log| - 1;
      t == s.(
        version := s.version + 1, decisionEvent := n, decidedAt := log[n].at,
        revoked := log[n].request.Revoke?, scope := if log[n].request.Revoke? then s.scope else log[n].request.newScope)
    ensures ReadOff(log, id, t)
  {
    var n := |log| - 1;
    forall j | j < n
      ensures Decided(log[..n], id, j) <==> Decided(log, id, j)
    {
      DecidedBelow(log, id, n, j);
    }
    if log[n].request.Revoke? {
      var j :| LastScoped(log[..n], id, j, s.scope);
      assert LastScoped(log, id, j, t.scope);
    } else {
      assert LastScoped(log, id, n, t.scope);
      forall k | Decided(log, id, k)
        ensures !log[k].request.Revoke?
      {
        assert k < n ==> Decided(log[..n], id, k);
      }
    }
  }

  /** The state of a confirmation, said of the log alone: proposal, statement and kind are
      those of its recorded confirmation; the scope is that of the last recorded decision
      that carries one; it is revoked exactly when a revocation is recorded; the decision
      event and time are those of the last decision. */
  lemma {:induction false} FoldReadsOff(env: Env, log: seq<Event>, id: nat)
    ensures Fold(env, log, id).Current? ==> ReadOff(log, id, Fold(env, log, id).state)
    ensures Fold(env, log, id).NoDecision? ==> forall j :: !Decided(log, id, j)
  {
    if |log| <= id {
      assert forall j :: !Decided(log, id, j);
    } else {
      var n := |log| - 1;
      FoldReadsOff(env, log[..n], id);
      forall j | j < n
        ensures Decided(log[..n], id, j) <==> Decided(log, id, j)
      {
        DecidedBelow(log, id, n, j);
      }
      var before, f := Fold(env, log[..n], id), Fold(env, log, id);
      if f.Current? {
        if !Decided(log, id, n) {
          ReadOffKept(log, id, f.state);
        } else if log[n].request.Confirm? {
          assert LastScoped(log, id, n, f.state.scope);
          NoneDecided(log[..n], id);
        } else {
          ReadOffNext(log, id, before.state, f.state);
        }
      }
    }
  }

  // ------------------------------------------------------ when a decision is recorded

  /** The confirmation of a node is unrevoked and supported, and the node shows all of it:
      data, scope and criticality, and is not quarantined. */
  ghost predicate Stands(env: Env, l: Ledger, id: nat, supported: set<string>) {
    && id in l.nodes && Fold(env, l.log, id).Current?
    && var n, s := l.nodes[id], Fold(env, l.log, id).state;
    && !s.revoked && s.proposal in supported && s.proposal in env.origins
    && n.state == s && n.scope == s.scope
    && n.criticality == env.origins[s.proposal].criticality && n.status != "quarantined"
  }

  /** A scope is global, or names tasks that stand and are alive, for something that is not
      a task itself. */
  ghost predicate Assignable(env: Env, l: Ledger, kind: string, scope: Scope, supported: set<string>) {
    scope == Global ||
    (scope.Tasks? && kind != "task" && forall i :: 0 <= i < |scope.ids| ==>
      && Stands(env, l, scope.ids[i], supported) && l.nodes[scope.ids[i]].state.kind == "task"
      && l.nodes[scope.ids[i]].status in {"open", "active", "in_progress", "blocked", "review_required", "uncertain"})
  }

  /** The authority check and the scope check decide just that. */
  lemma ChecksDecide(env: Env, l: Ledger, id: nat, kind: string, scope: Scope, supported: set<string>)
    ensures IsCurrent(env, l, id, supported) <==> Stands(env, l, id, supported)
    ensures ScopeAllowed(env, l, kind, scope, supported) <==> Assignable(env, l, kind, scope, supported)
  {
    if scope.Tasks? {
      forall i | 0 <= i < |scope.ids|
        ensures IsCurrent(env, l, scope.ids[i], supported) <==> Stands(env, l, scope.ids[i], supported)
      {
      }
    }
  }

  ghost predicate WellScoped(scope: Scope) {
    scope == Global ||
    (scope.Tasks? && 1 <= |scope.ids| <= 128 &&
     forall i, j :: 0 <= i < |scope.ids| && 0 <= j < |scope.ids| && scope.ids[i] == scope.ids[j] ==> i == j)
  }

  /** The request names what is current: the proposal as extracted, or the revision. */
  ghost predicate Names(env: Env, l: Ledger, r: Request, w: World) {
    match r
    case Confirm(_, _, proposal, version, digest, kind, text, _) =>
      && proposal in w.unaltered && proposal in env.origins
      && var o := env.origins[proposal];
      o.version == version && o.digest == digest && o.kind == kind && o.text == text
    case _ =>
      && r.confirmation in l.nodes && Fold(env, l.log, r.confirmation).Current?
      && var s := Fold(env, l.log, r.confirmation).state;
      !s.revoked && s.version == r.expectedVersion && env.stateDigest(s) == r.expectedDigest
  }

  /** And its scope can be given. */
  ghost predicate Grantable(env: Env, l: Ledger, r: Request, w: World)
    requires Names(env, l, r, w)
  {
    match r
    case Confirm(_, _, _, _, _, kind, _, scope) => Assignable(env, l, kind, scope, w.supported)
    case Revoke(_, _, _, _, _) => true
    case ReplaceScope(_, _, id, _, _, scope) =>
      Stands(env, l, id, w.supported) && Assignable(env, l, Fold(env, l.log, id).state.kind, scope, w.supported)
  }

  /** A request under a new identifier is recorded exactly when it is well formed, of this
      project, names what is current, asks for a scope that can be given, and may be kept;
      what is refused changes nothing. */
  lemma RecordIff(env: Env, l: Ledger, r: Request, w: World)
    requires forall j :: 0 <= j < |l.log| && l.log[j].Decision? ==> l.log[j].request.id != r.id
    ensures var (t, answer) := Record(env, l, r, w);
      var formed := r.expectedVersion >= 1 && (r.Confirm? ==> WellScoped(r.scope))
        && (r.ReplaceScope? ==> WellScoped(r.newScope));
      && (answer.Receipt? <==>
           formed && r.project == env.project && Names(env, l, r, w) && Grantable(env, l, r, w) && w.retainable)
      && (!answer.Receipt? ==> t == l)
      && (answer.Malformed? <==> !formed)
      && (answer.OutsideProject? <==> formed && r.project != env.project)
  {
    assert Recorded(l.log, r.id).None?;
  }

  /** What a recorded decision leaves: the request at the end of the log, a receipt for it,
      and a node that shows what the log then says; a confirmation starts in the status of
      its kind with its proposal's criticality, a revocation sets the status, and a
      replacement sets the scope that was asked for. No other node changes. */
  lemma RecordWrites(env: Env, l: Ledger, r: Request, w: World)
    requires Sound(env, l) && Record(env, l, r, w).1.Receipt?
    requires forall j :: 0 <= j < |l.log| && l.log[j].Decision? ==> l.log[j].request.id != r.id
    ensures var (t, answer) := Record(env, l, r, w);
      var id := if r.Confirm? then |l.log| else r.confirmation;
      && t.log == l.log + [Decision(r, w.now)]
      && answer == Receipt(|l.log|, id, w.now, env.requestDigest(r))
      && id in t.nodes && t.nodes.Keys == l.nodes.Keys + {id}
      && (forall k :: k in l.nodes && k != id ==> t.nodes[k] == l.nodes[k])
      && var n := t.nodes[id];
      && ReadOff(t.log, id, n.state) && n.scope == n.state.scope
      && match r
         case Confirm(_, _, proposal, _, _, kind, _, scope) =>
           && n.scope == scope && proposal in env.origins && n.criticality == env.origins[proposal].criticality
           && (kind == "task" ==> n.status == "open") && (kind == "decision" ==> n.status == "accepted")
           && (kind != "task" && kind != "decision" ==> n.status == "active")
         case Revoke(_, _, _, _, _) =>
           && n.state.revoked && n.status == "revoked"
           && id in l.nodes && n.criticality == l.nodes[id].criticality
         case ReplaceScope(_, _, _, _, _, scope) =>
           && n.scope == scope && !n.state.revoked
           && id in l.nodes && n.criticality == l.nodes[id].criticality && n.status == l.nodes[id].status
  {
    assert Recorded(l.log, r.id).None?;
    var id := if r.Confirm? then |l.log| else r.confirmation;
    var t := Record(env, l, r, w).0;
    assert Agrees(env, l, id) && Agrees(env, l, |l.log|);
    assert t.log[..|l.log|] == l.log;
    assert Fold(env, t.log, id) == Current(t.nodes[id].state);
    FoldReadsOff(env, t.log, id);
  }

  // ------------------------------------------------------------------ the engine

  class Engine {
    const env: Env
    var log: seq<Event>
    var nodes: map<nat, Node>

    ghost function Contents(): Ledger
      reads this
    {
      Ledger(log, nodes)
    }

    constructor (env: Env)
      ensures this.env == env && Contents() == EMPTY
    {
      this.env, log, nodes := env, [], map[];
    }

    /** The state of a confirmation, derived from the log alone. */
    method AuthorityState(id: nat) returns (f: Folded)
      ensures f == Fold(env, log, id)
    {
      f := NoDecision;
      if |log| <= id {
        return;
      }
      var i: nat := id;
      while i < |log|
        invariant id <= i <= |log|
        invariant f == Fold(env, log[..i], id)
      {
        assert log[..i + 1][..i] == log[..i];
        if About(log[i], i) == Some(id) && f != Corrupt {
          f := Next(env, f, log[i].request, i, log[i].at);
        }
        i := i + 1;
      }
      assert log[..i] == log;
    }

    method AuthorityIsCurrent(id: nat, supported: set<string>) returns (current: bool)
      ensures current == IsCurrent(env, Contents(), id, supported)
    {
      if id !in nodes || nodes[id].status == "quarantined" {
        return false;
      }
      var f := AuthorityState(id);
      current := f.Current? && !f.state.revoked && f.state.proposal in supported
        && nodes[id].state == f.state && nodes[id].scope == f.state.scope
        && f.state.proposal in env.origins && nodes[id].criticality == env.origins[f.state.proposal].criticality;
    }

    method CheckScope(kind: string, scope: Scope, supported: set<string>) returns (ok: bool)
      ensures ok == ScopeAllowed(env, Contents(), kind, scope, supported)
    {
      if scope.Global? {
        return true;
      }
      if kind == "task" || scope.Foreign? {
        return false;
      }
      var i := 0;
      while i < |scope.ids|
        invariant i <= |scope.ids|
        invariant forall j :: 0 <= j < i ==> LiveTask(env, Contents(), scope.ids[j], supported)
      {
        var task := scope.ids[i];
        var current := AuthorityIsCurrent(task, supported);
        if !current || nodes[task].state.kind != "task" || nodes[task].status !in LIVE_TASK {
          return false;
        }
        i := i + 1;
      }
      return true;
    }

    method ValidateOperands(r: Request, w: World) returns (ok: bool, f: Folded)
      ensures ok == Valid(env, Contents(), r, w)
      ensures ok && !r.Confirm? ==> f == Fold(env, log, r.confirmation)
      ensures r.Confirm? ==> f == NoDecision
    {
      f := NoDecision;
      if r.Confirm? {
        ok := r.proposal in w.unaltered && BindsProposal(env, r);
        if ok {
          ok := CheckScope(r.kind, r.scope, w.supported);
        }
        return;
      }
      if r.confirmation !in nodes {
        return false, f;
      }
      f := AuthorityState(r.confirmation);
      ok := f.Current? && BindsRevision(env, f.state, r);
      if ok && r.ReplaceScope? {
        ok := AuthorityIsCurrent(r.confirmation, w.supported);
        if ok {
          ok := CheckScope(f.state.kind, r.newScope, w.supported);
        }
      }
    }

    /** Appends, projects and answers, as one step. */
    method RecordDecision(r: Request, w: World) returns (answer: Answer)
      modifies this
      ensures (Contents(), answer) == Record(env, old(Contents()), r, w)
      ensures old(Sound(env, Contents())) ==> Sound(env, Contents())
    {
      if !Grammatical(r) {
        return Malformed;
      }
      if r.project != env.project {
        return OutsideProject;
      }
      var i := |log|;
      assert log[..i] == log;
      while i > 0
        invariant 0 <= i <= |log|
        invariant Recorded(log, r.id) == Recorded(log[..i], r.id)
      {
        assert log[..i][..i - 1] == log[..i - 1];
        if log[i - 1].Decision? && log[i - 1].request.id == r.id {
          return if log[i - 1].request == r then ReceiptOf(env, log[i - 1], i - 1) else IdentityConflict;
        }
        i := i - 1;
      }
      assert log[..i] == [];
      var ok, f := ValidateOperands(r, w);
      if !ok {
        return NotBound;
      }
      if !w.retainable {
        return NotRetainable;
      }
      if Sound(env, Contents()) {
        ApplySound(env, Contents(), Step.Request(r, w));
      }
      var n := |log|;
      var e := Decision(r, w.now);
      var next := Next(env, f, r, n, w.now);
      var l := Ledger(log, nodes);
      var node := Node(next.state, next.state.scope, NextStatus(l, r), NextCriticality(env, l, r));
      log := log + [e];
      nodes := nodes[About(e, n).value := node];
      return ReceiptOf(env, e, n);
    }
  }
}
