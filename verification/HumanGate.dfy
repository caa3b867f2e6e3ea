/**
 What a pending invalidation can influence. As long as no later fire comes across it among
 its dependents, everything else in the engine happens exactly as if it had never been
 fired; and rejecting it leaves every node, then and later, as it would be without it.
 When a later fire does come across it is the subject of `EvidenceGate`.
 */
module HumanGate {
  import opened Options
  import opened Invalidation

  /** The rows of all invalidations but one. */
  function Drop(invs: seq<Inv>, id: string): seq<Inv> {
    if invs == [] then []
    else if invs[0].id == id then Drop(invs[1..], id)
    else [invs[0]] + Drop(invs[1..], id)
  }

  /** The state as if the invalidation had never been fired. */
  function Without(s: State, id: string): State {
    State(s.nodes, Drop(s.invs, id), set l | l in s.links && l.src != id)
  }

  predicate Asleep(inv: Inv) {
    inv.status == IsPending || inv.status == IsRejected
  }

  ghost predicate Mentions(inv: Inv, id: string) {
    exists i :: 0 <= i < |inv.affected| && inv.affected[i].node == id
  }

  /** The invalidation is waiting, rejected or absent, and no other one has a receipt for it. */
  ghost predicate Dormant(s: State, id: string) {
    && (forall i :: 0 <= i < |s.invs| && s.invs[i].id == id ==> Asleep(s.invs[i]))
    && (forall i :: 0 <= i < |s.invs| && s.invs[i].id != id ==> !Mentions(s.invs[i], id))
  }

  lemma {:induction false} DropMembers(invs: seq<Inv>, id: string, inv: Inv)
    ensures inv in Drop(invs, id) <==> inv in invs && inv.id != id
  {
    if invs == [] {
    } else {
      DropMembers(invs[1..], id, inv);
      assert inv in invs <==> inv == invs[0] || inv in invs[1..];
    }
  }

  lemma {:induction false} DropAppend(invs: seq<Inv>, inv: Inv, id: string)
    ensures Drop(invs + [inv], id) == Drop(invs, id) + if inv.id == id then [] else [inv]
  {
    if invs == [] {
      assert invs + [inv] == [inv];
    } else {
      DropAppend(invs[1..], inv, id);
      assert (invs + [inv])[1..] == invs[1..] + [inv];
    }
  }

  lemma {:induction false} DropCommutes(invs: seq<Inv>, x: string, y: string)
    ensures Drop(Drop(invs, x), y) == Drop(Drop(invs, y), x)
  {
    if invs == [] {
    } else {
      var first, rest := invs[0], invs[1..];
      DropCommutes(rest, x, y);
      assert ([first] + Drop(rest, x))[1..] == Drop(rest, x);
      assert ([first] + Drop(rest, y))[1..] == Drop(rest, y);
    }
  }

  lemma {:induction false} DropAbsent(invs: seq<Inv>, id: string)
    requires forall i :: 0 <= i < |invs| ==> invs[i].id != id
    ensures Drop(invs, id) == invs
  {
    if invs == [] {
    } else {
      DropAbsent(invs[1..], id);
    }
  }

  predicate DistinctIds(invs: seq<Inv>) {
    forall i, j :: 0 <= i < j < |invs| ==> invs[i].id != invs[j].id
  }

  lemma {:induction false} DropOne(invs: seq<Inv>, i: nat)
    requires i < |invs| && DistinctIds(invs)
    ensures Drop(invs, invs[i].id) == invs[..i] + invs[i + 1..]
  {
    var rest := invs[1..];
    if i == 0 {
      DropAbsent(rest, invs[0].id);
      assert invs[..0] + rest == rest;
    } else {
      DropOne(rest, i - 1);
      assert rest[..i - 1] == invs[1..i] && rest[i..] == invs[i + 1..];
      assert invs[..i] == [invs[0]] + invs[1..i];
    }
  }

  lemma {:induction false} DropDistinct(invs: seq<Inv>, id: string)
    requires DistinctIds(invs)
    ensures DistinctIds(Drop(invs, id))
  {
    if invs == [] {
    } else {
      DropDistinct(invs[1..], id);
      forall k | 0 <= k < |Drop(invs[1..], id)|
        ensures Drop(invs[1..], id)[k].id != invs[0].id
      {
        DropMembers(invs[1..], id, Drop(invs[1..], id)[k]);
      }
    }
  }

  /** Finding another invalidation, and giving it a new version, ignore the dropped one. */
  lemma FindWithout(invs: seq<Inv>, id: string, x: string)
    requires DistinctIds(invs) && x != id
    ensures var i, j := Find(invs, x), Find(Drop(invs, id), x);
      && (i.None? <==> j.None?)
      && (i.Some? ==> Drop(invs, id)[j.value] == invs[i.value])
  {
    var i, j := Find(invs, x), Find(Drop(invs, id), x);
    if i.Some? {
      DropMembers(invs, id, invs[i.value]);
      var k :| 0 <= k < |Drop(invs, id)| && Drop(invs, id)[k] == invs[i.value];
      DropDistinct(invs, id);
    }
    if j.Some? {
      DropMembers(invs, id, Drop(invs, id)[j.value]);
    }
  }

  lemma VersionWithout(invs: seq<Inv>, id: string, x: string, inv: Inv)
    requires DistinctIds(invs) && x != id && inv.id == x && Find(invs, x).Some? && Find(Drop(invs, id), x).Some?
    ensures Version(Drop(invs, id), Find(Drop(invs, id), x).value, inv) ==
      Drop(Version(invs, Find(invs, x).value, inv), id)
  {
    DropDistinct(invs, id);
    DropOne(invs, Find(invs, x).value);
    DropOne(Drop(invs, id), Find(Drop(invs, id), x).value);
    DropAppend(Drop(invs, x), inv, id);
    DropCommutes(invs, x, id);
  }

  lemma {:induction false} RestoreWithout(invs: seq<Inv>, id: string, n: string, current: Option<Status>)
    requires forall i :: 0 <= i < |invs| && invs[i].id == id ==> Asleep(invs[i])
    ensures HeldRestore(Drop(invs, id), n, current) == HeldRestore(invs, n, current)
  {
    if invs == [] {
    } else {
      RestoreWithout(invs[1..], id, n, current);
      var rest := Drop(invs[1..], id);
      assert ([invs[0]] + rest)[1..] == rest;
    }
  }

  lemma HeldWithout(s: State, id: string, x: string, n: string)
    requires Dormant(s, id)
    ensures HeldByOthers(Without(s, id), x, n) <==> HeldByOthers(s, x, n)
  {
    var d := Drop(s.invs, id);
    if HeldByOthers(s, x, n) {
      var i :| 0 <= i < |s.invs| && s.invs[i].id != x && Holds(s.invs[i], n);
      DropMembers(s.invs, id, s.invs[i]);
      var k :| 0 <= k < |d| && d[k] == s.invs[i];
    }
    if HeldByOthers(Without(s, id), x, n) {
      var k :| 0 <= k < |d| && d[k].id != x && Holds(d[k], n);
      DropMembers(s.invs, id, d[k]);
      var i :| 0 <= i < |s.invs| && s.invs[i] == d[k];
    }
  }

  ghost predicate SameHolds(s: State, t: State, x: string) {
    forall n :: HeldByOthers(s, x, n) <==> HeldByOthers(t, x, n)
  }

  lemma {:induction false} ReleaseSame(s: State, t: State, x: string, nodes: map<string, Node>, cs: seq<Receipt>)
    requires SameHolds(s, t, x)
    ensures ReleaseAll(s, x, nodes, cs) == ReleaseAll(t, x, nodes, cs)
    ensures Sweep(s, x, nodes, cs) == Sweep(t, x, nodes, cs)
  {
    if cs == [] {
    } else {
      ReleaseSame(s, t, x, nodes, cs[..|cs| - 1]);
    }
  }

  lemma HoldsWithout(s: State, id: string, x: string)
    requires Dormant(s, id)
    ensures SameHolds(Without(s, id), s, x)
  {
    forall n
      ensures HeldByOthers(Without(s, id), x, n) <==> HeldByOthers(s, x, n)
    {
      HeldWithout(s, id, x, n);
    }
  }

  lemma KnownWithout(s: State, id: string, x: string)
    requires DistinctIds(s.invs) && x != id
    ensures Known(Without(s, id), x) == Known(s, x)
  {
    FindWithout(s.invs, id, x);
  }

  /** The traversal did not come across the invalidation. */
  predicate Avoids(deps: seq<Dep>, id: string) {
    forall i :: 0 <= i < |deps| ==> deps[i].node != id
  }

  lemma {:induction false} ReceiptsWithout(s: State, id: string, r: Request, human: bool, deps: seq<Dep>)
    requires DistinctIds(s.invs) && Dormant(s, id) && Avoids(deps, id)
    ensures Receipts(Without(s, id), r, human, deps) == Receipts(s, r, human, deps)
  {
    if deps == [] {
    } else {
      var d := deps[|deps| - 1];
      ReceiptsWithout(s, id, r, human, deps[..|deps| - 1]);
      KnownWithout(s, id, d.node);
      if Known(s, d.node).Some? {
        RestoreWithout(s.invs, id, d.node, Known(s, d.node).value.status);
      }
    }
  }

  // ------------------------------------------------------------ step by step

  lemma {:induction false} ReceiptsAvoid(s: State, id: string, r: Request, human: bool, deps: seq<Dep>)
    requires Avoids(deps, id)
    ensures forall i :: 0 <= i < |Receipts(s, r, human, deps)| ==> Receipts(s, r, human, deps)[i].node != id
  {
    if deps == [] {
    } else {
      ReceiptsAvoid(s, id, r, human, deps[..|deps| - 1]);
    }
  }

  lemma FireDormant(s: State, id: string, r: Request)
    requires Dormant(s, id) && r.id != id && Avoids(r.deps, id) && Fire(s, r).Done?
    ensures Dormant(Fire(s, r).state, id)
  {
    var human := RequiresHuman(r, s.nodes[r.target]);
    var nodes := ApplyTarget(s.nodes, TargetReceipt(s, r.target)).0;
    ReceiptsAvoid(s, id, r, human, r.deps);
    ApplyAllFrame(nodes, Receipts(s, r, human, r.deps));
    var inv := Fire(s, r).state.invs[|s.invs|];
    assert forall i :: 0 <= i < |inv.affected| ==> SameReceipt(Receipts(s, r, human, r.deps)[i], inv.affected[i]);
  }

  lemma LinksWithout(s: State, id: string, r: Request, cs: seq<Receipt>)
    requires r.id != id
    ensures FireLinks(Without(s, id), r, cs) == set l | l in FireLinks(s, r, cs) && l.src != id
  {
    var added := FireLinks(s.(links := {}), r, cs);
    assert forall l :: l in added ==> l.src == r.id;
    assert FireLinks(s, r, cs) == s.links + added && FireLinks(Without(s, id), r, cs) == Without(s, id).links + added;
  }

  lemma FireWithout(s: State, id: string, r: Request)
    requires DistinctIds(s.invs) && Dormant(s, id) && r.id != id && Avoids(r.deps, id)
    ensures match Fire(s, r)
      case Error => Fire(Without(s, id), r) == Error
      case Done(t) => Fire(Without(s, id), r) == Done(Without(t, id)) && Dormant(t, id)
  {
    if Fire(s, r).Done? {
      var human := RequiresHuman(r, s.nodes[r.target]);
      ReceiptsWithout(s, id, r, human, r.deps);
      RestoreWithout(s.invs, id, r.target, s.nodes[r.target].status);
      LinksWithout(s, id, r, Receipts(s, r, human, r.deps));
      DropAppend(s.invs, Fire(s, r).state.invs[|s.invs|], id);
      FireDormant(s, id, r);
    }
  }

  lemma PreflightWithout(s: State, id: string, inv: Inv)
    requires DistinctIds(s.invs) && inv.id != id && !Mentions(inv, id)
    ensures Preflight(Without(s, id), inv) <==> Preflight(s, inv)
  {
    var t := Without(s, id);
    assert forall l: Link :: l.src == inv.id ==> (l in t.links <==> l in s.links);
    forall i | 0 <= i < |inv.affected|
      ensures ReceiptBound(t, inv.target.node, inv.affected[i]) <==> ReceiptBound(s, inv.target.node, inv.affected[i])
    {
      KnownWithout(s, id, inv.affected[i].node);
    }
  }

  lemma SameMentions(a: Inv, b: Inv, id: string)
    requires SameReceipts(a.affected, b.affected)
    ensures Mentions(a, id) <==> Mentions(b, id)
  {
    assert forall i :: 0 <= i < |a.affected| ==> SameReceipt(a.affected[i], b.affected[i]);
  }

  lemma VersionDormant(s: State, nodes: map<string, Node>, id: string, i: nat, inv: Inv)
    requires Dormant(s, id) && i < |s.invs| && inv.id != id && !Mentions(inv, id)
    ensures Dormant(State(nodes, Version(s.invs, i, inv), s.links), id)
  {
  }

  lemma ConfirmWithout(s: State, id: string, x: string, accept: bool)
    requires DistinctIds(s.invs) && Dormant(s, id) && x != id
    ensures match Confirm(s, x, accept)
      case Error => Confirm(Without(s, id), x, accept) == Error
      case Done(t) => Confirm(Without(s, id), x, accept) == Done(Without(t, id)) && Dormant(t, id)
  {
    FindWithout(s.invs, id, x);
    var f := Find(s.invs, x);
    if f.Some? {
      var inv := s.invs[f.value];
      PreflightWithout(s, id, inv);
      if Confirm(s, x, accept).Done? {
        var t := Confirm(s, x, accept).state;
        var last := if accept then t.invs[|t.invs| - 1] else inv.(status := IsRejected);
        ConfirmVersion(s, x, accept);
        SameMentions(inv, last, id);
        VersionWithout(s.invs, id, x, last);
        VersionDormant(s, t.nodes, id, f.value, last);
        if !accept {
          var closed := s.(invs := Version(s.invs, f.value, last));
          VersionDormant(s, s.nodes, id, f.value, last);
          HoldsWithout(closed, id, x);
          ReleaseSame(Without(closed, id), closed, x, s.nodes, inv.affected + [inv.target]);
        }
      }
    }
  }

  lemma ResolveOther(s: State, id: string, x: string, mode: Mode)
    requires DistinctIds(s.invs) && Dormant(s, id) && x != id && Find(s.invs, x).Some?
    requires Resolve(s, x, mode, true).Done?
    ensures var t := Resolve(s, x, mode, true).state;
      Resolve(Without(s, id), x, mode, true) == Done(Without(t, id)) && Dormant(t, id)
  {
    var i := Find(s.invs, x).value;
    var inv := s.invs[i];
    var done := inv.(status := IsResolved);
    var nodes := ResolveTarget(s, x, mode, inv.target).value;
    FindWithout(s.invs, id, x);
    PreflightWithout(s, id, inv);
    HoldsWithout(s, id, x);
    ReleaseSame(Without(s, id), s, x, nodes, inv.affected);
    VersionWithout(s.invs, id, x, done);
    VersionDormant(s, ReleaseAll(s, x, nodes, inv.affected), id, i, done);
  }

  lemma ResolveRefused(s: State, id: string, x: string, mode: Mode)
    requires DistinctIds(s.invs) && Dormant(s, id) && x != id && Resolve(s, x, mode, true).Error?
    ensures Resolve(Without(s, id), x, mode, true).Error?
  {
    FindWithout(s.invs, id, x);
    if Find(s.invs, x).Some? {
      var inv := s.invs[Find(s.invs, x).value];
      PreflightWithout(s, id, inv);
      if Preflight(s, inv) {
        HoldsWithout(s, id, x);
      }
    }
  }

  lemma ResolveWithout(s: State, id: string, x: string, mode: Mode, evidence: bool)
    requires DistinctIds(s.invs) && Dormant(s, id)
    ensures match Resolve(s, x, mode, evidence)
      case Error => Resolve(Without(s, id), x, mode, evidence) == Error
      case Done(t) => Resolve(Without(s, id), x, mode, evidence) == Done(Without(t, id)) && Dormant(t, id)
  {
    if x == id {
      NotFoundWithout(s.invs, id);
    } else if evidence {
      if Resolve(s, x, mode, true).Done? {
        ResolveOther(s, id, x, mode);
      } else {
        ResolveRefused(s, id, x, mode);
      }
    }
  }

  lemma NotFoundWithout(invs: seq<Inv>, id: string)
    ensures Find(Drop(invs, id), id).None?
  {
    var d := Drop(invs, id);
    if Find(d, id).Some? {
      DropMembers(invs, id, d[Find(d, id).value]);
    }
  }

  /** The step does not accept the invalidation, reuse its identifier, or come across it. */
  predicate Unaccepting(step: Step, id: string) {
    match step
    case DoFire(r) => r.id != id && Avoids(r.deps, id)
    case DoConfirm(x, accept) => x != id || !accept
    case DoResolve(_, _, _) => true
  }

  /** And does not reject it either. */
  predicate Elsewhere(step: Step, id: string) {
    Unaccepting(step, id) && (step.DoConfirm? ==> step.id != id)
  }

  lemma LegalWithout(s: State, id: string, step: Step)
    requires Unaccepting(step, id)
    ensures Legal(Without(s, id), step) <==> Legal(s, step)
  {
    if step.DoFire? {
      var d := Drop(s.invs, id);
      forall i | 0 <= i < |d| ensures d[i] in s.invs { DropMembers(s.invs, id, d[i]); }
      forall i | 0 <= i < |s.invs| ensures s.invs[i].id == id || s.invs[i] in d { DropMembers(s.invs, id, s.invs[i]); }
    }
  }

  lemma VersionDropped(invs: seq<Inv>, i: nat, inv: Inv)
    requires i < |invs| && DistinctIds(invs) && inv.id == invs[i].id
    ensures Drop(Version(invs, i, inv), inv.id) == Drop(invs, inv.id)
  {
    var others := invs[..i] + invs[i + 1..];
    DropOne(invs, i);
    DropAppend(others, inv, inv.id);
    DropAbsent(others, inv.id);
  }

  /** Rejecting it, when it is there to reject, is forgotten with it. */
  lemma RejectWithout(s: State, id: string)
    requires DistinctIds(s.invs) && Dormant(s, id)
    ensures match Confirm(s, id, false)
      case Error => true
      case Done(t) => Without(t, id) == Without(s, id) && Dormant(t, id)
    ensures Confirm(Without(s, id), id, false).Error?
  {
    NotFoundWithout(s.invs, id);
    if Confirm(s, id, false).Done? {
      var i := Find(s.invs, id).value;
      var last := s.invs[i].(status := IsRejected);
      RejectInert(s, id);
      VersionDropped(s.invs, i, last);
    }
  }

  /** A step that does not accept the invalidation commutes with forgetting it. */
  lemma ApplyWithout(s: State, id: string, step: Step)
    requires DistinctIds(s.invs) && Dormant(s, id) && Unaccepting(step, id)
    ensures Apply(Without(s, id), step) == Without(Apply(s, step), id) && Dormant(Apply(s, step), id)
  {
    LegalWithout(s, id, step);
    match step
    case DoFire(r) => FireWithout(s, id, r);
    case DoConfirm(x, accept) => if x == id { RejectWithout(s, id); } else { ConfirmWithout(s, id, x, accept); }
    case DoResolve(x, mode, evidence) => ResolveWithout(s, id, x, mode, evidence);
  }

  // ------------------------------------------------------------------ over runs

  lemma {:induction false} RunWithout(s: State, id: string, steps: seq<Step>)
    requires Sound(s) && Dormant(s, id) && forall i :: 0 <= i < |steps| ==> Unaccepting(steps[i], id)
    ensures var t := Run(s, steps);
      Sound(t) && Dormant(t, id) && Run(Without(s, id), steps) == Without(t, id)
  {
    if steps == [] {
    } else {
      var front := steps[..|steps| - 1];
      RunWithout(s, id, front);
      ApplyKeepsSound(Run(s, front), steps[|steps| - 1]);
      ApplyWithout(Run(s, front), id, steps[|steps| - 1]);
    }
  }

  /** Every receipt names a node or an invalidation. */
  ghost predicate NamesKnown(s: State) {
    forall i :: 0 <= i < |s.invs| ==> BoundIn(s, s.invs[i].affected)
  }

  ghost predicate BoundIn(s: State, cs: seq<Receipt>) {
    forall j :: 0 <= j < |cs| ==> Known(s, cs[j].node).Some?
  }

  lemma BoundKept(s: State, t: State, a: seq<Receipt>, b: seq<Receipt>)
    requires BoundIn(s, a) && OnlyStatuses(s.nodes, t.nodes) && KeepsIds(s.invs, t.invs) && SameReceipts(a, b)
    ensures BoundIn(t, b)
  {
    forall j | 0 <= j < |b|
      ensures Known(t, b[j].node).Some?
    {
      assert Known(s, a[j].node).Some? && SameReceipt(a[j], b[j]);
    }
  }

  lemma VersionNames(s: State, nodes: map<string, Node>, i: nat, inv: Inv)
    requires NamesKnown(s) && OnlyStatuses(s.nodes, nodes) && i < |s.invs| && inv.id == s.invs[i].id
    requires SameReceipts(s.invs[i].affected, inv.affected)
    ensures NamesKnown(s.(nodes := nodes, invs := Version(s.invs, i, inv)))
  {
    var v := Version(s.invs, i, inv);
    var t := s.(nodes := nodes, invs := v);
    VersionKeepsIds(s.invs, i, inv);
    forall j | 0 <= j < |v|
      ensures BoundIn(t, v[j].affected)
    {
      var k := if j == |v| - 1 then i else if j < i then j else j + 1;
      BoundKept(s, t, s.invs[k].affected, v[j].affected);
    }
  }

  lemma FireNames(s: State, r: Request)
    requires NamesKnown(s) && Legal(s, DoFire(r)) && Fire(s, r).Done?
    ensures NamesKnown(Fire(s, r).state)
  {
    var t := Fire(s, r).state;
    FirePreflights(s, r);
    AppendKeepsIds(s.invs, t.invs[|s.invs|]);
    forall j | 0 <= j < |t.invs|
      ensures BoundIn(t, t.invs[j].affected)
    {
      if j < |s.invs| {
        assert t.invs[j] == s.invs[j];
        BoundKept(s, t, s.invs[j].affected, s.invs[j].affected);
      } else {
        assert forall k :: 0 <= k < |t.invs[j].affected| ==> ReceiptBound(t, r.target, t.invs[j].affected[k]);
      }
    }
  }

  lemma ApplyNames(s: State, step: Step)
    requires Sound(s) && NamesKnown(s)
    ensures NamesKnown(Apply(s, step))
  {
    match step
    case DoFire(r) => if Legal(s, step) && Fire(s, r).Done? { FireNames(s, r); }
    case DoConfirm(x, accept) =>
      if Confirm(s, x, accept).Done? {
        var t := Confirm(s, x, accept).state;
        ConfirmVersion(s, x, accept);
        ApplyOnlyStatuses(s, step);
        VersionNames(s, t.nodes, Find(s.invs, x).value, t.invs[|t.invs| - 1]);
      }
    case DoResolve(x, mode, evidence) =>
      if Resolve(s, x, mode, evidence).Done? {
        var i, t := Find(s.invs, x).value, Resolve(s, x, mode, evidence).state;
        ResolveOnlyStatuses(s, x, mode);
        VersionNames(s, t.nodes, i, s.invs[i].(status := IsResolved));
      }
  }

  lemma {:induction false} RunNamesKnown(nodes: map<string, Node>, steps: seq<Step>)
    ensures NamesKnown(Run(Start(nodes), steps))
  {
    if steps == [] {
    } else {
      RunNamesKnown(nodes, steps[..|steps| - 1]);
      RunSound(nodes, steps[..|steps| - 1]);
      ApplyNames(Run(Start(nodes), steps[..|steps| - 1]), steps[|steps| - 1]);
    }
  }

  /** A fire that goes behind the gate under an identifier nothing names yet. */
  ghost predicate Gated(s: State, r: Request) {
    && Sound(s) && Legal(s, DoFire(r)) && Fire(s, r).Done? && RequiresHuman(r, s.nodes[r.target])
    && forall i :: 0 <= i < |s.invs| ==> !Mentions(s.invs[i], r.id)
  }

  /** In every reachable state, any legal fire that succeeds behind the gate is `Gated`: no
      receipt names its new identifier. */
  lemma FreshIsUnnamed(nodes: map<string, Node>, steps: seq<Step>, r: Request)
    requires var s := Run(Start(nodes), steps);
      Legal(s, DoFire(r)) && Fire(s, r).Done? && RequiresHuman(r, s.nodes[r.target])
    ensures Gated(Run(Start(nodes), steps), r)
  {
    var s := Run(Start(nodes), steps);
    RunSound(nodes, steps);
    RunNamesKnown(nodes, steps);
    assert forall i :: 0 <= i < |s.invs| ==> BoundIn(s, s.invs[i].affected);
  }

  lemma FiredIsDormant(s: State, r: Request)
    requires Gated(s, r)
    ensures Dormant(Fire(s, r).state, r.id) && Without(Fire(s, r).state, r.id) == s && Sound(Fire(s, r).state)
  {
    var t := Fire(s, r).state;
    var inv := t.invs[|s.invs|];
    FireKeepsSound(s, r);
    DropAppend(s.invs, inv, r.id);
    DropAbsent(s.invs, r.id);
    assert Without(t, r.id).links == s.links;
  }

  /** After a gated fire, any steps that do not accept it or come across it, its rejection
      among them, leave all nodes, all other invalidations and all other edges as the same
      steps would have without the fire. */
  lemma GatedFireIsInvisible(s: State, r: Request, steps: seq<Step>)
    requires Gated(s, r) && forall i :: 0 <= i < |steps| ==> Unaccepting(steps[i], r.id)
    ensures Without(Run(Apply(s, DoFire(r)), steps), r.id) == Run(s, steps)
  {
    FiredIsDormant(s, r);
    RunWithout(Fire(s, r).state, r.id, steps);
  }

  ghost predicate Waiting(s: State, id: string) {
    exists i :: 0 <= i < |s.invs| && s.invs[i].id == id && s.invs[i].status == IsPending
  }

  lemma VersionWaiting(s: State, nodes: map<string, Node>, i: nat, inv: Inv, id: string)
    requires i < |s.invs| && inv.id == s.invs[i].id != id && Waiting(s, id)
    ensures Waiting(s.(nodes := nodes, invs := Version(s.invs, i, inv)), id)
  {
    var k :| 0 <= k < |s.invs| && s.invs[k].id == id && s.invs[k].status == IsPending;
    assert Version(s.invs, i, inv)[if k < i then k else k - 1] == s.invs[k];
  }

  /** No step elsewhere decides about the invalidation. */
  lemma ApplyWaiting(s: State, id: string, step: Step)
    requires DistinctIds(s.invs) && Waiting(s, id) && Elsewhere(step, id)
    ensures Waiting(Apply(s, step), id)
  {
    var k :| 0 <= k < |s.invs| && s.invs[k].id == id && s.invs[k].status == IsPending;
    match step
    case DoFire(r) =>
      if Legal(s, step) && Fire(s, r).Done? {
        assert Fire(s, r).state.invs[k] == s.invs[k];
      }
    case DoConfirm(x, accept) =>
      if Confirm(s, x, accept).Done? {
        ConfirmVersion(s, x, accept);
        var t := Confirm(s, x, accept).state;
        VersionWaiting(s, t.nodes, Find(s.invs, x).value, t.invs[|t.invs| - 1], id);
      }
    case DoResolve(x, mode, evidence) =>
      FindExact(s.invs, k);
      if Resolve(s, x, mode, evidence).Done? {
        var i, t := Find(s.invs, x).value, Resolve(s, x, mode, evidence).state;
        VersionWaiting(s, t.nodes, i, s.invs[i].(status := IsResolved), id);
      }
  }

  lemma {:induction false} RunWaiting(s: State, id: string, steps: seq<Step>)
    requires Sound(s) && Waiting(s, id) && forall i :: 0 <= i < |steps| ==> Elsewhere(steps[i], id)
    ensures Sound(Run(s, steps)) && Waiting(Run(s, steps), id)
  {
    if steps == [] {
    } else {
      var front := steps[..|steps| - 1];
      RunWaiting(s, id, front);
      ApplyKeepsSound(Run(s, front), steps[|steps| - 1]);
      ApplyWaiting(Run(s, front), id, steps[|steps| - 1]);
    }
  }

  lemma RejectWaiting(t: State, id: string)
    requires Sound(t) && Dormant(t, id) && Waiting(t, id)
    ensures Confirm(t, id, false).Done?
    ensures var r := Confirm(t, id, false).state; Sound(r) && Dormant(r, id) && Without(r, id) == Without(t, id)
  {
    var k :| 0 <= k < |t.invs| && t.invs[k].id == id && t.invs[k].status == IsPending;
    FindExact(t.invs, k);
    assert Preflight(t, t.invs[k]);
    RejectWithout(t, id);
    RejectKeepsSound(t, id);
  }

  /** Rejecting it then always succeeds, and from there on every node is as it would be had
      the invalidation never been fired. */
  lemma RejectedIsForgotten(s: State, r: Request, before: seq<Step>, after: seq<Step>)
    requires Gated(s, r) && forall i :: 0 <= i < |before| ==> Elsewhere(before[i], r.id)
    requires forall i :: 0 <= i < |after| ==> Unaccepting(after[i], r.id)
    ensures var rejected := Confirm(Run(Apply(s, DoFire(r)), before), r.id, false);
      rejected.Done? && Run(rejected.state, after).nodes == Run(Run(s, before), after).nodes
  {
    var fired := Fire(s, r).state;
    FiredIsDormant(s, r);
    RunWithout(fired, r.id, before);
    assert fired.invs[|s.invs|].id == r.id;
    RunWaiting(fired, r.id, before);
    RejectWaiting(Run(fired, before), r.id);
    RunWithout(Confirm(Run(fired, before), r.id, false).state, r.id, after);
  }
}
