/**
 Completing tasks with single-use proofs: the gate a completion passes, the table of
 spent proofs, and the backfill that seeds that table from completions recorded before
 it existed.

 One tenant's engine. Whatever the gate asks of policy, authority and the proof itself
 is an input; the table, the task rows and the order of the checks are modelled.
 */
module Completion {
  import opened Options

  /** A version of a task, with the completion evidence it carries. */
  datatype TaskRow = TaskRow(
    tenant: string, project: string, task: string, status: Option<string>, evidence: Option<string>)

  datatype Key = Key(tenant: string, project: string, proof: string)

  /** `rows` holds every version ever written, oldest first. */
  datatype Store = Store(rows: seq<TaskRow>, spent: map<Key, string>)

  /** One verification a proof records; the digest identifies the definition it ran under. */
  datatype Verification = Verification(verifier: string, passed: bool, authoritative: bool, digest: Option<string>)

  /** A verifier the policy requires now; a pinned one by its exact definition. */
  datatype Definition = Definition(name: string, pinned: bool, digest: string)

  /** What a proof envelope says and how it fares against the current policy. */
  datatype Proof = Proof(
    id: string, wellShaped: bool, authentic: bool, verified: bool, tenant: string, project: string,
    forCompletion: bool, covers: set<string>, allowed: bool, verifications: seq<Verification>, current: bool,
    graded: bool)

  /** What the project says about the task when completion is claimed. */
  datatype World = World(
    authority: bool, frontierUncertain: bool, blocked: bool, conflicts: bool, proofRequired: bool,
    required: seq<Definition>)

  datatype Reason =
    | NoSuchTask | NoAuthority | FrontierUncertain | Blocked | AlreadyVerified | Quarantined | Conflicts
    | ProofMissing | Malformed | NotAuthentic | NotVerified | WrongProject | WrongIntent | NotCovered
    | SpentElsewhere(task: string) | NoVerifiersDeclared | NotAllowed | DefinitionsUnmet | Stale | GradeTooLow
    | NotCompletable

  datatype Verdict = Completed | Unchanged | Rejected(reason: Reason)

  /** The current version of a task. */
  function CurrentRow(rows: seq<TaskRow>, tenant: string, project: string, task: string): (r: Option<TaskRow>)
    ensures r.Some? ==>
      && r.value in rows && r.value.tenant == tenant && r.value.project == project
      && r.value.task == task
  {
    if rows == [] then None
    else
      var last := rows[|rows| - 1];
      if last.tenant == tenant && last.project == project && last.task == task then Some(last)
      else CurrentRow(rows[..|rows| - 1], tenant, project, task)
  }

  // ------------------------------------------------------------------ the gate

  /** The proof records an authoritative pass of the verifier; of a pinned one, under its
      present definition. */
  predicate Covers(p: Proof, d: Definition) {
    exists i :: 0 <= i < |p.verifications| && Passes(p.verifications[i], d)
  }

  predicate Passes(v: Verification, d: Definition) {
    v.passed && v.authoritative && v.verifier == d.name && (d.pinned ==> v.digest == Some(d.digest))
  }

  /** What is wrong with a proof offered for a task, in the order it is checked. */
  function ProofFault(s: Store, tenant: string, project: string, task: string, p: Proof, w: World): Option<Reason> {
    var key := Key(tenant, project, p.id);
    if !p.wellShaped || p.id == "" then Some(Malformed)
    else if !p.authentic then Some(NotAuthentic)
    else if !p.verified then Some(NotVerified)
    else if p.project != project || p.tenant != tenant then Some(WrongProject)
    else if !p.forCompletion then Some(WrongIntent)
    else if task !in p.covers then Some(NotCovered)
    else if key in s.spent && s.spent[key] != task then Some(SpentElsewhere(s.spent[key]))
    else if w.proofRequired && w.required == [] then Some(NoVerifiersDeclared)
    else if !p.allowed then Some(NotAllowed)
    else if exists i :: 0 <= i < |w.required| && !Covers(p, w.required[i]) then Some(DefinitionsUnmet)
    else if !p.current then Some(Stale)
    else if !p.graded then Some(GradeTooLow)
    else None
  }

  function Gate(s: Store, tenant: string, project: string, task: string, proof: Option<Proof>, w: World): Verdict {
    var row := CurrentRow(s.rows, tenant, project, task);
    if row.None? then Rejected(NoSuchTask)
    else
      var status, evidence := row.value.status, row.value.evidence;
      if status != Some("quarantined") && !w.authority then Rejected(NoAuthority)
      else if w.frontierUncertain then Rejected(FrontierUncertain)
      else if w.blocked then Rejected(Blocked)
      else if status == Some("verified") then
        if (if evidence.None? then proof.None? else proof.Some? && evidence.value == proof.value.id) then Unchanged
        else Rejected(AlreadyVerified)
      else if status == Some("quarantined") then Rejected(Quarantined)
      else if w.conflicts then Rejected(Conflicts)
      else if w.proofRequired && proof.None? then Rejected(ProofMissing)
      else
        var fault := if proof.None? then None else ProofFault(s, tenant, project, task, proof.value, w);
        if fault.Some? then Rejected(fault.value)
        else if status.Some? && status != Some("open") && status != Some("in_progress") then Rejected(NotCompletable)
        else Completed
  }

  /** The store after a claim of completion. */
  function Complete(s: Store, tenant: string, project: string, task: string, proof: Option<Proof>, w: World): Store {
    if !Gate(s, tenant, project, task, proof, w).Completed? then s
    else
      var evidence := if proof.None? then None else Some(proof.value.id);
      var row := TaskRow(tenant, project, task, Some("verified"), evidence);
      var key := if proof.None? then None else Some(Key(tenant, project, proof.value.id));
      Store(s.rows + [row], if key.None? || key.value in s.spent then s.spent else s.spent[key.value := task])
  }

  // ------------------------------------------------------- what completing takes

  /** The last row of a task, and its index. */
  ghost predicate LastRow(s: Store, tenant: string, project: string, task: string, i: int) {
    && 0 <= i < |s.rows| && OfTask(s.rows[i], tenant, project, task)
    && forall j :: i < j < |s.rows| ==> !OfTask(s.rows[j], tenant, project, task)
  }

  ghost predicate OfTask(r: TaskRow, tenant: string, project: string, task: string) {
    r.tenant == tenant && r.project == project && r.task == task
  }

  /** A proof that may complete the task: well shaped, authentic and verified, issued for
      this project, for completion and for this task, not spent on another task, allowed by
      policy, current and well graded, with an authoritative pass of every verifier the
      policy requires now, pinned ones under their present definition, and at least one
      such verifier where policy requires proof. */
  ghost predicate Sufficient(s: Store, tenant: string, project: string, task: string, p: Proof, w: World) {
    && p.wellShaped && p.id != "" && p.authentic && p.verified
    && p.tenant == tenant && p.project == project && p.forCompletion && task in p.covers
    && (Key(tenant, project, p.id) in s.spent ==> s.spent[Key(tenant, project, p.id)] == task)
    && (w.proofRequired ==> |w.required| > 0)
    && p.allowed && p.current && p.graded
    && forall d :: d in w.required ==> Met(p, d)
  }

  /** The proof records an authoritative pass of the verifier; of a pinned one, under its
      present definition. */
  ghost predicate Met(p: Proof, d: Definition) {
    exists v :: v in p.verifications && v.passed && v.authoritative && v.verifier == d.name
      && (!d.pinned || v.digest == Some(d.digest))
  }

  /** Neither verified, quarantined nor held by any other state. */
  ghost predicate Open(r: TaskRow) {
    r.status == None || r.status == Some("open") || r.status == Some("in_progress")
  }

  /** A claim that completes the task. */
  ghost predicate Completes(s: Store, tenant: string, project: string, task: string, proof: Option<Proof>, w: World) {
    && (exists i :: LastRow(s, tenant, project, task, i) && Open(s.rows[i]))
    && w.authority && !w.frontierUncertain && !w.blocked && !w.conflicts
    && (w.proofRequired ==> proof.Some?)
    && (proof.Some? ==> Sufficient(s, tenant, project, task, proof.value, w))
  }

  lemma {:induction false} CurrentRowIsLast(rows: seq<TaskRow>, tenant: string, project: string, task: string)
    ensures var s := Store(rows, map[]);
      match CurrentRow(rows, tenant, project, task)
      case None => forall i :: 0 <= i < |rows| ==> !OfTask(rows[i], tenant, project, task)
      case Some(r) => exists i :: LastRow(s, tenant, project, task, i) && rows[i] == r
  {
    if rows == [] {
    } else {
      var n := |rows| - 1;
      var s, front := Store(rows, map[]), Store(rows[..n], map[]);
      CurrentRowIsLast(rows[..n], tenant, project, task);
      if OfTask(rows[n], tenant, project, task) {
        assert LastRow(s, tenant, project, task, n);
      } else if CurrentRow(rows, tenant, project, task).Some? {
        var r := CurrentRow(rows, tenant, project, task).value;
        var i :| LastRow(front, tenant, project, task, i) && front.rows[i] == r;
        assert LastRow(s, tenant, project, task, i);
      }
    }
  }

  /** Any last row is the current one. */
  lemma LastRowIsCurrent(s: Store, tenant: string, project: string, task: string, i: int)
    requires LastRow(s, tenant, project, task, i)
    ensures CurrentRow(s.rows, tenant, project, task) == Some(s.rows[i])
  {
    CurrentRowIsLast(s.rows, tenant, project, task);
  }

  lemma CoversIsMet(p: Proof, d: Definition)
    ensures Covers(p, d) <==> Met(p, d)
  {
    if Covers(p, d) {
      var i :| 0 <= i < |p.verifications| && Passes(p.verifications[i], d);
      assert p.verifications[i] in p.verifications;
    }
    forall v | v in p.verifications && Passes(v, d)
      ensures Covers(p, d)
    {
      var i :| 0 <= i < |p.verifications| && p.verifications[i] == v;
    }
  }

  lemma FaultIff(s: Store, tenant: string, project: string, task: string, p: Proof, w: World)
    ensures ProofFault(s, tenant, project, task, p, w).None? <==> Sufficient(s, tenant, project, task, p, w)
  {
    forall d
      ensures Covers(p, d) <==> Met(p, d)
    {
      CoversIsMet(p, d);
    }
    assert (forall d :: d in w.required ==> Met(p, d))
      <==> !exists i :: 0 <= i < |w.required| && !Covers(p, w.required[i]);
  }

  /** The gate lets through exactly the claims that complete the task. */
  lemma CompletedIff(s: Store, tenant: string, project: string, task: string, proof: Option<Proof>, w: World)
    ensures Gate(s, tenant, project, task, proof, w).Completed? <==> Completes(s, tenant, project, task, proof, w)
  {
    CurrentRowIsLast(s.rows, tenant, project, task);
    if proof.Some? {
      FaultIff(s, tenant, project, task, proof.value, w);
    }
    forall i | LastRow(s, tenant, project, task, i)
      ensures CurrentRow(s.rows, tenant, project, task) == Some(s.rows[i])
    {
      LastRowIsCurrent(s, tenant, project, task, i);
    }
    var r := CurrentRow(s.rows, tenant, project, task);
    if r.Some? {
      var bare := Store(s.rows, map[]);
      var i :| LastRow(bare, tenant, project, task, i) && s.rows[i] == r.value;
      assert LastRow(s, tenant, project, task, i);
    }
  }

  /** A claim is taken as already done exactly when the task is verified with the very
      evidence the claim offers, and nothing in its world holds it up. */
  lemma UnchangedIff(s: Store, tenant: string, project: string, task: string, proof: Option<Proof>, w: World, i: int)
    requires LastRow(s, tenant, project, task, i)
    ensures Gate(s, tenant, project, task, proof, w).Unchanged? <==>
      && s.rows[i].status == Some("verified") && w.authority && !w.frontierUncertain && !w.blocked
      && s.rows[i].evidence == if proof == None then None else Some(proof.value.id)
  {
    LastRowIsCurrent(s, tenant, project, task, i);
  }

  /** What a claim writes: when it completes the task, one verified version carrying the
      proof, and the proof spent on the task if it was not; otherwise nothing. */
  lemma ClaimWrites(s: Store, tenant: string, project: string, task: string, proof: Option<Proof>, w: World)
    ensures var t := Complete(s, tenant, project, task, proof, w);
      && (!Completes(s, tenant, project, task, proof, w) ==> t == s)
      && (Completes(s, tenant, project, task, proof, w) ==>
            && |t.rows| == |s.rows| + 1 && s.rows <= t.rows
            && OfTask(t.rows[|s.rows|], tenant, project, task) && t.rows[|s.rows|].status == Some("verified")
            && (proof == None ==> t.rows[|s.rows|].evidence == None && t.spent == s.spent)
            && (proof.Some? ==>
                  && t.rows[|s.rows|].evidence == Some(proof.value.id)
                  && t.spent.Keys == s.spent.Keys + {Key(tenant, project, proof.value.id)}
                  && t.spent[Key(tenant, project, proof.value.id)] == task
                  && forall key :: key in s.spent ==> t.spent[key] == s.spent[key]))
  {
    CompletedIff(s, tenant, project, task, proof, w);
  }

  // ---------------------------------------------------------------- the backfill

  /** The proof a row records as spent. */
  function Spends(r: TaskRow): Option<Key> {
    if r.evidence.None? || r.evidence.value == "" then None
    else Some(Key(r.tenant, r.project, r.evidence.value))
  }

  /** The table after seeding it from rows in the order given. */
  function Seeded(spent: map<Key, string>, ordered: seq<TaskRow>): map<Key, string> {
    if ordered == [] then spent
    else
      var before, r := Seeded(spent, ordered[..|ordered| - 1]), ordered[|ordered| - 1];
      var key := Spends(r);
      if key.None? || key.value in before then before else before[key.value := r.task]
  }

  /** `ordered` is a listing of the tenant's rows. */
  ghost predicate Lists(ordered: seq<TaskRow>, rows: seq<TaskRow>, tenant: string) {
    forall r :: r in ordered <==> r in rows && r.tenant == tenant
  }

  /** A key is seeded exactly when some row spends it, with the first such row's task. */
  ghost predicate FirstSpend(ordered: seq<TaskRow>, key: Key, task: string) {
    exists i :: FirstSpendAt(ordered, key, task, i)
  }

  ghost predicate FirstSpendAt(ordered: seq<TaskRow>, key: Key, task: string, i: int) {
    && 0 <= i < |ordered| && Spends(ordered[i]) == Some(key) && ordered[i].task == task
    && forall j :: 0 <= j < i ==> Spends(ordered[j]) != Some(key)
  }

  /** The backfill spends every historical evidence identifier on the task of the first
      row carrying it, keeps the rows that exist, and adds nothing else. */
  lemma {:induction false} SeedingExact(spent: map<Key, string>, ordered: seq<TaskRow>, key: Key)
    ensures var after := Seeded(spent, ordered);
      && (key in spent ==> key in after && after[key] == spent[key])
      && (key !in spent ==> (key in after <==> exists i :: 0 <= i < |ordered| && Spends(ordered[i]) == Some(key)))
      && (key !in spent && key in after ==> FirstSpend(ordered, key, after[key]))
  {
    if ordered == [] {
    } else {
      var n := |ordered| - 1;
      var front := ordered[..n];
      SeedingExact(spent, front, key);
      var before := Seeded(spent, front);
      if key !in spent {
        if key in before {
          var i :| FirstSpendAt(front, key, before[key], i);
          assert FirstSpendAt(ordered, key, before[key], i);
          assert Spends(ordered[i]) == Some(key);
        } else {
          assert forall i :: 0 <= i < n ==> front[i] == ordered[i];
          assert forall i :: 0 <= i < n ==> Spends(ordered[i]) != Some(key);
          if Spends(ordered[n]) == Some(key) {
            assert FirstSpendAt(ordered, key, ordered[n].task, n);
          }
        }
      }
    }
  }

  /** A row spends its evidence, unless that is missing or empty, under its own tenant and
      project; nothing else is seeded. */
  lemma SeededIff(spent: map<Key, string>, ordered: seq<TaskRow>, key: Key)
    ensures key in Seeded(spent, ordered) <==>
      key in spent ||
      (key.proof != "" &&
        exists r :: r in ordered && r.tenant == key.tenant && r.project == key.project && r.evidence == Some(key.proof))
  {
    SeedingExact(spent, ordered, key);
    forall r | r in ordered && Spends(r) == Some(key)
      ensures exists i :: 0 <= i < |ordered| && Spends(ordered[i]) == Some(key)
    {
      var i :| 0 <= i < |ordered| && ordered[i] == r;
    }
    if i :| 0 <= i < |ordered| && Spends(ordered[i]) == Some(key) {
      assert ordered[i] in ordered;
    }
  }

  /** Seeding again, in whatever order the rows are listed, changes nothing. */
  lemma SeedingIdempotent(
      spent: map<Key, string>, rows: seq<TaskRow>, tenant: string, once: seq<TaskRow>, again: seq<TaskRow>)
    requires Lists(once, rows, tenant) && Lists(again, rows, tenant)
    ensures Seeded(Seeded(spent, once), again) == Seeded(spent, once)
  {
    var after := Seeded(spent, once);
    var more := Seeded(after, again);
    forall key
      ensures key in more <==> key in after
      ensures key in after ==> more[key] == after[key]
    {
      SeedingExact(after, again, key);
      if key !in after {
        SeedingExact(spent, once, key);
        forall i | 0 <= i < |again|
          ensures Spends(again[i]) != Some(key)
        {
          assert again[i] in once;
          var j :| 0 <= j < |once| && once[j] == again[i];
        }
      }
    }
  }

  // ------------------------------------------------------------------------- runs

  /** Other writes of a task change its status and carry its evidence forward. */
  datatype Step =
    | Claim(project: string, task: string, proof: Option<Proof>, w: World)
    | Backfill(ordered: seq<TaskRow>)
    | Write(project: string, task: string, status: Option<string>)

  function Apply(s: Store, tenant: string, step: Step): Store {
    match step
    case Claim(project, task, proof, w) => Complete(s, tenant, project, task, proof, w)
    case Backfill(ordered) => s.(spent := Seeded(s.spent, ordered))
    case Write(project, task, status) =>
      var row := CurrentRow(s.rows, tenant, project, task);
      s.(rows := s.rows + [TaskRow(tenant, project, task, status, if row.None? then None else row.value.evidence)])
  }

  function Run(s: Store, tenant: string, steps: seq<Step>): Store {
    if steps == [] then s else Apply(Run(s, tenant, steps[..|steps| - 1]), tenant, steps[|steps| - 1])
  }

  /** Every proof the tenant's task rows carry is spent. */
  ghost predicate AllSpent(s: Store, tenant: string) {
    forall r :: r in s.rows && r.tenant == tenant && Spends(r).Some? ==> Spends(r).value in s.spent
  }

  /** Once bound to a task, a proof stays bound to it; no row is ever rewritten. */
  lemma {:induction false} SpentForever(s: Store, tenant: string, steps: seq<Step>, key: Key)
    ensures var t := Run(s, tenant, steps);
      (key in s.spent ==> key in t.spent && t.spent[key] == s.spent[key]) && s.rows <= t.rows
  {
    if steps == [] {
    } else {
      SpentForever(s, tenant, steps[..|steps| - 1], key);
      var m, step := Run(s, tenant, steps[..|steps| - 1]), steps[|steps| - 1];
      if step.Backfill? {
        SeedingExact(m.spent, step.ordered, key);
      }
    }
  }

  /** A completed task was not verified before and is after, and its evidence is spent on
      it, in every later store too. */
  lemma EvidenceStaysSpent(
      s: Store, tenant: string, project: string, task: string, proof: Option<Proof>, w: World, steps: seq<Step>)
    requires Gate(s, tenant, project, task, proof, w).Completed?
    ensures var done := Complete(s, tenant, project, task, proof, w);
      var row := TaskRow(tenant, project, task, Some("verified"), if proof.None? then None else Some(proof.value.id));
      var t := Run(done, tenant, steps);
      && CurrentRow(done.rows, tenant, project, task) == Some(row) && row in t.rows
      && CurrentRow(s.rows, tenant, project, task).Some?
      && CurrentRow(s.rows, tenant, project, task).value.status in {None, Some("open"), Some("in_progress")}
      && (proof.Some? ==> var key := Key(tenant, project, proof.value.id); key in t.spent && t.spent[key] == task)
  {
    var done := Complete(s, tenant, project, task, proof, w);
    var key := Key(tenant, project, if proof.None? then "" else proof.value.id);
    SpentForever(done, tenant, steps, key);
    assert done.rows[|done.rows| - 1] in Run(done, tenant, steps).rows;
  }

  ghost predicate VerifiedAt(s: Store, tenant: string, project: string, task: string) {
    var r := CurrentRow(s.rows, tenant, project, task);
    r.Some? && r.value.status == Some("verified")
  }

  lemma KeptOnce(s: Store, tenant: string, project: string, task: string, step: Step)
    requires VerifiedAt(s, tenant, project, task)
    requires step.Write? ==> step.project != project || step.task != task
    ensures CurrentRow(Apply(s, tenant, step).rows, tenant, project, task) == CurrentRow(s.rows, tenant, project, task)
  {
    var t := Apply(s, tenant, step);
    if t.rows != s.rows {
      assert t.rows[..|t.rows| - 1] == s.rows;
    }
  }

  /** No claims, whoever makes them, and no backfills replace the evidence of a verified
      task: only another write of that task itself does. */
  lemma {:induction false} VerifiedIsKept(s: Store, tenant: string, project: string, task: string, steps: seq<Step>)
    requires VerifiedAt(s, tenant, project, task)
    requires forall i :: 0 <= i < |steps| && steps[i].Write? ==> steps[i].project != project || steps[i].task != task
    ensures CurrentRow(Run(s, tenant, steps).rows, tenant, project, task) == CurrentRow(s.rows, tenant, project, task)
  {
    if steps == [] {
    } else {
      VerifiedIsKept(s, tenant, project, task, steps[..|steps| - 1]);
      KeptOnce(Run(s, tenant, steps[..|steps| - 1]), tenant, project, task, steps[|steps| - 1]);
    }
  }

  lemma VerifiedOnce(s: Store, tenant: string, project: string, task: string, step: Step)
    requires !VerifiedAt(s, tenant, project, task) && VerifiedAt(Apply(s, tenant, step), tenant, project, task)
    requires step != Write(project, task, Some("verified"))
    ensures step.Claim? && step.project == project && step.task == task
    ensures Completes(s, tenant, project, task, step.proof, step.w)
  {
    var t := Apply(s, tenant, step);
    if t.rows != s.rows {
      assert t.rows[..|t.rows| - 1] == s.rows;
    }
    if step.Claim? {
      CompletedIff(s, tenant, project, task, step.proof, step.w);
    }
  }

  /** The step claims this task and, where the run has come by then, completes it. */
  ghost predicate CompletedAt(s: Store, tenant: string, project: string, task: string, steps: seq<Step>, k: int) {
    && 0 <= k < |steps| && steps[k].Claim? && steps[k].project == project && steps[k].task == task
    && Completes(Run(s, tenant, steps[..k]), tenant, project, task, steps[k].proof, steps[k].w)
  }

  /** Over any run whose other writes do not verify the task themselves, a task that became
      verified did so by a claim that met every condition when it was made. */
  lemma {:induction false} VerifiedByCompletion(
      s: Store, tenant: string, project: string, task: string, steps: seq<Step>)
    requires !VerifiedAt(s, tenant, project, task) && VerifiedAt(Run(s, tenant, steps), tenant, project, task)
    requires Write(project, task, Some("verified")) !in steps
    ensures exists k :: CompletedAt(s, tenant, project, task, steps, k)
  {
    if steps == [] {
    } else {
      var n := |steps| - 1;
      if VerifiedAt(Run(s, tenant, steps[..n]), tenant, project, task) {
        VerifiedByCompletion(s, tenant, project, task, steps[..n]);
        var k :| CompletedAt(s, tenant, project, task, steps[..n], k);
        assert steps[..n][..k] == steps[..k];
        assert CompletedAt(s, tenant, project, task, steps, k);
      } else {
        VerifiedOnce(Run(s, tenant, steps[..n]), tenant, project, task, steps[n]);
        assert CompletedAt(s, tenant, project, task, steps, n);
      }
    }
  }

  /** Over any run from any store, with claims, backfills and other writes between them,
      two completions with one proof of a project are completions of one task. */
  lemma ProofCompletesOneTask(
      s: Store, tenant: string, project: string, first: string, p: Proof, w: World,
      between: seq<Step>, second: string, q: Proof, w': World)
    requires Gate(s, tenant, project, first, Some(p), w).Completed? && p.id == q.id
    ensures var t := Run(Complete(s, tenant, project, first, Some(p), w), tenant, between);
      Gate(t, tenant, project, second, Some(q), w').Completed? ==> first == second
  {
    EvidenceStaysSpent(s, tenant, project, first, Some(p), w, between);
  }

  /** From the first backfill of the tenant's rows on, every evidence identifier that any
      row carries is spent, in every reachable store. */
  lemma {:induction false} BackfillCovers(s: Store, tenant: string, ordered: seq<TaskRow>, steps: seq<Step>)
    requires Lists(ordered, s.rows, tenant)
    ensures AllSpent(Run(Apply(s, tenant, Backfill(ordered)), tenant, steps), tenant)
  {
    var seeded := Apply(s, tenant, Backfill(ordered));
    if steps == [] {
      forall r | r in s.rows && r.tenant == tenant && Spends(r).Some?
        ensures Spends(r).value in seeded.spent
      {
        SeedingExact(s.spent, ordered, Spends(r).value);
        var i :| 0 <= i < |ordered| && ordered[i] == r;
      }
    } else {
      var m, step := Run(seeded, tenant, steps[..|steps| - 1]), steps[|steps| - 1];
      BackfillCovers(s, tenant, ordered, steps[..|steps| - 1]);
      match step
      case Claim(_, _, _, _) =>
      case Write(_, _, _) =>
      case Backfill(again) =>
        forall r | r in m.rows && r.tenant == tenant && Spends(r).Some?
          ensures Spends(r).value in Apply(m, tenant, step).spent
        {
          SeedingExact(m.spent, again, Spends(r).value);
        }
    }
  }

  /** A spent proof completes the task it is spent on as if it were not spent, and no other. */
  lemma SpentProof(s: Store, tenant: string, project: string, task: string, p: Proof, w: World)
    requires Key(tenant, project, p.id) in s.spent
    ensures Gate(s, tenant, project, task, Some(p), w).Completed? <==>
      && task == s.spent[Key(tenant, project, p.id)]
      && Gate(s.(spent := map[]), tenant, project, task, Some(p), w).Completed?
  {
  }

  /** So of the tasks whose rows carried a proof before the table existed, only the first
      one listed keeps it: it completes as if nothing were spent, and no other task does. */
  lemma HistoricalProofIsSpent(
      s: Store, tenant: string, ordered: seq<TaskRow>, k: nat, steps: seq<Step>,
      project: string, task: string, p: Proof, w: World)
    requires k < |ordered| && Spends(ordered[k]) == Some(Key(tenant, project, p.id))
    requires forall j :: 0 <= j < k ==> Spends(ordered[j]) != Spends(ordered[k])
    requires Key(tenant, project, p.id) !in s.spent
    ensures var t := Run(Apply(s, tenant, Backfill(ordered)), tenant, steps);
      Gate(t, tenant, project, task, Some(p), w).Completed? <==>
        task == ordered[k].task && Gate(t.(spent := map[]), tenant, project, task, Some(p), w).Completed?
  {
    var key := Key(tenant, project, p.id);
    SeedingExact(s.spent, ordered, key);
    var seeded := Apply(s, tenant, Backfill(ordered));
    assert key in seeded.spent;
    var i :| FirstSpendAt(ordered, key, seeded.spent[key], i);
    assert i == k;
    SpentForever(seeded, tenant, steps, key);
    SpentProof(Run(seeded, tenant, steps), tenant, project, task, p, w);
  }

  // ----------------------------------------------------------------------- the engine

  class Engine {
    const tenant: string
    var rows: seq<TaskRow>
    var spent: map<Key, string>

    ghost function Contents(): Store
      reads this
    {
      Store(rows, spent)
    }

    constructor (tenant: string, rows: seq<TaskRow>, spent: map<Key, string>)
      ensures this.tenant == tenant && Contents() == Store(rows, spent)
    {
      this.tenant, this.rows, this.spent := tenant, rows, spent;
    }

    /** Seeds the table and returns how many proofs that added. */
    method BackfillSpentProofs(ordered: seq<TaskRow>) returns (seeded: nat)
      requires Lists(ordered, rows, tenant)
      modifies this`spent
      ensures spent == Seeded(old(spent), ordered)
      ensures |spent| == |old(spent)| + seeded
      ensures AllSpent(Contents(), tenant)
    {
      seeded := 0;
      var seen: set<Key> := {};
      var i := 0;
      assert ordered[..0] == [];
      while i < |ordered|
        invariant i <= |ordered|
        invariant spent == Seeded(old(spent), ordered[..i])
        invariant |spent| == |old(spent)| + seeded
        invariant forall key :: key in seen ==> key in spent
      {
        assert ordered[..i + 1][..i] == ordered[..i];
        var r := ordered[i];
        if r.evidence.Some? && r.evidence.value != "" {
          var key := Key(r.tenant, r.project, r.evidence.value);
          if key !in seen {
            seen := seen + {key};
            if key !in spent {
              spent := spent[key := r.task];
              seeded := seeded + 1;
            }
          }
        }
        i := i + 1;
      }
      assert ordered[..i] == ordered;
      BackfillCovers(Store(rows, old(spent)), tenant, ordered, []);
    }

    /** Claims a proof for a task; returns the task that already holds it, if another. */
    method ClaimProof(project: string, proof: string, task: string) returns (holder: Option<string>)
      modifies this`spent
      ensures var key := Key(tenant, project, proof);
        if proof == "" then holder == None && spent == old(spent)
        else if key in old(spent) then
          spent == old(spent) && holder == if spent[key] == task then None else Some(spent[key])
        else spent == old(spent)[key := task] && holder == None
    {
      if proof == "" {
        return None;
      }
      var key := Key(tenant, project, proof);
      if key !in spent {
        spent := spent[key := task];
        return None;
      }
      holder := if spent[key] == task then None else Some(spent[key]);
    }

    method FindTask(project: string, task: string) returns (r: Option<TaskRow>)
      ensures r == CurrentRow(rows, tenant, project, task)
    {
      var i := |rows|;
      assert rows[..i] == rows;
      while i > 0
        invariant 0 <= i <= |rows|
        invariant CurrentRow(rows, tenant, project, task) == CurrentRow(rows[..i], tenant, project, task)
      {
        assert rows[..i][..i - 1] == rows[..i - 1];
        var row := rows[i - 1];
        if row.tenant == tenant && row.project == project && row.task == task {
          return Some(row);
        }
        i := i - 1;
      }
      assert rows[..i] == [];
      return None;
    }

    /** The completion gate and, past it, the claim and the new version, as one step. */
    method CompleteTask(project: string, task: string, proof: Option<Proof>, w: World) returns (verdict: Verdict)
      modifies this
      ensures verdict == Gate(old(Contents()), tenant, project, task, proof, w)
      ensures Contents() == Complete(old(Contents()), tenant, project, task, proof, w)
      ensures old(AllSpent(Contents(), tenant)) ==> AllSpent(Contents(), tenant)
    {
      var row := FindTask(project, task);
      if row.None? { return Rejected(NoSuchTask); }
      var status, evidence := row.value.status, row.value.evidence;
      if status != Some("quarantined") && !w.authority { return Rejected(NoAuthority); }
      if w.frontierUncertain { return Rejected(FrontierUncertain); }
      if w.blocked { return Rejected(Blocked); }
      if status == Some("verified") {
        var supplied := if proof.None? then None else Some(proof.value.id);
        if (proof.None? && evidence.None?) || (evidence.Some? && supplied == evidence) { return Unchanged; }
        return Rejected(AlreadyVerified);
      }
      if status == Some("quarantined") { return Rejected(Quarantined); }
      if w.conflicts { return Rejected(Conflicts); }
      if w.proofRequired && proof.None? { return Rejected(ProofMissing); }
      if proof.Some? {
        var fault := ProofFault(Store(rows, spent), tenant, project, task, proof.value, w);
        if fault.Some? { return Rejected(fault.value); }
      }
      if status != None && status != Some("open") && status != Some("in_progress") { return Rejected(NotCompletable); }
      if proof.Some? {
        // The gate has looked for another holder in this same transaction.
        var holder := ClaimProof(project, proof.value.id, task);
        assert holder.None?;
      }
      var carried := if proof.None? then None else Some(proof.value.id);
      rows := rows + [TaskRow(tenant, project, task, Some("verified"), carried)];
      return Completed;
    }
  }
}
