/**
 The event log of one tenant and project, its processing markers, the projection built
 from it and the graph rows that projection leaves behind.

 An event is appended durably first. A separate atomic step projects it and writes
 its `ok` marker, or a later one quarantines it. A crash in between leaves a hole:
 an event without a marker, which redelivery can project later. A guard keeps
 projection in log order, so that the live projection equals a replay of the log.
 */
module Projection {
  import opened Options

  /** A stored event; the payload is absent when it was never sent or was cleared. */
  datatype Event = Event(key: string, digest: string, payload: Option<string>) {
    predicate Retained() {
      payload.Some?
    }
  }

  datatype Mark = Ok | Quarantined

  /** What projecting an event writes besides its own event node: nodes and edges, in
      order, and whether it ends by correcting the event node's source fields. */
  datatype Writes = Writes(others: seq<string>, corrects: bool)

  /** Deterministic processing: whether a stored event normalizes, what projecting it onto
      a view yields (`None` when processing raises), and what that writes. */
  datatype Processor<!V> = Processor(
    normalizes: Event -> bool, project: (V, Event) -> Option<V>, writes: (V, Event) -> Writes)

  // --------------------------------------------------------------- graph rows

  /** A node or an edge. The event at each log position has a node of its own. */
  datatype Key = EventNode(event: nat) | Other(id: string)

  /** One version of a node or an edge, and the event it is attributed to. */
  datatype Row = Row(key: Key, source: nat, current: bool)

  function Closed(rows: seq<Row>, key: Key): seq<Row> {
    if rows == [] then []
    else
      var last := rows[|rows| - 1];
      Closed(rows[..|rows| - 1], key) + [if last.key == key then last.(current := false) else last]
  }

  /** Writing a key closes its current row and appends the next. */
  function PutRow(rows: seq<Row>, key: Key, source: nat): seq<Row> {
    Closed(rows, key) + [Row(key, source, true)]
  }

  function PutOthers(rows: seq<Row>, ids: seq<string>, source: nat): seq<Row> {
    if ids == [] then rows else PutRow(PutOthers(rows, ids[..|ids| - 1], source), Other(ids[|ids| - 1]), source)
  }

  /** The rows after projecting an event: its node first, then what it writes, and its
      node again when that is corrected. */
  function ProjectRows(rows: seq<Row>, i: nat, w: Writes): seq<Row> {
    var written := PutOthers(PutRow(rows, EventNode(i), i), w.others, i);
    if w.corrects then PutRow(written, EventNode(i), i) else written
  }

  function CurrentRows(rows: seq<Row>, key: Key): nat {
    if rows == [] then 0
    else
      var last := rows[|rows| - 1];
      CurrentRows(rows[..|rows| - 1], key) + if last.key == key && last.current then 1 else 0
  }

  function Attributed(rows: seq<Row>, i: nat): nat {
    if rows == [] then 0
    else Attributed(rows[..|rows| - 1], i) + if rows[|rows| - 1].source == i then 1 else 0
  }

  // ----------------------------------------------------------------- the ledger

  /** The durable tables, and the processing failures not yet acted upon. */
  datatype Ledger<V> = Ledger(log: seq<Event>, marks: map<nat, Mark>, view: V, rows: seq<Row>, failures: set<nat>)

  function Empty<V>(view: V): Ledger<V> {
    Ledger([], map[], view, [], {})
  }

  // ------------------------------------------------------------ the steps

  predicate Unprojected<V>(s: Ledger<V>, i: nat) {
    i < |s.log| && i !in s.marks
  }

  /** An earlier retained event still lacks any marker. */
  predicate EarlierHole<V>(s: Ledger<V>, i: nat) {
    exists j: nat :: j < i && j < |s.log| && s.log[j].Retained() && j !in s.marks
  }

  /** A later event already has a marker of any kind. */
  predicate LaterMarked<V>(s: Ledger<V>, i: nat) {
    exists j: nat :: i < j < |s.log| && j in s.marks
  }

  /** The canonical-order guard. */
  predicate OutOfOrder<V>(s: Ledger<V>, i: nat)
    requires i < |s.log|
  {
    EarlierHole(s, i) || (s.log[i].Retained() && LaterMarked(s, i))
  }

  datatype Outcome<+V> = AlreadyOk | Refused | Failed | Projected(view: V)

  /** What processing stored event `i` does now. */
  function Attempt<V>(p: Processor<V>, s: Ledger<V>, i: nat): Outcome<V>
    requires i < |s.log|
  {
    if !p.normalizes(s.log[i]) then Failed
    else if i in s.marks && s.marks[i] == Ok then AlreadyOk
    else if OutOfOrder(s, i) then Refused
    else match p.project(s.view, s.log[i])
      case None => Failed
      case Some(v) => Projected(v)
  }

  /** One transaction: the projected rows and the marker commit together, or
      nothing does and the failure is raised to the caller. */
  function ProcessStep<V>(p: Processor<V>, s: Ledger<V>, i: nat): Ledger<V>
    requires i < |s.log|
  {
    match Attempt(p, s, i)
    case Projected(v) =>
      s.(view := v, marks := s.marks[i := Ok], rows := ProjectRows(s.rows, i, p.writes(s.view, s.log[i])))
    case Failed => s.(failures := s.failures + {i})
    case _ => s
  }

  /** A raised failure becomes a quarantine marker, unless the event has a marker
      or attributed rows by now. */
  function QuarantineStep<V>(s: Ledger<V>, i: nat): Ledger<V> {
    if i in s.failures && i < |s.log| && i !in s.marks && Attributed(s.rows, i) == 0 then
      s.(marks := s.marks[i := Quarantined])
    else s
  }

  function AppendStep<V>(s: Ledger<V>, e: Event): Ledger<V> {
    if exists i :: 0 <= i < |s.log| && s.log[i].key == e.key then s else s.(log := s.log + [e])
  }

  /** Any interleaving of deliveries, crashes, heals and direct reprocessing is a
      sequence of these steps. */
  datatype Step = Append(e: Event) | Process(i: nat) | Quarantine(i: nat)

  function Apply<V>(p: Processor<V>, s: Ledger<V>, step: Step): Ledger<V> {
    match step
    case Append(e) => AppendStep(s, e)
    case Process(i) => if i < |s.log| then ProcessStep(p, s, i) else s
    case Quarantine(i) => QuarantineStep(s, i)
  }

  function Run<V>(p: Processor<V>, s: Ledger<V>, steps: seq<Step>): Ledger<V> {
    if steps == [] then s else Apply(p, Run(p, s, steps[..|steps| - 1]), steps[|steps| - 1])
  }

  // ------------------------------------------------------------- the folds

  predicate Succeeds<V>(p: Processor<V>, v: V, e: Event) {
    p.normalizes(e) && p.project(v, e).Some?
  }

  function Effect<V>(p: Processor<V>, v: V, e: Event): V {
    if Succeeds(p, v, e) then p.project(v, e).value else v
  }

  /** The `ok`-marked events below `n`, folded in log order. */
  function FoldOk<V>(p: Processor<V>, init: V, s: Ledger<V>, n: nat): V
    requires n <= |s.log|
  {
    if n == 0 then init
    else
      var v := FoldOk(p, init, s, n - 1);
      if n - 1 in s.marks && s.marks[n - 1] == Ok then Effect(p, v, s.log[n - 1]) else v
  }

  // -------------------------------------------------------- rebuilding

  /** A fresh ledger after replaying the first `n` events, each processed and, on
      failure, quarantined at once. */
  function Replay<V>(p: Processor<V>, init: V, log: seq<Event>, n: nat): (V, map<nat, Mark>)
    requires n <= |log|
  {
    if n == 0 then (init, map[])
    else
      var (v, marks) := Replay(p, init, log, n - 1);
      if Succeeds(p, v, log[n - 1]) then (Effect(p, v, log[n - 1]), marks[n - 1 := Ok])
      else (v, marks[n - 1 := Quarantined])
  }

  // --------------------------------------------------------- the guard, in every run

  ghost predicate BelowMarked<V>(s: Ledger<V>, i: nat) {
    !EarlierHole(s, i)
  }

  /** Marks and failures belong to events that reached the order guard, unless they did
      not even normalize. */
  ghost predicate Guarded<V>(p: Processor<V>, s: Ledger<V>) {
    && (forall i :: i in s.marks || i in s.failures ==> i < |s.log|)
    && (forall i :: (i in s.marks || i in s.failures) && p.normalizes(s.log[i]) ==> BelowMarked(s, i))
    && (forall i :: i in s.marks && s.marks[i] == Ok ==> p.normalizes(s.log[i]))
  }

  lemma {:induction false} RunGuarded<V>(p: Processor<V>, init: V, steps: seq<Step>)
    ensures Guarded(p, Run(p, Empty(init), steps))
  {
    if steps == [] {
    } else {
      RunGuarded(p, init, steps[..|steps| - 1]);
      var s, t := Run(p, Empty(init), steps[..|steps| - 1]), Run(p, Empty(init), steps);
      forall i | (i in t.marks || i in t.failures) && p.normalizes(t.log[i])
        ensures BelowMarked(t, i)
      {
        if i in s.marks || i in s.failures {
          assert BelowMarked(s, i);
        }
      }
    }
  }

  /** Whatever the processor, in every run no retained event below an `ok`-marked one is
      unmarked. */
  lemma NoHoleBelowOk<V>(p: Processor<V>, init: V, steps: seq<Step>, i: nat, j: nat)
    ensures var s := Run(p, Empty(init), steps);
      i in s.marks && s.marks[i] == Ok && j < i && i < |s.log| && s.log[j].Retained() ==> j in s.marks
  {
    RunGuarded(p, init, steps);
    var s := Run(p, Empty(init), steps);
    assert i in s.marks && s.marks[i] == Ok ==> BelowMarked(s, i);
  }

  /** Whatever the processor, in every run the lowest retained hole that normalizes is
      refused exactly when a later event that does not normalize is quarantined. */
  lemma HoleRefusedIff<V>(p: Processor<V>, init: V, steps: seq<Step>, i: nat)
    ensures var s := Run(p, Empty(init), steps);
      Unprojected(s, i) && s.log[i].Retained() && !EarlierHole(s, i) && p.normalizes(s.log[i]) ==>
        (Attempt(p, s, i) == Refused <==>
         exists j: nat :: i < j < |s.log| && j in s.marks && s.marks[j] == Quarantined && !p.normalizes(s.log[j]))
  {
    RunGuarded(p, init, steps);
    var s := Run(p, Empty(init), steps);
    if Unprojected(s, i) && s.log[i].Retained() && LaterMarked(s, i) {
      var j: nat :| i < j < |s.log| && j in s.marks;
      assert EarlierHole(s, j);
      assert !p.normalizes(s.log[j]) && s.marks[j] == Quarantined;
    }
  }

  /** A retained hole with a later marker can never be projected again. */
  lemma {:induction false} BlockedHoleStays<V>(p: Processor<V>, s: Ledger<V>, steps: seq<Step>, i: nat)
    requires i < |s.log| && s.log[i].Retained() && i !in s.marks && LaterMarked(s, i) && i !in s.failures
    requires p.normalizes(s.log[i])
    ensures var t := Run(p, s, steps);
      && |s.log| <= |t.log| && t.log[i] == s.log[i] && i !in t.marks && LaterMarked(t, i) && i !in t.failures
      && Attempt(p, t, i) == Refused
  {
    if steps == [] {
    } else {
      BlockedHoleStays(p, s, steps[..|steps| - 1], i);
      var r := Run(p, s, steps[..|steps| - 1]);
      var t := Run(p, s, steps);
      var j: nat :| i < j < |r.log| && j in r.marks;
      assert j in t.marks && j < |t.log|;
    }
  }

  lemma RunFour<V>(p: Processor<V>, s: Ledger<V>, a: Step, b: Step, c: Step, d: Step)
    ensures Run(p, s, [a, b, c, d]) == Apply(p, Apply(p, Apply(p, Apply(p, s, a), b), c), d)
  {
    assert [a, b, c, d][..3] == [a, b, c] && [a, b, c][..2] == [a, b] && [a, b][..1] == [a] && [a][..0] == [];
    assert Run(p, s, [a]) == Apply(p, s, a);
    assert Run(p, s, [a, b]) == Apply(p, Run(p, s, [a]), b);
  }

  /** A crash after appending, and then an event that does not normalize, block the hole:
      no continuation of that run ever projects it. */
  lemma CrashThenRejectBlocks<V>(p: Processor<V>, init: V, hole: Event, bad: Event, more: seq<Step>)
    requires hole.Retained() && p.normalizes(hole) && !p.normalizes(bad) && hole.key != bad.key
    ensures var s := Run(p, Empty(init), [Append(hole), Append(bad), Process(1), Quarantine(1)]);
      var t := Run(p, s, more);
      && s.log == [hole, bad] && s.marks == map[1 := Quarantined]
      && |t.log| >= 2 && t.log[0] == hole && 0 !in t.marks && Attempt(p, t, 0) == Refused
  {
    var s1 := Empty(init).(log := [hole]);
    var s2 := s1.(log := [hole, bad]);
    var s3 := s2.(failures := {1});
    var s4 := s3.(marks := map[1 := Quarantined]);
    assert AppendStep(Empty(init), hole) == s1 && AppendStep(s1, bad) == s2;
    assert ProcessStep(p, s2, 1) == s3 && QuarantineStep(s3, 1) == s4;
    RunFour(p, Empty(init), Append(hole), Append(bad), Process(1), Quarantine(1));
    BlockedHoleStays(p, s4, more, 0);
  }

  // -------------------------------------------------- when order is undisturbed

  /** An event without payload would be projected behind a later event that has been
      marked, or has failed: the half of the order the guard does not keep. */
  predicate Late<V>(s: Ledger<V>, i: nat)
    requires i < |s.log|
  {
    !s.log[i].Retained() && exists j: nat :: i < j < |s.log| && (j in s.marks || j in s.failures)
  }

  /** The event leaves every view alone. */
  ghost predicate Inert<V(!new)>(p: Processor<V>, e: Event) {
    forall v :: p.project(v, e) == Some(v)
  }

  /** Projecting the event now cannot upset the order. */
  ghost predicate Timely<V(!new)>(p: Processor<V>, s: Ledger<V>, i: nat)
    requires i < |s.log|
  {
    !Late(s, i) || Inert(p, s.log[i])
  }

  /** Processing would get past the guard and try to project the event. */
  predicate Decides<V>(p: Processor<V>, s: Ledger<V>, i: nat)
    requires i < |s.log|
  {
    p.normalizes(s.log[i]) && (Attempt(p, s, i).Projected? || Attempt(p, s, i) == Failed)
  }

  /** No step decided about an event late, unless that event leaves views alone. */
  ghost predicate Undisturbed<V(!new)>(p: Processor<V>, init: V, steps: seq<Step>) {
    steps == [] ||
    var front, last := steps[..|steps| - 1], steps[|steps| - 1];
    var s := Run(p, Empty(init), front);
    && Undisturbed(p, init, front)
    && (last.Process? && last.i < |s.log| && Decides(p, s, last.i) ==> Timely(p, s, last.i))
  }

  // ------------------------------------------------------- the invariant

  /** Why event `i` has the marker or failure it has: it would get it again now. */
  ghost predicate Verdict<V>(p: Processor<V>, init: V, s: Ledger<V>, i: nat)
    requires i < |s.log|
  {
    && (i in s.marks && s.marks[i] == Ok ==> Succeeds(p, FoldOk(p, init, s, i), s.log[i]))
    && ((i in s.marks && s.marks[i] == Quarantined) || i in s.failures ==>
      !Succeeds(p, FoldOk(p, init, s, i), s.log[i]))
  }

  ghost predicate Invariant<V>(p: Processor<V>, init: V, s: Ledger<V>) {
    && (forall i :: i in s.marks || i in s.failures ==> i < |s.log|)
    && s.view == FoldOk(p, init, s, |s.log|)
    && forall i {:trigger Verdict(p, init, s, i)} :: 0 <= i < |s.log| ==> Verdict(p, init, s, i)
  }

  /** Folds only look at the log and the `ok` markers below. */
  lemma {:induction false} FoldFrame<V>(p: Processor<V>, init: V, s: Ledger<V>, t: Ledger<V>, n: nat)
    requires n <= |s.log| && n <= |t.log|
    requires forall i :: 0 <= i < n ==> s.log[i] == t.log[i]
    requires forall i: nat :: i < n ==> ((i in s.marks && s.marks[i] == Ok) <==> (i in t.marks && t.marks[i] == Ok))
    ensures FoldOk(p, init, s, n) == FoldOk(p, init, t, n)
  {
    if n == 0 {
    } else {
      FoldFrame(p, init, s, t, n - 1);
    }
  }

  /** Without `ok` markers from `i` on, the fold stops changing there. */
  lemma {:induction false} FoldFlat<V>(p: Processor<V>, init: V, s: Ledger<V>, i: nat, n: nat)
    requires i <= n <= |s.log|
    requires forall j: nat :: i <= j < n ==> !(j in s.marks && s.marks[j] == Ok)
    ensures FoldOk(p, init, s, n) == FoldOk(p, init, s, i)
    decreases n
  {
    if i < n {
      FoldFlat(p, init, s, i, n - 1);
    }
  }

  /** Marking an event that leaves views alone changes no fold. */
  lemma {:induction false} FoldInert<V(!new)>(p: Processor<V>, init: V, s: Ledger<V>, i: nat, n: nat)
    requires i < |s.log| && Inert(p, s.log[i]) && n <= |s.log| && !(i in s.marks && s.marks[i] == Ok)
    ensures FoldOk(p, init, s.(marks := s.marks[i := Ok]), n) == FoldOk(p, init, s, n)
    decreases n
  {
    if n == 0 {
    } else {
      FoldInert(p, init, s, i, n - 1);
    }
  }

  /** Behind the guard, the current view decides as the fold below `i` does. */
  lemma GuardedDecision<V(!new)>(p: Processor<V>, init: V, s: Ledger<V>, i: nat)
    requires Invariant(p, init, s)
    requires i < |s.log| && !OutOfOrder(s, i) && Timely(p, s, i) && !(i in s.marks && s.marks[i] == Ok)
    ensures Succeeds(p, s.view, s.log[i]) == Succeeds(p, FoldOk(p, init, s, i), s.log[i])
  {
    if !Inert(p, s.log[i]) {
      FoldFlat(p, init, s, i, |s.log|);
    }
  }

  /** Behind the guard, marking `i` applies its effect to every fold past it. */
  lemma GuardedFold<V(!new)>(p: Processor<V>, init: V, s: Ledger<V>, i: nat, n: nat)
    requires i < |s.log| && !OutOfOrder(s, i) && Timely(p, s, i) && !(i in s.marks && s.marks[i] == Ok)
    requires n <= |s.log|
    ensures var t := s.(marks := s.marks[i := Ok]);
      FoldOk(p, init, t, n) == if n <= i then FoldOk(p, init, s, n) else Effect(p, FoldOk(p, init, s, n), s.log[i])
  {
    var t := s.(marks := s.marks[i := Ok]);
    if n <= i {
      FoldFrame(p, init, s, t, n);
    } else if Inert(p, s.log[i]) {
      FoldInert(p, init, s, i, n);
    } else {
      FoldFlat(p, init, s, i, n);
      FoldFrame(p, init, s, t, i);
      FoldFlat(p, init, t, i + 1, n);
    }
  }

  lemma ProjectKeepsVerdict<V(!new)>(p: Processor<V>, init: V, s: Ledger<V>, i: nat, j: nat)
    requires Guarded(p, s) && Invariant(p, init, s)
    requires i < |s.log| && Attempt(p, s, i).Projected? && Timely(p, s, i) && j < |s.log|
    ensures Verdict(p, init, ProcessStep(p, s, i), j)
  {
    var t := ProcessStep(p, s, i);
    assert Verdict(p, init, s, j) && Verdict(p, init, s, i);
    GuardedDecision(p, init, s, i);
    GuardedFold(p, init, s, i, j);
    FoldFrame(p, init, t, s.(marks := s.marks[i := Ok]), j);
    if j > i && s.log[i].Retained() && j in s.failures {
      assert p.normalizes(s.log[j]) ==> BelowMarked(s, j);
    }
  }

  lemma ProcessKeepsInvariant<V(!new)>(p: Processor<V>, init: V, s: Ledger<V>, i: nat)
    requires Guarded(p, s) && Invariant(p, init, s) && i < |s.log|
    requires Decides(p, s, i) ==> Timely(p, s, i)
    ensures Invariant(p, init, ProcessStep(p, s, i))
  {
    var t := ProcessStep(p, s, i);
    match Attempt(p, s, i)
    case Projected(v) =>
      GuardedFold(p, init, s, i, |s.log|);
      FoldFrame(p, init, t, s.(marks := s.marks[i := Ok]), |s.log|);
      forall j | 0 <= j < |t.log|
        ensures Verdict(p, init, t, j)
      {
        ProjectKeepsVerdict(p, init, s, i, j);
      }
    case Failed =>
      FoldFrame(p, init, s, t, |s.log|);
      forall j | 0 <= j < |t.log|
        ensures Verdict(p, init, t, j)
      {
        assert Verdict(p, init, s, j);
        FoldFrame(p, init, s, t, j);
        if j == i && p.normalizes(s.log[i]) {
          GuardedDecision(p, init, s, i);
        }
      }
    case _ =>
  }

  lemma QuarantineKeepsInvariant<V(!new)>(p: Processor<V>, init: V, s: Ledger<V>, i: nat)
    requires Invariant(p, init, s)
    ensures Invariant(p, init, QuarantineStep(s, i))
  {
    var t := QuarantineStep(s, i);
    FoldFrame(p, init, s, t, |s.log|);
    forall j | 0 <= j < |t.log|
      ensures Verdict(p, init, t, j)
    {
      assert Verdict(p, init, s, j);
      FoldFrame(p, init, s, t, j);
    }
  }

  lemma AppendKeepsInvariant<V(!new)>(p: Processor<V>, init: V, s: Ledger<V>, e: Event)
    requires Invariant(p, init, s)
    ensures Invariant(p, init, AppendStep(s, e))
  {
    var t := AppendStep(s, e);
    FoldFrame(p, init, s, t, |s.log|);
    forall j | 0 <= j < |t.log|
      ensures Verdict(p, init, t, j)
    {
      if j < |s.log| {
        assert Verdict(p, init, s, j);
        FoldFrame(p, init, s, t, j);
      }
    }
  }

  /** The invariant holds in every undisturbed run. */
  lemma {:induction false} RunKeepsInvariant<V(!new)>(p: Processor<V>, init: V, steps: seq<Step>)
    requires Undisturbed(p, init, steps)
    ensures Invariant(p, init, Run(p, Empty(init), steps))
  {
    if steps == [] {
    } else {
      var s := Run(p, Empty(init), steps[..|steps| - 1]);
      RunKeepsInvariant(p, init, steps[..|steps| - 1]);
      RunGuarded(p, init, steps[..|steps| - 1]);
      match steps[|steps| - 1]
      case Append(e) => AppendKeepsInvariant(p, init, s, e);
      case Process(i) => if i < |s.log| { ProcessKeepsInvariant(p, init, s, i); }
      case Quarantine(i) => QuarantineKeepsInvariant(p, init, s, i);
    }
  }

  // --------------------------------------------------------- the theorems

  /** Whatever the processor, in every undisturbed run the projection is the log-order fold
      of the `ok`-marked events. */
  lemma ProjectionIsFold<V(!new)>(p: Processor<V>, init: V, steps: seq<Step>)
    requires Undisturbed(p, init, steps)
    ensures var s := Run(p, Empty(init), steps);
      s.view == FoldOk(p, init, s, |s.log|)
  {
    RunKeepsInvariant(p, init, steps);
  }

  lemma {:induction false} ReplayMatches<V(!new)>(p: Processor<V>, init: V, s: Ledger<V>, n: nat)
    requires Invariant(p, init, s) && n <= |s.log|
    requires forall i: nat :: i < |s.log| ==> i in s.marks
    ensures Replay(p, init, s.log, n).0 == FoldOk(p, init, s, n)
    ensures forall i: nat :: i in Replay(p, init, s.log, n).1 <==> i < n
    ensures forall i: nat :: i < n ==> Replay(p, init, s.log, n).1[i] == s.marks[i]
  {
    if n == 0 {
    } else {
      ReplayMatches(p, init, s, n - 1);
      assert Verdict(p, init, s, n - 1);
      assert n - 1 in s.marks;
    }
  }

  /** And whenever every event has a marker, replaying the log into a fresh ledger gives
      the same projection and the same markers. */
  lemma ProjectionEqualsReplay<V(!new)>(p: Processor<V>, init: V, steps: seq<Step>)
    requires Undisturbed(p, init, steps)
    ensures var s := Run(p, Empty(init), steps);
      (forall i: nat :: i < |s.log| ==> i in s.marks) ==>
        Replay(p, init, s.log, |s.log|) == (s.view, s.marks)
  {
    var s := Run(p, Empty(init), steps);
    RunKeepsInvariant(p, init, steps);
    if forall i: nat :: i < |s.log| ==> i in s.marks {
      ReplayMatches(p, init, s, |s.log|);
      assert Replay(p, init, s.log, |s.log|).1 == s.marks;
    }
  }

  /** A quarantined event never becomes `ok`: reprocessing it fails or is refused. */
  lemma QuarantineIsFinal<V(!new)>(p: Processor<V>, init: V, steps: seq<Step>, i: nat)
    requires Undisturbed(p, init, steps + [Process(i)])
    ensures var s := Run(p, Empty(init), steps);
      i < |s.log| && i in s.marks && s.marks[i] == Quarantined ==> !Attempt(p, s, i).Projected?
  {
    var s := Run(p, Empty(init), steps);
    assert (steps + [Process(i)])[..|steps|] == steps;
    RunKeepsInvariant(p, init, steps);
    if i < |s.log| && i in s.marks && s.marks[i] == Quarantined && Attempt(p, s, i).Projected? {
      assert Verdict(p, init, s, i);
      GuardedDecision(p, init, s, i);
    }
  }

  // ------------------------------------------------------ payload-free events

  /** What the engine does: an event without payload has no text, no flags and no handler,
      and projecting it writes its event node and nothing that others read. */
  function FromPayload<V>(
      normalizes: Event -> bool, project: (V, Event) -> Option<V>, writes: (V, Event) -> Writes): Processor<V>
  {
    Processor(
      normalizes,
      (v: V, e: Event) => if e.Retained() then project(v, e) else Some(v),
      (v: V, e: Event) => if e.Retained() then writes(v, e) else Writes([], false))
  }

  lemma {:induction false} PayloadFreeIsHarmless<V(!new)>(
      normalizes: Event -> bool, project: (V, Event) -> Option<V>, writes: (V, Event) -> Writes, init: V,
      steps: seq<Step>)
    ensures Undisturbed(FromPayload(normalizes, project, writes), init, steps)
  {
    if steps == [] {
    } else {
      PayloadFreeIsHarmless(normalizes, project, writes, init, steps[..|steps| - 1]);
    }
  }

  /** So for the engine's processing there is no condition: in every run the projection is
      the fold, equals the replay once every event is marked, and no quarantined event is
      ever projected. */
  lemma EngineEqualsReplay<V(!new)>(
      normalizes: Event -> bool, project: (V, Event) -> Option<V>, writes: (V, Event) -> Writes, init: V,
      steps: seq<Step>)
    ensures var p := FromPayload(normalizes, project, writes);
      var s := Run(p, Empty(init), steps);
      && s.view == FoldOk(p, init, s, |s.log|)
      && ((forall i: nat :: i < |s.log| ==> i in s.marks) ==> Replay(p, init, s.log, |s.log|) == (s.view, s.marks))
      && (forall i: nat :: i < |s.log| && i in s.marks && s.marks[i] == Quarantined ==> !Attempt(p, s, i).Projected?)
  {
    var p := FromPayload(normalizes, project, writes);
    PayloadFreeIsHarmless(normalizes, project, writes, init, steps);
    ProjectionIsFold(p, init, steps);
    ProjectionEqualsReplay(p, init, steps);
    forall i: nat
      ensures var s := Run(p, Empty(init), steps);
        i < |s.log| && i in s.marks && s.marks[i] == Quarantined ==> !Attempt(p, s, i).Projected?
    {
      PayloadFreeIsHarmless(normalizes, project, writes, init, steps + [Process(i)]);
      QuarantineIsFinal(p, init, steps, i);
    }
  }

  // -------------------------------------------------------------- admission

  /** The per-event classification a reopened store must pass. */
  predicate Admitted<V>(s: Ledger<V>, i: nat) {
    if i !in s.marks then Attributed(s.rows, i) == 0
    else if s.marks[i] == Ok then CurrentRows(s.rows, EventNode(i)) == 1
    else Attributed(s.rows, i) == 0
  }

  ghost predicate AtMostOneCurrent(rows: seq<Row>) {
    forall key :: CurrentRows(rows, key) <= 1
  }

  lemma {:induction false} ClosedCounts(rows: seq<Row>, key: Key, other: Key, j: nat)
    ensures CurrentRows(Closed(rows, key), other) == if other == key then 0 else CurrentRows(rows, other)
    ensures Attributed(Closed(rows, key), j) == Attributed(rows, j)
  {
    if rows == [] {
    } else {
      ClosedCounts(rows[..|rows| - 1], key, other, j);
    }
  }

  /** Writing leaves one current row of what is written, and touches no other counts. */
  lemma PutCounts(rows: seq<Row>, key: Key, source: nat, other: Key, j: nat)
    ensures var after := PutRow(rows, key, source);
      && CurrentRows(after, other) == (if other == key then 1 else CurrentRows(rows, other))
      && Attributed(after, j) == Attributed(rows, j) + if j == source then 1 else 0
  {
    ClosedCounts(rows, key, other, j);
  }

  lemma {:induction false} OthersCounts(rows: seq<Row>, ids: seq<string>, source: nat, key: Key, j: nat)
    ensures var after := PutOthers(rows, ids, source);
      && (key.EventNode? ==> CurrentRows(after, key) == CurrentRows(rows, key))
      && (CurrentRows(rows, key) <= 1 ==> CurrentRows(after, key) <= 1)
      && (j != source ==> Attributed(after, j) == Attributed(rows, j))
  {
    if ids == [] {
    } else {
      var n := |ids| - 1;
      OthersCounts(rows, ids[..n], source, key, j);
      PutCounts(PutOthers(rows, ids[..n], source), Other(ids[n]), source, key, j);
    }
  }

  lemma ProjectCounts(rows: seq<Row>, i: nat, w: Writes, key: Key, j: nat)
    ensures var after := ProjectRows(rows, i, w);
      && CurrentRows(after, EventNode(i)) == 1
      && (key.EventNode? && key.event != i ==> CurrentRows(after, key) == CurrentRows(rows, key))
      && (CurrentRows(rows, key) <= 1 ==> CurrentRows(after, key) <= 1)
      && (j != i ==> Attributed(after, j) == Attributed(rows, j))
  {
    var first := PutRow(rows, EventNode(i), i);
    var written := PutOthers(first, w.others, i);
    PutCounts(rows, EventNode(i), i, key, j);
    PutCounts(rows, EventNode(i), i, EventNode(i), j);
    OthersCounts(first, w.others, i, key, j);
    OthersCounts(first, w.others, i, EventNode(i), j);
    PutCounts(written, EventNode(i), i, key, j);
    PutCounts(written, EventNode(i), i, EventNode(i), j);
  }

  /** Counting rows, every reachable state is admitted, for any processor whatsoever; and
      no node or edge ever has two current rows. */
  lemma {:induction false} HonestStatesAdmitted<V>(p: Processor<V>, init: V, steps: seq<Step>)
    ensures forall i: nat :: Admitted(Run(p, Empty(init), steps), i)
    ensures AtMostOneCurrent(Run(p, Empty(init), steps).rows)
  {
    if steps == [] {
    } else {
      var s := Run(p, Empty(init), steps[..|steps| - 1]);
      HonestStatesAdmitted(p, init, steps[..|steps| - 1]);
      match steps[|steps| - 1]
      case Process(i) => if i < |s.log| { ProcessAdmitted(p, s, i); }
      case Append(_) => assert forall j: nat :: Admitted(s, j) ==> Admitted(Run(p, Empty(init), steps), j);
      case Quarantine(_) => assert forall j: nat :: Admitted(s, j) ==> Admitted(Run(p, Empty(init), steps), j);
    }
  }

  lemma ProcessAdmitted<V>(p: Processor<V>, s: Ledger<V>, i: nat)
    requires i < |s.log| && AtMostOneCurrent(s.rows) && forall j: nat :: Admitted(s, j)
    ensures forall j: nat :: Admitted(ProcessStep(p, s, i), j)
    ensures AtMostOneCurrent(ProcessStep(p, s, i).rows)
  {
    var w := p.writes(s.view, s.log[i]);
    forall key
      ensures CurrentRows(ProcessStep(p, s, i).rows, key) <= 1
    {
      ProjectCounts(s.rows, i, w, key, i);
    }
    forall j: nat
      ensures Admitted(ProcessStep(p, s, i), j)
    {
      assert Admitted(s, j);
      ProjectCounts(s.rows, i, w, EventNode(j), j);
    }
  }

  // ------------------------------------------------------------ the rows written

  /** `t` is `rows` after writing `keys` in order, all for one event: the rows there were
      keep everything but their currency, which they lose when their key is written; each
      key has a new row, and only its last one is current. */
  ghost predicate Wrote(rows: seq<Row>, t: seq<Row>, keys: seq<Key>, source: nat) {
    && |t| == |rows| + |keys|
    && (forall j :: 0 <= j < |rows| ==>
          && t[j].key == rows[j].key && t[j].source == rows[j].source
          && (t[j].current <==> rows[j].current && rows[j].key !in keys))
    && (forall j :: |rows| <= j < |t| ==>
          && t[j].key == keys[j - |rows|] && t[j].source == source
          && (t[j].current <==> keys[j - |rows|] !in keys[j - |rows| + 1..]))
  }

  lemma {:induction false} ClosedAt(rows: seq<Row>, key: Key, j: nat)
    ensures |Closed(rows, key)| == |rows|
    ensures j < |rows| ==> Closed(rows, key)[j] == rows[j].(current := rows[j].current && rows[j].key != key)
  {
    if rows == [] {
    } else {
      ClosedAt(rows[..|rows| - 1], key, if j < |rows| - 1 then j else 0);
    }
  }

  lemma PutWrites(rows: seq<Row>, t: seq<Row>, keys: seq<Key>, key: Key, source: nat)
    requires Wrote(rows, t, keys, source)
    ensures Wrote(rows, PutRow(t, key, source), keys + [key], source)
  {
    var after, all := PutRow(t, key, source), keys + [key];
    ClosedAt(t, key, 0);
    forall j | 0 <= j < |t|
      ensures after[j] == t[j].(current := t[j].current && t[j].key != key)
    {
      ClosedAt(t, key, j);
    }
    forall j | |rows| <= j < |after|
      ensures after[j].key == all[j - |rows|] && after[j].source == source
      ensures after[j].current <==> all[j - |rows|] !in all[j - |rows| + 1..]
    {
      if j < |t| {
        assert all[j - |rows| + 1..] == keys[j - |rows| + 1..] + [key];
      }
    }
  }

  lemma {:induction false} OthersWritten(
      rows: seq<Row>, t: seq<Row>, keys: seq<Key>, ids: seq<string>, more: seq<Key>, source: nat)
    requires Wrote(rows, t, keys, source)
    requires |more| == |ids| && forall k :: 0 <= k < |ids| ==> more[k] == Other(ids[k])
    ensures Wrote(rows, PutOthers(t, ids, source), keys + more, source)
  {
    if ids == [] {
      assert keys + more == keys;
    } else {
      var n := |ids| - 1;
      OthersWritten(rows, t, keys, ids[..n], more[..n], source);
      PutWrites(rows, PutOthers(t, ids[..n], source), keys + more[..n], Other(ids[n]), source);
      assert keys + more[..n] + [Other(ids[n])] == keys + more;
    }
  }

  /** The keys a projected event writes: its own node, what it says, and its node again
      when that is corrected. */
  ghost predicate Writing(keys: seq<Key>, i: nat, w: Writes) {
    && |keys| == 1 + |w.others| + (if w.corrects then 1 else 0)
    && keys[0] == EventNode(i) && (w.corrects ==> keys[|keys| - 1] == EventNode(i))
    && forall k :: 0 <= k < |w.others| ==> keys[k + 1] == Other(w.others[k])
  }

  /** Projecting an event writes exactly those keys. */
  lemma ProjectWrites(rows: seq<Row>, i: nat, w: Writes, keys: seq<Key>)
    requires Writing(keys, i, w)
    ensures Wrote(rows, ProjectRows(rows, i, w), keys, i)
  {
    var n := |w.others|;
    PutWrites(rows, rows, [], EventNode(i), i);
    var first := PutRow(rows, EventNode(i), i);
    assert [] + [EventNode(i)] == keys[..1];
    OthersWritten(rows, first, keys[..1], w.others, keys[1..n + 1], i);
    assert keys[..1] + keys[1..n + 1] == keys[..n + 1];
    if w.corrects {
      PutWrites(rows, PutOthers(first, w.others, i), keys[..n + 1], EventNode(i), i);
      assert keys[..n + 1] + [EventNode(i)] == keys;
    } else {
      assert keys[..n + 1] == keys;
    }
  }

  /** Row `k` is the one current row of its key. */
  ghost predicate OnlyCurrent(rows: seq<Row>, k: int) {
    0 <= k < |rows| && forall j :: 0 <= j < |rows| && rows[j].key == rows[k].key ==> (rows[j].current <==> j == k)
  }

  /** After projecting an event, every key it writes has exactly one current row, attributed
      to that event; every other key's rows are as they were. */
  lemma WrittenOnce(rows: seq<Row>, i: nat, w: Writes, key: Key)
    ensures var t := ProjectRows(rows, i, w);
      && (key == EventNode(i) || (key.Other? && key.id in w.others) ==>
            exists k :: OnlyCurrent(t, k) && t[k].key == key && t[k].source == i)
      && (key != EventNode(i) && !(key.Other? && key.id in w.others) ==>
            && |rows| <= |t|
            && (forall j :: 0 <= j < |rows| && rows[j].key == key ==> t[j] == rows[j])
            && (forall j :: |rows| <= j < |t| ==> t[j].key != key))
  {
    var t := ProjectRows(rows, i, w);
    var others := seq(|w.others|, k requires 0 <= k < |w.others| => Other(w.others[k]));
    var keys := [EventNode(i)] + others + if w.corrects then [EventNode(i)] else [];
    ProjectWrites(rows, i, w, keys);
    if key == EventNode(i) || (key.Other? && key.id in w.others) {
      if key.Other? {
        var k :| 0 <= k < |w.others| && w.others[k] == key.id;
        assert keys[k + 1] == key;
      } else {
        assert keys[0] == key;
      }
      var k := LastOf(keys, key);
      forall j | 0 <= j < |t| && t[j].key == key
        ensures t[j].current <==> j == |rows| + k
      {
        if |rows| <= j < |rows| + k {
          assert keys[j - |rows| + 1..][|rows| + k - j - 1] == key;
        }
      }
      assert OnlyCurrent(t, |rows| + k);
    }
  }

  lemma {:induction false} LastOf(keys: seq<Key>, key: Key) returns (k: nat)
    requires key in keys
    ensures k < |keys| && keys[k] == key && key !in keys[k + 1..]
  {
    if keys[|keys| - 1] == key {
      k := |keys| - 1;
    } else {
      k := LastOf(keys[..|keys| - 1], key);
      assert keys[k + 1..] == keys[..|keys| - 1][k + 1..] + [keys[|keys| - 1]];
    }
  }

  // ---------------------------------------------------------- what a step decides

  /** The event may be projected now: it is not projected yet, every earlier event with a
      payload is settled, and if it has a payload itself, no later event is. */
  ghost predicate InTurn<V>(s: Ledger<V>, i: nat)
    requires i < |s.log|
  {
    && (i in s.marks ==> s.marks[i] == Quarantined)
    && (forall j: nat :: j < i && s.log[j].payload != None ==> j in s.marks)
    && (s.log[i].payload != None ==> forall j: nat :: i < j < |s.log| ==> j !in s.marks)
  }

  /** Processing projects an event exactly when it normalizes, is in turn and does not
      raise, and then writes its view, its rows and its marker; otherwise it writes
      nothing, and fails for an event that does not normalize, or is in turn and raises. */
  lemma ProcessedIff<V>(p: Processor<V>, s: Ledger<V>, i: nat)
    requires i < |s.log|
    ensures var t := ProcessStep(p, s, i);
      var result := p.project(s.view, s.log[i]);
      && t.log == s.log
      && (p.normalizes(s.log[i]) && InTurn(s, i) && result != None ==>
            && t.view == result.value && t.marks == s.marks[i := Ok] && t.failures == s.failures
            && t.rows == ProjectRows(s.rows, i, p.writes(s.view, s.log[i])))
      && (!p.normalizes(s.log[i]) || !InTurn(s, i) || result == None ==>
            && t.view == s.view && t.marks == s.marks && t.rows == s.rows
            && t.failures == s.failures +
                 if !p.normalizes(s.log[i]) || InTurn(s, i) then {i} else {})
  {
  }

  /** Appending happens exactly to a new key. */
  lemma AppendedIff<V>(s: Ledger<V>, e: Event)
    ensures var t := AppendStep(s, e);
      && t.(log := s.log) == s
      && ((forall i :: 0 <= i < |s.log| ==> s.log[i].key != e.key) ==> t.log == s.log + [e])
      && ((exists i :: 0 <= i < |s.log| && s.log[i].key == e.key) ==> t.log == s.log)
  {
  }

  // ------------------------------------------------- where the order matters

  /** Records keys in the order of projection. */
  function Recorder(): Processor<seq<string>> {
    Processor(
      (e: Event) => true,
      (v: seq<string>, e: Event) => Some(v + [e.key]),
      (v: seq<string>, e: Event) => Writes([], false))
  }

  ghost predicate DistinctKeys(log: seq<Event>) {
    forall i, j :: 0 <= i < j < |log| ==> log[i].key != log[j].key
  }

  /** The recorder never fails and never quarantines, and records what it marks. */
  ghost predicate Recorded(s: Ledger<seq<string>>) {
    && s.failures == {} && DistinctKeys(s.log)
    && (forall i :: i in s.marks ==> i < |s.log| && s.marks[i] == Ok && s.log[i].key in s.view)
  }

  lemma {:induction false} RunRecorded(steps: seq<Step>)
    ensures Recorded(Run(Recorder(), Empty([]), steps))
  {
    if steps == [] {
    } else {
      RunRecorded(steps[..|steps| - 1]);
    }
  }

  /** An event is recorded after one that is later in the log. */
  ghost predicate Swapped(log: seq<Event>, v: seq<string>) {
    exists a, b, i, j :: SwappedAt(log, v, a, b, i, j)
  }

  ghost predicate SwappedAt(log: seq<Event>, v: seq<string>, a: int, b: int, i: int, j: int) {
    0 <= a < b < |v| && 0 <= i < j < |log| && v[a] == log[j].key && v[b] == log[i].key
  }

  /** Once swapped, always swapped. */
  lemma SwappedStays(s: Ledger<seq<string>>, step: Step)
    requires Swapped(s.log, s.view)
    ensures var t := Apply(Recorder(), s, step); Swapped(t.log, t.view)
  {
    var t := Apply(Recorder(), s, step);
    var a, b, i, j :| SwappedAt(s.log, s.view, a, b, i, j);
    assert SwappedAt(t.log, t.view, a, b, i, j);
  }

  lemma {:induction false} DisturbedIsSwapped(steps: seq<Step>)
    requires !Undisturbed(Recorder(), [], steps)
    ensures var s := Run(Recorder(), Empty([]), steps); Swapped(s.log, s.view)
  {
    var front, last := steps[..|steps| - 1], steps[|steps| - 1];
    var s := Run(Recorder(), Empty([]), front);
    if Undisturbed(Recorder(), [], front) {
      RunRecorded(front);
      var t := Apply(Recorder(), s, last);
      var j: nat :| last.i < j < |s.log| && (j in s.marks || j in s.failures);
      var a :| 0 <= a < |s.view| && s.view[a] == s.log[j].key;
      assert SwappedAt(t.log, t.view, a, |s.view|, last.i, j);
    } else {
      DisturbedIsSwapped(front);
      SwappedStays(s, last);
    }
  }

  /** The fold records keys in log order. */
  lemma {:induction false} FoldRecords(s: Ledger<seq<string>>, n: nat, a: nat, b: nat) returns (i: nat, j: nat)
    requires n <= |s.log| && a < b < |FoldOk(Recorder(), [], s, n)|
    ensures var v := FoldOk(Recorder(), [], s, n);
      i < j < n && v[a] == s.log[i].key && v[b] == s.log[j].key
  {
    var v := FoldOk(Recorder(), [], s, n - 1);
    if b < |v| {
      i, j := FoldRecords(s, n - 1, a, b);
    } else {
      i := FoldRecordsOne(s, n - 1, a);
      j := n - 1;
    }
  }

  lemma {:induction false} FoldRecordsOne(s: Ledger<seq<string>>, n: nat, a: nat) returns (i: nat)
    requires n <= |s.log| && a < |FoldOk(Recorder(), [], s, n)|
    ensures i < n && FoldOk(Recorder(), [], s, n)[a] == s.log[i].key
  {
    var v := FoldOk(Recorder(), [], s, n - 1);
    if a < |v| {
      i := FoldRecordsOne(s, n - 1, a);
    } else {
      i := n - 1;
    }
  }

  lemma SwappedIsNoFold(s: Ledger<seq<string>>)
    requires DistinctKeys(s.log) && Swapped(s.log, s.view)
    ensures s.view != FoldOk(Recorder(), [], s, |s.log|)
  {
    var a, b, i, j :| SwappedAt(s.log, s.view, a, b, i, j);
    if s.view == FoldOk(Recorder(), [], s, |s.log|) {
      var k, l := FoldRecords(s, |s.log|, a, b);
    }
  }

  /** For a processor that shows the order, the condition is exact: the projection is the
      fold if and only if no event without payload was projected behind a later one. */
  lemma RecorderExact(steps: seq<Step>)
    ensures var s := Run(Recorder(), Empty([]), steps);
      s.view == FoldOk(Recorder(), [], s, |s.log|) <==> Undisturbed(Recorder(), [], steps)
  {
    if Undisturbed(Recorder(), [], steps) {
      ProjectionIsFold(Recorder(), [], steps);
    } else {
      DisturbedIsSwapped(steps);
      RunRecorded(steps);
      SwappedIsNoFold(Run(Recorder(), Empty([]), steps));
    }
  }

  lemma ReplayRecords(a: Event, b: Event)
    ensures Replay(Recorder(), [], [a, b], 2) == ([a.key, b.key], map[0 := Ok, 1 := Ok])
  {
    assert Replay(Recorder(), [], [a, b], 0) == ([], map[]);
    assert [] + [a.key] == [a.key] && [a.key] + [b.key] == [a.key, b.key];
    assert Replay(Recorder(), [], [a, b], 1) == ([a.key], map[0 := Ok]);
  }

  /** The guard lets an event without payload be projected after later events. */
  lemma NullOutOfOrderDiverges(a: Event, b: Event)
    requires a.key != b.key && !a.Retained() && b.Retained()
    ensures var s := Run(Recorder(), Empty([]), [Append(a), Append(b), Process(1), Process(0)]);
      && s.log == [a, b] && s.view == [b.key, a.key]
      && Replay(Recorder(), [], s.log, 2) == ([a.key, b.key], s.marks)
  {
    var p := Recorder();
    var s1: Ledger<seq<string>> := Ledger([a], map[], [], [], {});
    var s2 := s1.(log := [a, b]);
    assert AppendStep(Empty([]), a) == s1 && AppendStep(s1, b) == s2;
    assert [] + [b.key] == [b.key] && [b.key] + [a.key] == [b.key, a.key];
    assert Attempt(p, s2, 1) == Projected([b.key]);
    var s3 := ProcessStep(p, s2, 1);
    assert s3.log == [a, b] && s3.view == [b.key] && s3.marks == map[1 := Ok];
    assert Attempt(p, s3, 0) == Projected([b.key, a.key]);
    assert ProcessStep(p, s3, 0).marks == map[0 := Ok, 1 := Ok];
    RunFour(p, Empty([]), Append(a), Append(b), Process(1), Process(0));
    ReplayRecords(a, b);
  }

  // ------------------------------------------------------------- deliveries

  datatype Delivery<+V> = Mismatch | Duplicate | Report(outcome: Outcome<V>)

  /** The stored position of an idempotency key. */
  function Position(log: seq<Event>, key: string): (r: Option<nat>)
    ensures r.Some? ==> r.value < |log| && log[r.value].key == key
    ensures r.None? ==> forall i :: 0 <= i < |log| ==> log[i].key != key
  {
    if log == [] then None
    else if log[|log| - 1].key == key then Some(|log| - 1)
    else Position(log[..|log| - 1], key)
  }

  /** One delivery: a key already stored heals its event if that has no marker, and changes
      nothing otherwise; a new key appends, projects, and quarantines a failure. */
  function Deliver<V>(p: Processor<V>, s: Ledger<V>, e: Event): (Ledger<V>, Delivery<V>) {
    match Position(s.log, e.key)
    case Some(i) =>
      if s.log[i].digest != e.digest then (s, Mismatch)
      else if i in s.marks then (s, Duplicate)
      else (ProcessStep(p, s, i), Report(Attempt(p, s, i)))
    case None =>
      var i, t := |s.log|, s.(log := s.log + [e]);
      (QuarantineStep(ProcessStep(p, t, i), i), Report(Attempt(p, t, i)))
  }

  function DeliverAll<V>(p: Processor<V>, s: Ledger<V>, es: seq<Event>): Ledger<V> {
    if es == [] then s else Deliver(p, DeliverAll(p, s, es[..|es| - 1]), es[|es| - 1]).0
  }

  lemma {:induction false} RunConcat<V>(p: Processor<V>, s: Ledger<V>, a: seq<Step>, b: seq<Step>)
    ensures Run(p, s, a + b) == Run(p, Run(p, s, a), b)
  {
    if b == [] {
      assert a + b == a;
    } else {
      RunConcat(p, s, a, b[..|b| - 1]);
      assert (a + b)[..|a + b| - 1] == a + b[..|b| - 1];
    }
  }

  /** Every sequence of deliveries is a run, so what holds in every run holds after it. */
  lemma {:induction false} DeliveriesAreRuns<V>(
      p: Processor<V>, s: Ledger<V>, es: seq<Event>) returns (steps: seq<Step>)
    ensures DeliverAll(p, s, es) == Run(p, s, steps)
  {
    if es == [] {
      steps := [];
    } else {
      var front := DeliveriesAreRuns(p, s, es[..|es| - 1]);
      var t, e := Run(p, s, front), es[|es| - 1];
      var n := |t.log|;
      var more: seq<Step>;
      match Position(t.log, e.key) {
        case Some(i) =>
          more := if t.log[i].digest != e.digest || i in t.marks then [] else [Process(i)];
          assert more != [] ==> more[..0] == [];
        case None =>
          more := [Append(e), Process(n), Quarantine(n)];
          assert more[..2] == [Append(e), Process(n)] && more[..2][..1] == [Append(e)] && more[..2][..1][..0] == [];
          assert Run(p, t, more[..2][..1]) == AppendStep(t, e);
      }
      RunConcat(p, s, front, more);
      steps := front + more;
    }
  }

  /** The first delivery of a key is stored whatever happens. It is marked ok exactly when it
      normalizes, no earlier retained event is unmarked and projecting does not raise; it
      is quarantined when it does not normalize or raises, and left unmarked behind a hole. */
  lemma FirstDelivery<V>(p: Processor<V>, s: Ledger<V>, e: Event)
    requires forall i :: 0 <= i < |s.log| ==> s.log[i].key != e.key
    requires (forall i :: i in s.marks || i in s.failures ==> i < |s.log|) && Attributed(s.rows, |s.log|) == 0
    ensures var t, n := Deliver(p, s, e).0, |s.log|;
      var settled := forall j: nat :: j < n && s.log[j].payload != None ==> j in s.marks;
      && t.log == s.log + [e]
      && (p.normalizes(e) && settled && p.project(s.view, e) != None ==>
            && t.marks == s.marks[n := Ok] && t.view == p.project(s.view, e).value
            && t.rows == ProjectRows(s.rows, n, p.writes(s.view, e)))
      && (!p.normalizes(e) || (settled && p.project(s.view, e) == None) ==>
            t.marks == s.marks[n := Quarantined] && t.view == s.view && t.rows == s.rows)
      && (p.normalizes(e) && !settled ==> t.marks == s.marks && t.view == s.view && t.rows == s.rows)
  {
    var t := s.(log := s.log + [e]);
    ProcessedIff(p, t, |s.log|);
    assert InTurn(t, |s.log|) <==> forall j: nat :: j < |s.log| && s.log[j].payload != None ==> j in s.marks;
  }

  /** Without crashes, deliveries leave no hole: whatever the processor and however often
      events are redelivered, every event has a marker, and projection and markers are
      those of a replay of the log. */
  lemma {:induction false} DeliveriesEqualReplay<V>(p: Processor<V>, init: V, es: seq<Event>)
    ensures Replayed(p, init, DeliverAll(p, Empty(init), es))
  {
    if es == [] {
    } else {
      var s, e := DeliverAll(p, Empty(init), es[..|es| - 1]), es[|es| - 1];
      DeliveriesEqualReplay(p, init, es[..|es| - 1]);
      if Position(s.log, e.key).None? {
        NothingBeyondLog(p, init, es[..|es| - 1]);
        DeliveryExtendsReplay(p, init, s, e);
      }
    }
  }

  lemma NothingBeyondLog<V>(p: Processor<V>, init: V, es: seq<Event>)
    ensures var s := DeliverAll(p, Empty(init), es);
      (forall i :: i in s.marks || i in s.failures ==> i < |s.log|) && Attributed(s.rows, |s.log|) == 0
  {
    var steps := DeliveriesAreRuns(p, Empty(init), es);
    RunGuarded(p, init, steps);
    HonestStatesAdmitted(p, init, steps);
    var s := Run(p, Empty(init), steps);
    assert Admitted(s, |s.log|);
  }

  /** Every event has a marker, and projection and markers are those of a replay. */
  ghost predicate Replayed<V>(p: Processor<V>, init: V, s: Ledger<V>) {
    (forall i: nat :: i < |s.log| ==> i in s.marks) && Replay(p, init, s.log, |s.log|) == (s.view, s.marks)
  }

  lemma DeliveryExtendsReplay<V>(p: Processor<V>, init: V, s: Ledger<V>, e: Event)
    requires Replayed(p, init, s) && Position(s.log, e.key).None?
    requires (forall i :: i in s.marks || i in s.failures ==> i < |s.log|) && Attributed(s.rows, |s.log|) == 0
    ensures Replayed(p, init, Deliver(p, s, e).0)
  {
    var i, t := |s.log|, s.(log := s.log + [e]);
    assert !OutOfOrder(t, i);
    ReplayPrefix(p, init, s.log, e, i);
    assert Replay(p, init, t.log, i) == (s.view, s.marks);
  }

  lemma {:induction false} ReplayPrefix<V>(p: Processor<V>, init: V, log: seq<Event>, e: Event, n: nat)
    requires n <= |log|
    ensures Replay(p, init, log + [e], n) == Replay(p, init, log, n)
  {
    if n == 0 {
    } else {
      ReplayPrefix(p, init, log, e, n - 1);
    }
  }

  // -------------------------------------------------------------- the engine

  /** The tables of one project, updated in place. */
  class Engine<V(!new)> {
    const p: Processor<V>
    const init: V
    var log: seq<Event>
    var marks: map<nat, Mark>
    var view: V
    var rows: seq<Row>
    ghost var failures: set<nat>

    ghost function State(): Ledger<V>
      reads this
    {
      Ledger(log, marks, view, rows, failures)
    }

    ghost predicate Valid()
      reads this
    {
      forall i :: i in marks || i in failures ==> i < |log|
    }

    constructor (p: Processor<V>, init: V)
      ensures Valid() && this.p == p && this.init == init
      ensures State() == Empty(init)
    {
      this.p, this.init, view := p, init, init;
      log, marks, rows, failures := [], map[], [], {};
    }

    method Find(key: string) returns (r: Option<nat>)
      ensures r == Position(log, key)
    {
      var i: nat := |log|;
      assert log[..i] == log;
      while i > 0
        invariant i <= |log| && Position(log, key) == Position(log[..i], key)
      {
        assert log[..i][..i - 1] == log[..i - 1];
        if log[i - 1].key == key {
          return Some(i - 1);
        }
        i := i - 1;
      }
      assert log[..i] == [];
      return None;
    }

    /** Closes the current row of a key and appends the next. */
    method WriteRow(key: Key, source: nat)
      modifies this`rows
      ensures rows == PutRow(old(rows), key, source)
    {
      var closed := [];
      var i := 0;
      assert rows[..0] == [];
      while i < |rows|
        invariant i <= |rows| && closed == Closed(rows[..i], key) && rows == old(rows)
      {
        assert rows[..i + 1][..i] == rows[..i];
        closed := closed + [if rows[i].key == key then rows[i].(current := false) else rows[i]];
        i := i + 1;
      }
      assert rows[..i] == rows;
      rows := closed + [Row(key, source, true)];
    }

    /** The rows of one projected event, the event's own node first. */
    method WriteRows(i: nat, w: Writes)
      modifies this`rows
      ensures rows == ProjectRows(old(rows), i, w)
    {
      WriteRow(EventNode(i), i);
      ghost var first := rows;
      var k := 0;
      assert w.others[..0] == [];
      while k < |w.others|
        invariant k <= |w.others| && rows == PutOthers(first, w.others[..k], i)
      {
        assert w.others[..k + 1][..k] == w.others[..k];
        WriteRow(Other(w.others[k]), i);
        k := k + 1;
      }
      assert w.others[..k] == w.others;
      if w.corrects {
        WriteRow(EventNode(i), i);
      }
    }

    method ProcessStored(i: nat) returns (outcome: Outcome<V>)
      requires i < |log|
      modifies this
      ensures outcome == old(Attempt(p, State(), i))
      ensures State() == old(ProcessStep(p, State(), i))
    {
      if !p.normalizes(log[i]) {
        failures := failures + {i};
        return Failed;
      }
      if i in marks && marks[i] == Ok {
        return AlreadyOk;
      }
      var hole := exists j: nat :: j < i && j < |log| && log[j].Retained() && j !in marks;
      var later := exists j: nat :: i < j < |log| && j in marks;
      if hole || (log[i].Retained() && later) {
        return Refused;
      }
      match p.project(view, log[i])
      case None =>
        failures := failures + {i};
        outcome := Failed;
      case Some(v) =>
        WriteRows(i, p.writes(view, log[i]));
        view, marks := v, marks[i := Ok];
        outcome := Projected(v);
    }

    method QuarantineStored(i: nat)
      requires i < |log| && i in failures
      modifies this`marks
      ensures State() == old(QuarantineStep(State(), i))
    {
      var attributed := Attributed(rows, i);
      if i !in marks && attributed == 0 {
        marks := marks[i := Quarantined];
      }
    }

    /** One delivery. */
    method Ingest(e: Event) returns (r: Delivery<V>)
      requires Valid()
      modifies this
      ensures Valid()
      ensures (State(), r) == old(Deliver(p, State(), e))
      ensures var known := Position(old(log), e.key);
        known.Some? ==>
          if old(log)[known.value].digest != e.digest then r == Mismatch && State() == old(State())
          else if known.value in old(marks) then r == Duplicate && State() == old(State())
          else
            && r == Report(old(Attempt(p, State(), known.value)))
            && State() == old(ProcessStep(p, State(), known.value))
    {
      var found := Find(e.key);
      if found.Some? {
        if log[found.value].digest != e.digest {
          return Mismatch;
        }
        if found.value in marks {
          return Duplicate;
        }
        var outcome := ProcessStored(found.value);
        return Report(outcome);
      }
      var i := |log|;
      log := log + [e];
      var outcome := ProcessStored(i);
      if outcome == Failed {
        QuarantineStored(i);
      }
      r := Report(outcome);
    }

    /** Replays the log into a fresh engine. */
    method Rebuild() returns (replica: Engine<V>)
      ensures fresh(replica) && replica.log == log
      ensures (replica.view, replica.marks) == Replay(p, init, log, |log|)
    {
      replica := new Engine(p, init);
      var i := 0;
      while i < |log|
        invariant 0 <= i <= |log| && fresh(replica)
        invariant replica.p == p && replica.log == log[..i]
        invariant (replica.view, replica.marks) == Replay(p, init, log, i)
        invariant forall j: nat :: j in replica.marks <==> j < i
        invariant forall j: nat :: i <= j ==> Attributed(replica.rows, j) == 0
      {
        replica.log := replica.log + [log[i]];
        assert replica.log == log[..i + 1];
        forall j: nat
          ensures i < j ==> Attributed(ProcessStep(p, replica.State(), i).rows, j) == 0
        {
          ProjectCounts(replica.rows, i, p.writes(replica.view, log[i]), EventNode(i), j);
        }
        var outcome := replica.ProcessStored(i);
        if outcome == Failed {
          replica.QuarantineStored(i);
        }
        i := i + 1;
      }
    }
  }
}
