/**
 Revisions of one mutable source (an issue body, a comment, ...), delivered in any
 order. Each field of the source is fenced separately: a block older than the newest
 projected revision of its field is skipped, and an admitted block withdraws the
 statements it no longer makes. The live statements of a field behave like a
 register written by the newest revision.
 */
module SourceRevisions {
  import opened Options

  datatype Statement = Statement(kind: string, text: string)

  /** One field of one revision: what extraction finds in it, under the author's
      authority, and whether it looks like an injection. */
  datatype Block = Block(items: seq<Statement>, rank: nat, suspicious: bool)

  /** One delivered event of the source. */
  datatype Snapshot = Snapshot(id: string, rank: nat, revision: Option<int>, blocks: map<string, Block>)

  /** A successfully projected event and the fields it was admitted for. */
  datatype Projected = Projected(id: string, rank: nat, revision: Option<int>, refs: set<string>)

  /** A claim node: its producing event and field, and its current state. */
  datatype Claim = Claim(
    event: string, ref: string, statement: Statement, rank: nat, quarantined: bool, withdrawn: bool)

  datatype State = State(done: seq<Projected>, claims: seq<Claim>)

  // ----------------------------------------------------------- the fence

  /** `d` is a strictly newer projected revision of this field, of no less authority. */
  predicate Fences(d: Projected, e: Snapshot, ref: string) {
    && e.revision.Some? && d.revision.Some?
    && d.id != e.id
    && d.rank >= e.rank
    && d.revision.value > e.revision.value
    && ref in d.refs
  }

  predicate Obsolete(done: seq<Projected>, e: Snapshot, ref: string) {
    exists i :: 0 <= i < |done| && Fences(done[i], e, ref)
  }

  // ------------------------------------------------------- one text block

  function Stated(b: Block): set<Statement> {
    set i | 0 <= i < |b.items| :: b.items[i]
  }

  /** The first occurrences: a statement repeated in a block is the same claim again. */
  function Distinct(items: seq<Statement>): (r: seq<Statement>)
    ensures forall s :: s in r <==> s in items
    ensures forall i, j :: 0 <= i < j < |r| ==> r[i] != r[j]
  {
    if items == [] then []
    else
      var front, last := Distinct(items[..|items| - 1]), items[|items| - 1];
      if last in front then front else front + [last]
  }

  function Produced(e: Snapshot, ref: string, b: Block, items: seq<Statement>): seq<Claim> {
    seq(|items|, i requires 0 <= i < |items| => Claim(e.id, ref, items[i], b.rank, b.suspicious, false))
  }

  /** A claim an admitted block takes back. */
  predicate TakenBack(c: Claim, e: Snapshot, ref: string, b: Block) {
    && !c.quarantined && !c.withdrawn
    && c.ref == ref
    && c.event != e.id
    && c.statement !in Stated(b)
    && b.rank >= c.rank
  }

  function Withdraw(claims: seq<Claim>, e: Snapshot, ref: string, b: Block): (r: seq<Claim>)
    ensures |r| == |claims|
  {
    seq(|claims|, i requires 0 <= i < |claims| =>
      if TakenBack(claims[i], e, ref, b) then claims[i].(withdrawn := true) else claims[i])
  }

  function ProcessText(claims: seq<Claim>, e: Snapshot, ref: string, b: Block): seq<Claim> {
    var more := claims + Produced(e, ref, b, Distinct(b.items));
    if b.suspicious then more else Withdraw(more, e, ref, b)
  }

  /** The same, row by row, as the projection runs it. */
  method ProcessTextRows(claims: seq<Claim>, e: Snapshot, ref: string, b: Block) returns (r: seq<Claim>)
    ensures r == ProcessText(claims, e, ref, b)
  {
    r := claims;
    var i := 0;
    assert b.items[..0] == [];
    while i < |b.items|
      invariant 0 <= i <= |b.items|
      invariant r == claims + Produced(e, ref, b, Distinct(b.items[..i]))
    {
      assert b.items[..i + 1][..i] == b.items[..i];
      if b.items[i] !in b.items[..i] {
        r := r + [Claim(e.id, ref, b.items[i], b.rank, b.suspicious, false)];
      }
      i := i + 1;
    }
    assert b.items[..i] == b.items;
    if b.suspicious {
      return;
    }
    ghost var more := r;
    i := 0;
    while i < |r|
      invariant 0 <= i <= |r| == |more|
      invariant forall j :: 0 <= j < i ==> r[j] == Withdraw(more, e, ref, b)[j]
      invariant forall j :: i <= j < |r| ==> r[j] == more[j]
    {
      if TakenBack(r[i], e, ref, b) {
        r := r[i := r[i].(withdrawn := true)];
      }
      i := i + 1;
    }
  }

  // ------------------------------------------------------------- one event

  predicate Admits(done: seq<Projected>, e: Snapshot, ref: string) {
    ref in e.blocks && !e.blocks[ref].suspicious && !Obsolete(done, e, ref)
  }

  /** The claims after processing the fields in `refs`, in that order. */
  function ProcessBlocks(done: seq<Projected>, claims: seq<Claim>, e: Snapshot, refs: seq<string>): seq<Claim>
    requires forall i :: 0 <= i < |refs| ==> refs[i] in e.blocks
  {
    if refs == [] then claims
    else
      var before := ProcessBlocks(done, claims, e, refs[..|refs| - 1]);
      var ref := refs[|refs| - 1];
      if Obsolete(done, e, ref) then before else ProcessText(before, e, ref, e.blocks[ref])
  }

  /** The fields of an event, in the order they are processed. */
  ghost predicate Lists(refs: seq<string>, e: Snapshot) {
    && (forall i :: 0 <= i < |refs| ==> refs[i] in e.blocks)
    && (forall ref :: ref in e.blocks ==> ref in refs)
    && (forall i, j :: 0 <= i < j < |refs| ==> refs[i] != refs[j])
  }

  /** Only admitted fields enter the frontier; a revision without a clock sets none. */
  function Frontier(done: seq<Projected>, e: Snapshot): Projected {
    Projected(e.id, e.rank, e.revision,
      if e.revision.Some? then set ref | ref in e.blocks && Admits(done, e, ref) else {})
  }

  function ProcessEvent(s: State, e: Snapshot, refs: seq<string>): State
    requires forall i :: 0 <= i < |refs| ==> refs[i] in e.blocks
  {
    State(s.done + [Frontier(s.done, e)], ProcessBlocks(s.done, s.claims, e, refs))
  }

  /** A delivery: an event and the order of its fields. */
  datatype Delivery = Delivery(e: Snapshot, refs: seq<string>)

  ghost predicate Deliverable(ds: seq<Delivery>) {
    forall i :: 0 <= i < |ds| ==> Lists(ds[i].refs, ds[i].e)
  }

  ghost function Run(ds: seq<Delivery>): State
    requires Deliverable(ds)
  {
    if ds == [] then State([], [])
    else
      var last := ds[|ds| - 1];
      ProcessEvent(Run(ds[..|ds| - 1]), last.e, last.refs)
  }

  /** The statements of a field that are live. */
  ghost function Live(claims: seq<Claim>, ref: string): set<Statement> {
    set c | c in claims && c.ref == ref && !c.quarantined && !c.withdrawn :: c.statement
  }

  // ----------------------------------------------------------- one block

  /** Every claim of the field yields to a block of this authority, and comes from
      an earlier event. */
  ghost predicate Yields(claims: seq<Claim>, e: Snapshot, ref: string, rank: nat) {
    forall i :: 0 <= i < |claims| && claims[i].ref == ref ==> claims[i].rank <= rank && claims[i].event != e.id
  }

  /** The claims an admitted block produces are live, and those it takes back are not. */
  lemma WithdrawLeavesOwn(claims: seq<Claim>, e: Snapshot, ref: string, b: Block, items: seq<Statement>, s: Statement)
    requires !b.suspicious && Yields(claims, e, ref, b.rank) && (s in items <==> s in Stated(b))
    ensures s in Live(Withdraw(claims + Produced(e, ref, b, items), e, ref, b), ref) <==> s in Stated(b)
  {
    var more := claims + Produced(e, ref, b, items);
    var r := Withdraw(more, e, ref, b);
    if s in Stated(b) {
      var i :| 0 <= i < |items| && items[i] == s;
      assert r[|claims| + i] == Claim(e.id, ref, s, b.rank, false, false);
    }
    if s in Live(r, ref) {
      var i :| 0 <= i < |r| && r[i].ref == ref && !r[i].quarantined && !r[i].withdrawn && r[i].statement == s;
      assert r[i] == more[i];
      if i >= |claims| {
        assert s == items[i - |claims|];
      } else {
        assert more[i] == claims[i];
      }
    }
  }

  /** An admitted block leaves exactly its own statements live in its field. */
  lemma AdmittedBlockWins(claims: seq<Claim>, e: Snapshot, ref: string, b: Block)
    requires !b.suspicious && Yields(claims, e, ref, b.rank)
    ensures Live(ProcessText(claims, e, ref, b), ref) == Stated(b)
  {
    forall s
      ensures s in Live(ProcessText(claims, e, ref, b), ref) <==> s in Stated(b)
    {
      assert s in Stated(b) <==> s in b.items;
      WithdrawLeavesOwn(claims, e, ref, b, Distinct(b.items), s);
    }
  }

  /** And leaves the claims of all other fields alone. */
  lemma OtherFieldsKept(claims: seq<Claim>, e: Snapshot, ref: string, b: Block, other: string)
    requires other != ref
    ensures Live(ProcessText(claims, e, ref, b), other) == Live(claims, other)
  {
    var more := claims + Produced(e, ref, b, Distinct(b.items));
    var r := ProcessText(claims, e, ref, b);
    forall s
      ensures s in Live(r, other) <==> s in Live(claims, other)
    {
      assert forall i :: 0 <= i < |claims| && claims[i].ref == other ==> r[i] == more[i] == claims[i];
      assert forall i :: |claims| <= i < |r| ==> r[i].ref == ref;
    }
  }

  ghost predicate Unsaid(c: Claim, event: string, ref: string, b: Block) {
    !b.suspicious && !c.quarantined && c.ref == ref && c.event != event && c.rank <= b.rank && c.statement !in b.items
  }

  /** An old claim survives a block as it was, unless the block is trusted and the claim is
      live, of the same field, from another event of no higher authority, and no longer
      stated: then it is withdrawn and otherwise kept. */
  lemma OldClaims(claims: seq<Claim>, e: Snapshot, ref: string, b: Block, i: nat)
    requires i < |claims|
    ensures var r, c := ProcessText(claims, e, ref, b), claims[i];
      && |r| >= |claims|
      && r[i].event == c.event && r[i].ref == c.ref && r[i].statement == c.statement
      && r[i].rank == c.rank && r[i].quarantined == c.quarantined
      && r[i].withdrawn == (c.withdrawn || Unsaid(c, e.id, ref, b))
  {
    var more := claims + Produced(e, ref, b, Distinct(b.items));
    assert more[i] == claims[i];
    assert claims[i].statement in Stated(b) <==> claims[i].statement in b.items;
  }

  /** Each statement of a block becomes one claim of its event and field, with the block's
      authority; it is quarantined exactly when the block is suspicious. */
  lemma NewClaims(claims: seq<Claim>, e: Snapshot, ref: string, b: Block)
    ensures var r := ProcessText(claims, e, ref, b);
      && |r| >= |claims|
      && (forall i :: |claims| <= i < |r| ==>
            && r[i].event == e.id && r[i].ref == ref && r[i].statement in b.items && r[i].rank == b.rank
            && r[i].quarantined == b.suspicious && !r[i].withdrawn)
      && (forall s :: s in b.items ==> exists i :: |claims| <= i < |r| && r[i].statement == s)
      && (forall i, j :: |claims| <= i < j < |r| ==> r[i].statement != r[j].statement)
  {
    var items := Distinct(b.items);
    var more, r := claims + Produced(e, ref, b, items), ProcessText(claims, e, ref, b);
    forall i | |claims| <= i < |r|
      ensures r[i] == Claim(e.id, ref, items[i - |claims|], b.rank, b.suspicious, false)
    {
      assert more[i] == Produced(e, ref, b, items)[i - |claims|];
    }
    forall s | s in b.items
      ensures exists i :: |claims| <= i < |r| && r[i].statement == s
    {
      var k :| 0 <= k < |items| && items[k] == s;
      assert r[|claims| + k].statement == s;
    }
  }

  /** A block that looks like an injection makes nothing live and takes nothing back, in
      its own field or any other. */
  lemma SuspiciousBlockInert(claims: seq<Claim>, e: Snapshot, ref: string, b: Block, field: string)
    requires b.suspicious
    ensures Live(ProcessText(claims, e, ref, b), field) == Live(claims, field)
  {
    var r := ProcessText(claims, e, ref, b);
    NewClaims(claims, e, ref, b);
    forall i | 0 <= i < |claims|
      ensures r[i] == claims[i]
    {
      OldClaims(claims, e, ref, b, i);
    }
    assert Live(r, field) == Live(claims, field);
  }

  // -------------------------------------------------------- one delivery

  /** Claims have at most authority `rank` and come from the events `ids`. */
  ghost predicate Sourced(claims: seq<Claim>, rank: nat, ids: set<string>) {
    forall c :: c in claims ==> c.rank <= rank && c.event in ids
  }

  lemma {:induction false} BlocksSourced(
      done: seq<Projected>, claims: seq<Claim>, e: Snapshot, refs: seq<string>, rank: nat, ids: set<string>)
    requires forall i :: 0 <= i < |refs| ==> refs[i] in e.blocks && e.blocks[refs[i]].rank <= rank
    requires Sourced(claims, rank, ids) && e.id in ids
    ensures Sourced(ProcessBlocks(done, claims, e, refs), rank, ids)
  {
    if refs == [] {
    } else {
      BlocksSourced(done, claims, e, refs[..|refs| - 1], rank, ids);
      var ref := refs[|refs| - 1];
    }
  }

  /** Fields the event does not carry, carries only as an injection, or is too old for, stay
      as they are. */
  lemma {:induction false} SkippedFieldKept(
      done: seq<Projected>, claims: seq<Claim>, e: Snapshot, refs: seq<string>, ref: string)
    requires forall i :: 0 <= i < |refs| ==> refs[i] in e.blocks
    requires ref !in refs || Obsolete(done, e, ref) || e.blocks[ref].suspicious
    ensures Live(ProcessBlocks(done, claims, e, refs), ref) == Live(claims, ref)
  {
    if refs == [] {
    } else {
      var front, last := refs[..|refs| - 1], refs[|refs| - 1];
      SkippedFieldKept(done, claims, e, front, ref);
      if last != ref {
        OtherFieldsKept(ProcessBlocks(done, claims, e, front), e, last, e.blocks[last], ref);
      } else if e.blocks[ref].suspicious {
        SuspiciousBlockInert(ProcessBlocks(done, claims, e, front), e, ref, e.blocks[ref], ref);
      }
    }
  }

  /** A field is too old exactly when another event of no less authority, with a strictly
      later revision, was admitted for it. */
  lemma ObsoleteIff(done: seq<Projected>, e: Snapshot, ref: string)
    ensures Obsolete(done, e, ref) <==>
      e.revision.Some? && exists d :: d in done && LaterRevision(d, e.id, e.rank, e.revision.value, ref)
  {
    forall d | d in done && Fences(d, e, ref)
      ensures Obsolete(done, e, ref)
    {
      var i :| 0 <= i < |done| && done[i] == d;
    }
    if Obsolete(done, e, ref) {
      var i :| 0 <= i < |done| && Fences(done[i], e, ref);
      assert LaterRevision(done[i], e.id, e.rank, e.revision.value, ref);
    }
  }

  ghost predicate LaterRevision(d: Projected, id: string, rank: nat, revision: int, ref: string) {
    d.id != id && rank <= d.rank && d.revision.Some? && revision < d.revision.value && ref in d.refs
  }

  /** A projected event is remembered under its own clock and authority, for exactly the
      trusted fields it is not too old for, and for none when it has no clock. */
  lemma FrontierIs(s: State, e: Snapshot, refs: seq<string>, ref: string)
    requires Lists(refs, e)
    ensures var t := ProcessEvent(s, e, refs).done;
      && |t| == |s.done| + 1 && s.done <= t
      && t[|s.done|].id == e.id && t[|s.done|].rank == e.rank && t[|s.done|].revision == e.revision
      && (ref in t[|s.done|].refs <==>
           && e.revision.Some? && ref in e.blocks && !e.blocks[ref].suspicious
           && forall d :: d in s.done ==> !LaterRevision(d, e.id, e.rank, e.revision.value, ref))
  {
    ObsoleteIff(s.done, e, ref);
  }

  /** A field the event is admitted for ends with exactly the event's statements. */
  lemma {:induction false} AdmittedFieldWins(
      done: seq<Projected>, claims: seq<Claim>, e: Snapshot, refs: seq<string>, ref: string, ids: set<string>)
    requires forall i :: 0 <= i < |refs| ==> refs[i] in e.blocks
    requires forall i, j :: 0 <= i < j < |refs| ==> refs[i] != refs[j]
    requires ref in refs && Admits(done, e, ref)
    requires Sourced(claims, e.blocks[ref].rank, ids) && e.id !in ids
    ensures Live(ProcessBlocks(done, claims, e, refs), ref) == Stated(e.blocks[ref])
  {
    var front, last := refs[..|refs| - 1], refs[|refs| - 1];
    var before := ProcessBlocks(done, claims, e, front);
    if last != ref {
      assert ref in front;
      AdmittedFieldWins(done, claims, e, front, ref, ids);
      OtherFieldsKept(before, e, last, e.blocks[last], ref);
    } else {
      FieldUntouched(done, claims, e, front, ref, ids);
      AdmittedBlockWins(before, e, ref, e.blocks[ref]);
    }
  }

  /** Claims of a field come from other events until the field itself is processed. */
  lemma {:induction false} FieldUntouched(
      done: seq<Projected>, claims: seq<Claim>, e: Snapshot, refs: seq<string>, ref: string, ids: set<string>)
    requires ref in e.blocks
    requires forall i :: 0 <= i < |refs| ==> refs[i] in e.blocks && refs[i] != ref
    requires Sourced(claims, e.blocks[ref].rank, ids) && e.id !in ids
    ensures Yields(ProcessBlocks(done, claims, e, refs), e, ref, e.blocks[ref].rank)
  {
    if refs == [] {
      assert forall i :: 0 <= i < |claims| ==> claims[i] in claims;
    } else {
      var front, last := refs[..|refs| - 1], refs[|refs| - 1];
      FieldUntouched(done, claims, e, front, ref, ids);
      var before := ProcessBlocks(done, claims, e, front);
      var more := before + Produced(e, last, e.blocks[last], Distinct(e.blocks[last].items));
      var after := ProcessText(before, e, last, e.blocks[last]);
      forall i | 0 <= i < |after| && after[i].ref == ref
        ensures after[i].rank <= e.blocks[ref].rank && after[i].event != e.id
      {
        assert after[i] == more[i] || after[i] == more[i].(withdrawn := true);
        assert i < |before| && more[i] == before[i];
      }
    }
  }

  // ------------------------------------------------------ any delivery order

  /** Snapshots of equal authority with distinct explicit revisions and no
      quarantined block. */
  ghost predicate Comparable(ds: seq<Delivery>, rank: nat) {
    && Deliverable(ds)
    && (forall i :: 0 <= i < |ds| ==>
          && ds[i].e.rank == rank && ds[i].e.revision.Some?
          && forall ref :: ref in ds[i].e.blocks ==>
            ds[i].e.blocks[ref].rank == rank && !ds[i].e.blocks[ref].suspicious)
    && (forall i, j :: 0 <= i < j < |ds| ==>
          ds[i].e.id != ds[j].e.id && ds[i].e.revision != ds[j].e.revision)
  }

  /** `n` is the delivery of the newest revision that carries the field. */
  ghost predicate Newest(ds: seq<Delivery>, ref: string, n: int) {
    && 0 <= n < |ds| && ref in ds[n].e.blocks && ds[n].e.revision.Some?
    && forall i :: 0 <= i < |ds| && i != n && ref in ds[i].e.blocks && ds[i].e.revision.Some? ==>
         ds[i].e.revision.value < ds[n].e.revision.value
  }

  ghost predicate Carried(ds: seq<Delivery>, ref: string) {
    exists i :: 0 <= i < |ds| && ref in ds[i].e.blocks
  }

  /** The projected event of a delivery. */
  ghost predicate Reflects(d: Projected, e: Snapshot) {
    && d.id == e.id && d.rank == e.rank && d.revision == e.revision
    && forall ref :: ref in d.refs ==> ref in e.blocks
  }

  lemma {:induction false} RunIds(ds: seq<Delivery>)
    requires Deliverable(ds)
    ensures |Run(ds).done| == |ds|
    ensures forall i :: 0 <= i < |ds| ==> Reflects(Run(ds).done[i], ds[i].e)
  {
    if ds == [] {
    } else {
      var front := ds[..|ds| - 1];
      RunIds(front);
      forall i | 0 <= i < |ds|
        ensures Reflects(Run(ds).done[i], ds[i].e)
      {
        if i < |front| {
          assert Run(ds).done[i] == Run(front).done[i] && front[i] == ds[i];
        }
      }
    }
  }

  lemma {:induction false} RunSourced(ds: seq<Delivery>, rank: nat)
    requires Comparable(ds, rank)
    ensures Sourced(Run(ds).claims, rank, set i | 0 <= i < |ds| :: ds[i].e.id)
  {
    if ds == [] {
    } else {
      var front, last := ds[..|ds| - 1], ds[|ds| - 1];
      RunSourced(front, rank);
      var ids := set i | 0 <= i < |ds| :: ds[i].e.id;
      assert forall i :: 0 <= i < |front| ==> front[i] == ds[i];
      BlocksSourced(Run(front).done, Run(front).claims, last.e, last.refs, rank, ids);
    }
  }

  /** Whatever the order, a field ends with the statements of its newest revision,
      and that revision holds its frontier. */
  lemma {:induction false} NewestWins(ds: seq<Delivery>, rank: nat, ref: string, n: int)
    requires Comparable(ds, rank) && Newest(ds, ref, n)
    ensures Live(Run(ds).claims, ref) == Stated(ds[n].e.blocks[ref])
    ensures |Run(ds).done| == |ds| && ref in Run(ds).done[n].refs
  {
    var front := ds[..|ds| - 1];
    RunIds(front);
    if n < |front| {
      assert Newest(front, ref, n);
      NewestWins(front, rank, ref, n);
      OlderChangesNothing(ds, rank, ref, n);
    } else {
      NewestReplacesAll(ds, rank, ref);
    }
  }

  lemma OlderChangesNothing(ds: seq<Delivery>, rank: nat, ref: string, n: int)
    requires Comparable(ds, rank) && Newest(ds, ref, n) && n < |ds| - 1
    requires var s := Run(ds[..|ds| - 1]);
      |s.done| == |ds| - 1 && ref in s.done[n].refs
      && s.done[n].id == ds[n].e.id && s.done[n].rank == rank && s.done[n].revision == ds[n].e.revision
    ensures Live(Run(ds).claims, ref) == Live(Run(ds[..|ds| - 1]).claims, ref)
    ensures |Run(ds).done| == |ds| && ref in Run(ds).done[n].refs
  {
    var s, last := Run(ds[..|ds| - 1]), ds[|ds| - 1];
    if ref in last.e.blocks {
      assert Fences(s.done[n], last.e, ref);
    }
    SkippedFieldKept(s.done, s.claims, last.e, last.refs, ref);
  }

  lemma NewestReplacesAll(ds: seq<Delivery>, rank: nat, ref: string)
    requires Comparable(ds, rank) && Newest(ds, ref, |ds| - 1)
    ensures Live(Run(ds).claims, ref) == Stated(ds[|ds| - 1].e.blocks[ref])
    ensures |Run(ds).done| == |ds| && ref in Run(ds).done[|ds| - 1].refs
  {
    var front, last := ds[..|ds| - 1], ds[|ds| - 1];
    RunIds(front);
    var s := Run(front);
    forall i | 0 <= i < |s.done|
      ensures !Fences(s.done[i], last.e, ref)
    {
      assert front[i] == ds[i] && Reflects(s.done[i], front[i].e);
    }
    var ids := set i | 0 <= i < |front| :: front[i].e.id;
    RunSourced(front, rank);
    AdmittedFieldWins(s.done, s.claims, last.e, last.refs, ref, ids);
  }

  lemma {:induction false} NeverCarried(ds: seq<Delivery>, ref: string)
    requires Deliverable(ds) && !Carried(ds, ref)
    ensures Live(Run(ds).claims, ref) == {}
  {
    if ds == [] {
    } else {
      var front, last := ds[..|ds| - 1], ds[|ds| - 1];
      assert forall i :: 0 <= i < |front| ==> front[i] == ds[i];
      NeverCarried(front, ref);
      SkippedFieldKept(Run(front).done, Run(front).claims, last.e, last.refs, ref);
    }
  }

  lemma {:induction false} NewestExists(ds: seq<Delivery>, rank: nat, ref: string) returns (n: int)
    requires Comparable(ds, rank) && Carried(ds, ref)
    ensures Newest(ds, ref, n)
  {
    var front, last := ds[..|ds| - 1], ds[|ds| - 1];
    assert forall i :: 0 <= i < |front| ==> front[i] == ds[i];
    if Carried(front, ref) {
      n := NewestExists(front, rank, ref);
      n := NewerOfTwo(ds, rank, ref, n);
    } else {
      n := |front|;
      var i :| 0 <= i < |ds| && ref in ds[i].e.blocks;
      assert i == n;
    }
  }

  lemma NewerOfTwo(ds: seq<Delivery>, rank: nat, ref: string, m: int) returns (n: int)
    requires Comparable(ds, rank) && ds != [] && Newest(ds[..|ds| - 1], ref, m)
    ensures Newest(ds, ref, n)
  {
    var front, last := ds[..|ds| - 1], ds[|ds| - 1];
    assert forall i :: 0 <= i < |front| ==> front[i] == ds[i];
    n := if ref in last.e.blocks && last.e.revision.value > ds[m].e.revision.value then |front| else m;
  }

  ghost predicate Delivered(ds: seq<Delivery>, e: Snapshot) {
    exists i :: 0 <= i < |ds| && ds[i].e == e
  }

  /** Every snapshot of `es` is among `ds`. */
  ghost predicate Includes(ds: seq<Delivery>, es: seq<Delivery>) {
    forall j :: 0 <= j < |es| ==> Delivered(ds, es[j].e)
  }

  /** Delivery-order convergence: two orders of the same snapshots end with the same
      live statements in every field. */
  lemma OrderIrrelevant(ds: seq<Delivery>, es: seq<Delivery>, rank: nat, ref: string)
    requires Comparable(ds, rank) && Comparable(es, rank)
    requires Includes(ds, es) && Includes(es, ds)
    ensures Live(Run(ds).claims, ref) == Live(Run(es).claims, ref)
  {
    if Carried(ds, ref) {
      var n := NewestExists(ds, rank, ref);
      assert Delivered(es, ds[n].e);
      var m :| 0 <= m < |es| && es[m].e == ds[n].e;
      forall j | 0 <= j < |es| && j != m && ref in es[j].e.blocks
        ensures es[j].e.revision.value < es[m].e.revision.value
      {
        assert Delivered(ds, es[j].e);
        var i :| 0 <= i < |ds| && ds[i].e == es[j].e;
        assert i != n;
      }
      NewestWins(ds, rank, ref, n);
      NewestWins(es, rank, ref, m);
    } else {
      NeverCarried(ds, ref);
      NeverCarried(es, ref);
    }
  }

  // ---------------------------------------- exactly when order is irrelevant

  lemma WithdrawNothing(claims: seq<Claim>, e: Snapshot, ref: string, b: Block, items: seq<Statement>, s: Statement)
    requires !b.suspicious && (forall i :: 0 <= i < |claims| ==> claims[i].rank > b.rank)
    requires s in items <==> s in Stated(b)
    ensures s in Live(Withdraw(claims + Produced(e, ref, b, items), e, ref, b), ref) <==>
      s in Live(claims, ref) || s in Stated(b)
  {
    var more := claims + Produced(e, ref, b, items);
    assert forall i :: 0 <= i < |more| ==> !TakenBack(more[i], e, ref, b);
    assert Withdraw(more, e, ref, b) == more;
    if s in Stated(b) {
      var i :| 0 <= i < |items| && items[i] == s;
      assert more[|claims| + i] == Claim(e.id, ref, s, b.rank, false, false);
    }
    if s in Live(claims, ref) {
      var c :| c in claims && c.ref == ref && !c.quarantined && !c.withdrawn && c.statement == s;
      assert c in more;
    }
  }

  /** A block of less authority than all claims of its field only adds. */
  lemma WeakerBlockAdds(claims: seq<Claim>, e: Snapshot, ref: string, b: Block)
    requires !b.suspicious
    requires forall i :: 0 <= i < |claims| ==> claims[i].rank > b.rank
    ensures Live(ProcessText(claims, e, ref, b), ref) == Live(claims, ref) + Stated(b)
  {
    forall s
      ensures s in Live(ProcessText(claims, e, ref, b), ref) <==> s in Live(claims, ref) + Stated(b)
    {
      assert s in Stated(b) <==> s in b.items;
      WithdrawNothing(claims, e, ref, b, Distinct(b.items), s);
    }
  }

  /** One revision of a single field, under its author's authority. */
  function Edit(id: string, rank: nat, revision: int, ref: string, items: seq<Statement>): Delivery {
    Delivery(Snapshot(id, rank, Some(revision), map[ref := Block(items, rank, false)]), [ref])
  }

  lemma FirstEdit(id: string, rank: nat, revision: int, ref: string, items: seq<Statement>)
    ensures var d := Edit(id, rank, revision, ref, items);
      && Deliverable([d])
      && Run([d]).done == [Projected(id, rank, Some(revision), {ref})]
      && Run([d]).claims == Produced(d.e, ref, d.e.blocks[ref], Distinct(items))
      && Live(Run([d]).claims, ref) == Stated(d.e.blocks[ref])
  {
    var d := Edit(id, rank, revision, ref, items);
    var b := d.e.blocks[ref];
    assert [d][..0] == [] && d.refs[..0] == [];
    assert ProcessBlocks([], [], d.e, d.refs) == ProcessText([], d.e, ref, b);
    AdmittedBlockWins([], d.e, ref, b);
    assert [] + Produced(d.e, ref, b, Distinct(items)) == Produced(d.e, ref, b, Distinct(items));
    assert Withdraw(Produced(d.e, ref, b, Distinct(items)), d.e, ref, b) == Produced(d.e, ref, b, Distinct(items));
    assert Frontier([], d.e) == Projected(id, rank, Some(revision), {ref});
    assert [] + [Frontier([], d.e)] == [Frontier([], d.e)];
  }

  /** What two edits of one field leave live, in the order `a` then `b`. */
  lemma TwoEdits(a: Delivery, b: Delivery, ref: string, p: seq<Statement>, q: seq<Statement>, u: int, v: int)
    requires a == Edit(a.e.id, a.e.rank, u, ref, p) && b == Edit(b.e.id, b.e.rank, v, ref, q) && a.e.id != b.e.id
    ensures Deliverable([a, b])
    ensures Live(Run([a, b]).claims, ref) ==
      if a.e.rank >= b.e.rank && u > v then Stated(a.e.blocks[ref])
      else if b.e.rank >= a.e.rank then Stated(b.e.blocks[ref])
      else Stated(a.e.blocks[ref]) + Stated(b.e.blocks[ref])
  {
    FirstEdit(a.e.id, a.e.rank, u, ref, p);
    var s := Run([a]);
    assert [a, b][..1] == [a] && b.refs[..0] == [];
    var block := b.e.blocks[ref];
    assert Fences(s.done[0], b.e, ref) == (a.e.rank >= b.e.rank && u > v);
    if a.e.rank >= b.e.rank && u > v {
      SkippedFieldKept(s.done, s.claims, b.e, b.refs, ref);
    } else {
      assert ProcessBlocks(s.done, s.claims, b.e, b.refs) == ProcessText(s.claims, b.e, ref, block);
      if b.e.rank >= a.e.rank {
        AdmittedBlockWins(s.claims, b.e, ref, block);
      } else {
        WeakerBlockAdds(s.claims, b.e, ref, block);
      }
    }
  }

  /** Two edits of one field commute exactly when the newer one has no less authority
      or says nothing new; with equal clocks the last delivery wins, so only content
      the other already carries is safe. */
  lemma EditsCommuteIff(a: Delivery, b: Delivery, ref: string, p: seq<Statement>, q: seq<Statement>, u: int, v: int)
    requires a == Edit(a.e.id, a.e.rank, u, ref, p) && b == Edit(b.e.id, b.e.rank, v, ref, q) && a.e.id != b.e.id
    ensures Deliverable([a, b]) && Deliverable([b, a])
    ensures Live(Run([a, b]).claims, ref) == Live(Run([b, a]).claims, ref) <==>
      var x, y := Stated(a.e.blocks[ref]), Stated(b.e.blocks[ref]);
      if u > v then a.e.rank >= b.e.rank || x <= y
      else if v > u then b.e.rank >= a.e.rank || y <= x
      else if a.e.rank == b.e.rank then x == y
      else if a.e.rank > b.e.rank then y <= x
      else x <= y
  {
    TwoEdits(a, b, ref, p, q, u, v);
    TwoEdits(b, a, ref, q, p, v, u);
    var x, y := Stated(a.e.blocks[ref]), Stated(b.e.blocks[ref]);
    assert x + y == y + x;
    assert (x + y == y) == (x <= y) && (x + y == x) == (y <= x);
  }
}
