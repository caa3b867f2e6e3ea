/**
 The versioned node table: every write closes the current row of a node and appends
 the next one, so that a read as of a past instant keeps seeing what was believed then.

 Sampling the clock and writing are one step. Times are microseconds.
 */
module Bitemporal {
  import opened Options

  datatype Identity = Identity(entityType: string, tenant: string, project: string)

  /** A stored event, with the tenant and project it belongs to. */
  datatype Source = Source(event: string, tenant: string, project: string)

  datatype Provenance = Provenance(source: Option<Source>, extractor: Option<string>, extractorVersion: Option<string>)

  /** What one write says about a node; `None` leaves a field as it is. */
  datatype Patch = Patch(
    id: string, identity: Identity, provenance: Provenance,
    status: Option<string>, criticality: Option<string>, authority: Option<string>,
    confidence: Option<real>, scope: Option<string>, data: map<string, string>,
    validFrom: Option<int>, validTo: Option<int>, reopen: bool)

  datatype Row = Row(
    id: string, version: nat, identity: Identity, provenance: Provenance,
    status: Option<string>, criticality: Option<string>, authority: Option<string>,
    confidence: Option<real>, scope: Option<string>, data: map<string, string>,
    validFrom: int, validTo: Option<int>,
    txFrom: int, txTo: Option<int>)

  /** The rows in insertion order, and the last time the clock gave out. */
  datatype Table = Table(rows: seq<Row>, last: Option<int>)

  // ------------------------------------------------------------------- clock

  /** The time the clock gives out when the machine's clock shows `sampled`. */
  function Tick(last: Option<int>, sampled: int): (now: int)
    ensures last.Some? ==> last.value < now
  {
    if last.Some? && sampled <= last.value then last.value + 1 else sampled
  }

  // ------------------------------------------------------------------ writing

  /** The row of a node that no later write has closed. */
  function CurrentIndex(rows: seq<Row>, id: string): (r: Option<nat>)
    ensures r.Some? ==> r.value < |rows| && rows[r.value].id == id && rows[r.value].txTo.None?
  {
    if rows == [] then None
    else
      var n := |rows| - 1;
      if rows[n].id == id && rows[n].txTo.None? then Some(n) else CurrentIndex(rows[..n], id)
  }

  function Or<T>(given: Option<T>, before: Option<T>): Option<T> {
    if given.Some? then given else before
  }

  function FirstRow(p: Patch, now: int): Row {
    Row(p.id, 1, p.identity, p.provenance, p.status, p.criticality, p.authority, p.confidence, p.scope, p.data,
        if p.validFrom.Some? then p.validFrom.value else now, p.validTo, now, None)
  }

  /** The next version: unspecified fields carry forward, data is merged; where a version
      came from never carries forward. */
  function NextRow(prev: Row, p: Patch, now: int): Row {
    Row(p.id, prev.version + 1, p.identity, p.provenance,
        Or(p.status, prev.status), Or(p.criticality, prev.criticality), Or(p.authority, prev.authority),
        Or(p.confidence, prev.confidence), Or(p.scope, prev.scope), prev.data + p.data,
        if p.validFrom.Some? then p.validFrom.value else prev.validFrom,
        if p.reopen then p.validTo else Or(p.validTo, prev.validTo),
        now, None)
  }

  predicate WellFormed(p: Patch) {
    && (p.reopen ==> p.validFrom.Some? && p.validTo.None?)
    && (p.confidence.Some? ==> 0.0 <= p.confidence.value <= 1.0)
  }

  /** A version may only come from an event of its own tenant and project. */
  predicate OwnSource(p: Patch) {
    p.provenance.source.Some? ==>
      p.provenance.source.value.tenant == p.identity.tenant && p.provenance.source.value.project == p.identity.project
  }

  /** Reopening follows a closed interval. */
  predicate MayReopen(prev: Option<Row>, p: Patch)
    requires WellFormed(p)
  {
    p.reopen ==> prev.Some? && prev.value.validTo.Some? && prev.value.validTo.value <= p.validFrom.value
  }

  /** The rows after a write, or `None` when it is refused. */
  function PutRows(rows: seq<Row>, p: Patch, now: int): Option<seq<Row>>
    requires WellFormed(p)
  {
    match CurrentIndex(rows, p.id)
    case None => if OwnSource(p) && MayReopen(None, p) then Some(rows + [FirstRow(p, now)]) else None
    case Some(i) =>
      var prev := rows[i];
      if !OwnSource(p) || !MayReopen(Some(prev), p) || prev.identity != p.identity then None
      else Some(rows[i := prev.(txTo := Some(now))] + [NextRow(prev, p, now)])
  }

  /** A write and what the machine's clock shows; `restarted` is whether the process has
      started anew, and forgotten the last time, since it was given out. */
  datatype Write = Write(patch: Patch, sampled: int, restarted: bool)

  function Now(t: Table, w: Write): int {
    Tick(if w.restarted then None else t.last, w.sampled)
  }

  predicate Accepts(t: Table, w: Write) {
    WellFormed(w.patch) && PutRows(t.rows, w.patch, Now(t, w)).Some?
  }

  /** A refused write leaves the rows alone; only a well-formed one ticks the clock. */
  function Put(t: Table, w: Write): Table {
    if !WellFormed(w.patch) then t
    else
      var now := Now(t, w);
      var rows := PutRows(t.rows, w.patch, now);
      Table(if rows.Some? then rows.value else t.rows, Some(now))
  }

  function PutAll(t: Table, ws: seq<Write>): Table {
    if ws == [] then t else Put(PutAll(t, ws[..|ws| - 1]), ws[|ws| - 1])
  }

  /** After a restart the machine's clock is past every time given out before. */
  predicate InOrder(t: Table, w: Write) {
    w.restarted && t.last.Some? ==> t.last.value < w.sampled
  }

  predicate AllInOrder(t: Table, ws: seq<Write>) {
    ws == [] || (AllInOrder(t, ws[..|ws| - 1]) && InOrder(PutAll(t, ws[..|ws| - 1]), ws[|ws| - 1]))
  }

  const EMPTY := Table([], None)

  // ------------------------------------------------------------------ history

  /** The rows of one node, oldest first. */
  function Versions(rows: seq<Row>, id: string): seq<Row> {
    if rows == [] then []
    else
      var front := Versions(rows[..|rows| - 1], id);
      if rows[|rows| - 1].id == id then front + [rows[|rows| - 1]] else front
  }

  /** Versions counted from one, each closed at the instant the next begins, the last
      one open, all of one identity. */
  ghost predicate Chain(v: seq<Row>) {
    && (forall k :: 0 <= k < |v| ==> v[k].version == k + 1 && v[k].identity == v[0].identity)
    && (forall k :: 0 <= k < |v| - 1 ==> v[k].txTo == Some(v[k + 1].txFrom) && v[k].txFrom < v[k + 1].txFrom)
    && (v != [] ==> v[|v| - 1].txTo.None?)
  }

  ghost predicate Before(v: seq<Row>, last: Option<int>) {
    forall k :: 0 <= k < |v| ==> last.Some? && v[k].txFrom <= last.value
  }

  ghost predicate Sound(t: Table) {
    forall id :: Chain(Versions(t.rows, id)) && Before(Versions(t.rows, id), t.last)
  }

  lemma {:induction false} CurrentIsLast(rows: seq<Row>, id: string)
    requires Chain(Versions(rows, id))
    ensures var v := Versions(rows, id);
      match CurrentIndex(rows, id)
      case None => v == []
      case Some(i) => v != [] && rows[i] == v[|v| - 1]
  {
    if rows != [] && rows[|rows| - 1].id != id {
      CurrentIsLast(rows[..|rows| - 1], id);
    }
  }

  lemma {:induction false} ClosedVersions(rows: seq<Row>, id: string, now: int)
    requires Chain(Versions(rows, id)) && CurrentIndex(rows, id).Some?
    ensures var i := CurrentIndex(rows, id).value;
      var v := Versions(rows, id);
      v != [] && Versions(rows[i := rows[i].(txTo := Some(now))], id) == v[|v| - 1 := v[|v| - 1].(txTo := Some(now))]
  {
    var n := |rows| - 1;
    var i := CurrentIndex(rows, id).value;
    var closed := rows[i].(txTo := Some(now));
    CurrentIsLast(rows, id);
    if rows[n].id == id {
      assert i == n;
      assert rows[i := closed][..n] == rows[..n];
    } else {
      ClosedVersions(rows[..n], id, now);
      assert rows[i := closed][..n] == rows[..n][i := closed];
    }
  }

  lemma {:induction false} OtherVersions(rows: seq<Row>, i: nat, r: Row, id: string)
    requires i < |rows| && rows[i].id != id && r.id != id
    ensures Versions(rows[i := r], id) == Versions(rows, id)
  {
    var n := |rows| - 1;
    if i < n {
      OtherVersions(rows[..n], i, r, id);
      assert rows[i := r][..n] == rows[..n][i := r];
    } else {
      assert rows[i := r][..n] == rows[..n];
    }
  }

  /** The versions of the written node after an accepted write. */
  ghost function Extended(v: seq<Row>, p: Patch, now: int): seq<Row> {
    if v == [] then [FirstRow(p, now)]
    else
      var prev := v[|v| - 1];
      v[|v| - 1 := prev.(txTo := Some(now))] + [NextRow(prev, p, now)]
  }

  lemma VersionsExtend(rows: seq<Row>, p: Patch, now: int, id: string)
    requires WellFormed(p) && PutRows(rows, p, now).Some? && Chain(Versions(rows, p.id))
    ensures var after := PutRows(rows, p, now).value;
      Versions(after, id) == if id == p.id then Extended(Versions(rows, id), p, now) else Versions(rows, id)
  {
    CurrentIsLast(rows, p.id);
    match CurrentIndex(rows, p.id)
    case None =>
      assert (rows + [FirstRow(p, now)])[..|rows|] == rows;
    case Some(i) =>
      var closed := rows[i := rows[i].(txTo := Some(now))];
      assert (closed + [NextRow(rows[i], p, now)])[..|rows|] == closed;
      if id == p.id {
        ClosedVersions(rows, id, now);
      } else {
        OtherVersions(rows, i, rows[i].(txTo := Some(now)), id);
      }
  }

  lemma ChainExtends(v: seq<Row>, p: Patch, last: Option<int>, now: int)
    requires Chain(v) && Before(v, last) && (last.Some? ==> last.value < now)
    requires v == [] || v[|v| - 1].identity == p.identity
    ensures Chain(Extended(v, p, now)) && Before(Extended(v, p, now), Some(now))
  {
  }

  lemma PutKeepsSound(t: Table, w: Write)
    requires InOrder(t, w)
    requires Sound(t)
    ensures Sound(Put(t, w))
  {
    if WellFormed(w.patch) {
      var p, now := w.patch, Now(t, w);
      forall id
        ensures Chain(Versions(Put(t, w).rows, id)) && Before(Versions(Put(t, w).rows, id), Some(now))
      {
        PutKeepsChain(t, w, id);
      }
    }
  }

  lemma PutKeepsChain(t: Table, w: Write, id: string)
    requires InOrder(t, w)
    requires Sound(t) && WellFormed(w.patch)
    ensures var t' := Put(t, w);
      Chain(Versions(t'.rows, id)) && Before(Versions(t'.rows, id), t'.last)
  {
    var v, now := Versions(t.rows, id), Now(t, w);
    assert Chain(v) && Before(v, t.last);
    if Accepts(t, w) {
      VersionsExtend(t.rows, w.patch, now, id);
      if id == w.patch.id {
        CurrentIsLast(t.rows, id);
        ChainExtends(v, w.patch, t.last, now);
      }
    }
  }

  /** After any sequence of writes, each node's rows are a chain of versions. */
  lemma {:induction false} HistoryIsChain(ws: seq<Write>)
    requires AllInOrder(EMPTY, ws)
    ensures Sound(PutAll(EMPTY, ws))
  {
    if ws == [] {
    } else {
      HistoryIsChain(ws[..|ws| - 1]);
      PutKeepsSound(PutAll(EMPTY, ws[..|ws| - 1]), ws[|ws| - 1]);
    }
  }

  // -------------------------------------------------------------- as-of reads

  predicate VisibleAt(r: Row, t: int) {
    r.txFrom <= t && (r.txTo.None? || r.txTo.value > t)
  }

  /** In a chain, the rows visible at an instant: none before the first version, and
      exactly one from then on. */
  lemma {:induction false} OneVersionVisible(v: seq<Row>, t: int)
    requires Chain(v) && v != []
    ensures v[0].txFrom <= t <==> exists k :: 0 <= k < |v| && VisibleAt(v[k], t)
    ensures forall j, k :: 0 <= j < |v| && 0 <= k < |v| && VisibleAt(v[j], t) && VisibleAt(v[k], t) ==> j == k
  {
    StartsIncrease(v);
    if v[0].txFrom <= t {
      var k := 0;
      while k < |v| - 1 && v[k + 1].txFrom <= t
        invariant 0 <= k < |v| && v[k].txFrom <= t
      {
        k := k + 1;
      }
      assert VisibleAt(v[k], t);
    }
  }

  lemma StartsIncrease(v: seq<Row>)
    requires Chain(v)
    ensures forall j, k :: 0 <= j < k < |v| ==>
      v[j].txFrom < v[k].txFrom && v[j].txTo.Some? && v[j].txTo.value <= v[k].txFrom
  {
    forall j, k | 0 <= j < k < |v|
      ensures v[j].txFrom < v[k].txFrom && v[j].txTo.Some? && v[j].txTo.value <= v[k].txFrom
    {
      StartsBefore(v, j, k);
    }
  }

  lemma {:induction false} StartsBefore(v: seq<Row>, j: nat, k: nat)
    requires Chain(v) && j < k < |v|
    ensures v[j].txFrom < v[k].txFrom && v[j].txTo.Some? && v[j].txTo.value <= v[k].txFrom
  {
    if j + 1 < k {
      StartsBefore(v, j, k - 1);
    }
  }

  /** The read of one node as of an instant: the newest visible version. */
  function GetAsOf(v: seq<Row>, t: int): Option<Row> {
    if v == [] then None
    else if VisibleAt(v[|v| - 1], t) then Some(v[|v| - 1])
    else GetAsOf(v[..|v| - 1], t)
  }

  /** A row without the instant that closed it. */
  function Belief(r: Row): Row {
    r.(txTo := None)
  }

  /** What a read as of `t` shows of one node. */
  function BeliefAsOf(table: Table, id: string, t: int): Option<Row> {
    var r := GetAsOf(Versions(table.rows, id), t);
    if r.Some? then Some(Belief(r.value)) else None
  }

  lemma ExtendedAsOf(v: seq<Row>, p: Patch, now: int, t: int)
    requires Chain(v) && t < now
    ensures var a, b := GetAsOf(v, t), GetAsOf(Extended(v, p, now), t);
      (a.None? <==> b.None?) && (a.Some? ==> Belief(a.value) == Belief(b.value))
  {
    var e := Extended(v, p, now);
    assert !VisibleAt(e[|e| - 1], t);
    if v != [] {
      var n := |v| - 1;
      var closed := v[n := v[n].(txTo := Some(now))];
      assert e[..|e| - 1] == closed && closed[..n] == v[..n];
    } else {
      assert e[..0] == [];
    }
  }

  /** A read as of an instant that has passed is unchanged by all later writes. */
  lemma {:induction false} PastIsStable(table: Table, ws: seq<Write>, id: string, t: int)
    requires AllInOrder(table, ws)
    requires Sound(table) && table.last.Some? && t <= table.last.value
    ensures var later := PutAll(table, ws);
      && Sound(later) && later.last.Some? && table.last.value <= later.last.value
      && BeliefAsOf(later, id, t) == BeliefAsOf(table, id, t)
  {
    if ws == [] {
    } else {
      var front, w := ws[..|ws| - 1], ws[|ws| - 1];
      var s := PutAll(table, front);
      PastIsStable(table, front, id, t);
      PutKeepsSound(s, w);
      if Accepts(s, w) {
        var now := Now(s, w);
        VersionsExtend(s.rows, w.patch, now, id);
        if id == w.patch.id {
          ExtendedAsOf(Versions(s.rows, id), w.patch, now, t);
        }
      }
    }
  }

  /** The condition on restarts is exact: reads of the past survive the first write after one
      if and only if the machine's clock has passed the last time given out. */
  lemma RestartIff(table: Table, w: Write)
    requires Sound(table) && table.last.Some? && w.restarted && Accepts(table, w)
    ensures var id := w.patch.id;
      (forall t :: t <= table.last.value ==> BeliefAsOf(Put(table, w), id, t) == BeliefAsOf(table, id, t)) <==>
        InOrder(table, w)
  {
    var id, now := w.patch.id, w.sampled;
    var v := Versions(table.rows, id);
    VersionsExtend(table.rows, w.patch, now, id);
    if InOrder(table, w) {
      forall t | t <= table.last.value
        ensures BeliefAsOf(Put(table, w), id, t) == BeliefAsOf(table, id, t)
      {
        ExtendedAsOf(v, w.patch, now, t);
      }
    } else {
      var t := table.last.value;
      GetAsOfFinds(v, t);
      var e := Extended(v, w.patch, now);
      assert VisibleAt(e[|e| - 1], t) && e[|e| - 1].version == |v| + 1;
      assert BeliefAsOf(Put(table, w), id, t) != BeliefAsOf(table, id, t);
    }
  }

  /** A read as of an instant returns the one row visible then. */
  lemma {:induction false} GetAsOfFinds(v: seq<Row>, t: int)
    ensures var r := GetAsOf(v, t);
      && (r.None? <==> forall k :: 0 <= k < |v| ==> !VisibleAt(v[k], t))
      && (r.Some? ==> exists k :: 0 <= k < |v| && VisibleAt(v[k], t) && v[k] == r.value)
  {
    if v == [] {
    } else {
      GetAsOfFinds(v[..|v| - 1], t);
      assert v[|v| - 1] in v;
    }
  }

  // -------------------------------------------------- the current row as a fold

  /** An accepted write of a node and the time it was given. */
  datatype Stamped = Stamped(patch: Patch, now: int)

  /** The accepted writes of one node. */
  ghost function Accepted(ws: seq<Write>, id: string): seq<Stamped> {
    if ws == [] then []
    else
      var front, w := ws[..|ws| - 1], ws[|ws| - 1];
      var t := PutAll(EMPTY, front);
      if w.patch.id == id && Accepts(t, w) then Accepted(front, id) + [Stamped(w.patch, Now(t, w))]
      else Accepted(front, id)
  }

  /** The fields a write may leave unspecified; each key of the data is one. */
  datatype Field = Status | Criticality | Authority | Confidence | Scope | Data(key: string) | ValidFrom | ValidTo

  datatype Value = Text(text: string) | Number(number: real) | Time(time: int)

  function TextOf(t: Option<string>): Option<Value> {
    if t.Some? then Some(Text(t.value)) else None
  }

  function TimeOf(t: Option<int>): Option<Value> {
    if t.Some? then Some(Time(t.value)) else None
  }

  function NumberOf(t: Option<real>): Option<Value> {
    if t.Some? then Some(Number(t.value)) else None
  }

  function Lookup(m: map<string, string>, key: string): Option<Value> {
    if key in m then Some(Text(m[key])) else None
  }

  /** What a write gives for a field. */
  function Given(p: Patch, f: Field): Option<Value> {
    match f
    case Status => TextOf(p.status)
    case Criticality => TextOf(p.criticality)
    case Authority => TextOf(p.authority)
    case Confidence => NumberOf(p.confidence)
    case Scope => TextOf(p.scope)
    case Data(key) => Lookup(p.data, key)
    case ValidFrom => TimeOf(p.validFrom)
    case ValidTo => TimeOf(p.validTo)
  }

  function Stored(r: Row, f: Field): Option<Value> {
    match f
    case Status => TextOf(r.status)
    case Criticality => TextOf(r.criticality)
    case Authority => TextOf(r.authority)
    case Confidence => NumberOf(r.confidence)
    case Scope => TextOf(r.scope)
    case Data(key) => Lookup(r.data, key)
    case ValidFrom => Some(Time(r.validFrom))
    case ValidTo => TimeOf(r.validTo)
  }

  /** `v` is the value some write gave last for a field, or no write gave one. */
  ghost predicate IsLatest(ps: seq<Stamped>, f: Field, v: Option<Value>) {
    if v.None? then forall k :: 0 <= k < |ps| ==> Given(ps[k].patch, f).None?
    else exists k :: GivenLastAt(ps, f, v, k)
  }

  ghost predicate GivenLastAt(ps: seq<Stamped>, f: Field, v: Option<Value>, k: int) {
    0 <= k < |ps| && Given(ps[k].patch, f) == v && forall j :: k < j < |ps| ==> Given(ps[j].patch, f).None?
  }

  /** The writes since validity was last reopened, if it ever was. */
  ghost function SinceReopened(ps: seq<Stamped>): seq<Stamped> {
    if ps == [] then []
    else if ps[|ps| - 1].patch.reopen then [ps[|ps| - 1]]
    else SinceReopened(ps[..|ps| - 1]) + [ps[|ps| - 1]]
  }

  /** Every field of the row is the one given last over the accepted writes. Validity
      starts, failing that, with the first write, and only reopening clears its end. The
      row comes from the last write alone. */
  ghost predicate IsFold(ps: seq<Stamped>, r: Row) {
    && |ps| > 0 && r.version == |ps| && r.txFrom == ps[|ps| - 1].now && r.identity == ps[0].patch.identity
    && r.provenance == ps[|ps| - 1].patch.provenance && OwnSource(ps[|ps| - 1].patch)
    && (forall f: Field :: !f.ValidFrom? && !f.ValidTo? ==> IsLatest(ps, f, Stored(r, f)))
    && (IsLatest(ps, ValidFrom, Stored(r, ValidFrom)) || (IsLatest(ps, ValidFrom, None) && r.validFrom == ps[0].now))
    && IsLatest(SinceReopened(ps), ValidTo, Stored(r, ValidTo))
  }

  lemma LatestExtends(ps: seq<Stamped>, f: Field, v: Option<Value>, next: Stamped)
    requires IsLatest(ps, f, v)
    ensures IsLatest(ps + [next], f, Or(Given(next.patch, f), v))
  {
    var more := ps + [next];
    if Given(next.patch, f).Some? {
      assert GivenLastAt(more, f, Given(next.patch, f), |ps|);
    } else if v.Some? {
      var k :| GivenLastAt(ps, f, v, k);
      assert GivenLastAt(more, f, v, k);
    }
  }

  lemma FoldStarts(p: Patch, now: int)
    requires WellFormed(p) && OwnSource(p) && !p.reopen
    ensures IsFold([Stamped(p, now)], FirstRow(p, now))
  {
    var ps, r := [Stamped(p, now)], FirstRow(p, now);
    forall f: Field
      ensures IsLatest(ps, f, Given(p, f))
      ensures !f.ValidFrom? ==> Stored(r, f) == Given(p, f)
    {
      assert Given(p, f).Some? ==> GivenLastAt(ps, f, Given(p, f), 0);
    }
    assert ps[..0] == [];
    assert SinceReopened(ps) == ps;
    assert Stored(r, ValidTo) == Given(p, ValidTo);
  }

  lemma FieldExtends(ps: seq<Stamped>, r: Row, p: Patch, now: int, f: Field)
    requires !f.ValidFrom? && !f.ValidTo? && IsLatest(ps, f, Stored(r, f))
    ensures IsLatest(ps + [Stamped(p, now)], f, Stored(NextRow(r, p, now), f))
  {
    LatestExtends(ps, f, Stored(r, f), Stamped(p, now));
  }

  lemma StartExtends(ps: seq<Stamped>, r: Row, p: Patch, now: int)
    requires ps != []
    requires IsLatest(ps, ValidFrom, Stored(r, ValidFrom))
      || (IsLatest(ps, ValidFrom, None) && r.validFrom == ps[0].now)
    ensures var more, r' := ps + [Stamped(p, now)], NextRow(r, p, now);
      || IsLatest(more, ValidFrom, Stored(r', ValidFrom))
      || (IsLatest(more, ValidFrom, None) && r'.validFrom == more[0].now)
  {
    LatestExtends(ps, ValidFrom, if IsLatest(ps, ValidFrom, None) then None else Stored(r, ValidFrom), Stamped(p, now));
  }

  lemma EndExtends(ps: seq<Stamped>, r: Row, p: Patch, now: int)
    requires WellFormed(p) && IsLatest(SinceReopened(ps), ValidTo, Stored(r, ValidTo))
    ensures IsLatest(SinceReopened(ps + [Stamped(p, now)]), ValidTo, Stored(NextRow(r, p, now), ValidTo))
  {
    var next := Stamped(p, now);
    var more := ps + [next];
    assert more[..|ps|] == ps;
    if p.reopen {
      assert SinceReopened(more) == [next];
    } else {
      LatestExtends(SinceReopened(ps), ValidTo, Stored(r, ValidTo), next);
    }
  }

  lemma FoldExtends(ps: seq<Stamped>, r: Row, p: Patch, now: int)
    requires IsFold(ps, r) && WellFormed(p) && OwnSource(p) && p.identity == r.identity
    ensures IsFold(ps + [Stamped(p, now)], NextRow(r, p, now))
  {
    var more, r' := ps + [Stamped(p, now)], NextRow(r, p, now);
    forall f: Field | !f.ValidFrom? && !f.ValidTo?
      ensures IsLatest(more, f, Stored(r', f))
    {
      FieldExtends(ps, r, p, now, f);
    }
    StartExtends(ps, r, p, now);
    EndExtends(ps, r, p, now);
  }

  ghost predicate Folds(v: seq<Row>, ps: seq<Stamped>) {
    |v| == |ps| && (v != [] ==> IsFold(ps, v[|v| - 1]))
  }

  lemma FoldsExtended(v: seq<Row>, ps: seq<Stamped>, p: Patch, now: int)
    requires Folds(v, ps) && WellFormed(p) && OwnSource(p)
    requires if v == [] then !p.reopen else p.identity == v[|v| - 1].identity
    ensures Folds(Extended(v, p, now), ps + [Stamped(p, now)])
  {
    if v == [] {
      FoldStarts(p, now);
      assert ps + [Stamped(p, now)] == [Stamped(p, now)];
    } else {
      FoldExtends(ps, v[|v| - 1], p, now);
    }
  }

  /** Over every sequence of writes, a node has a current row exactly when a write of it
      was accepted, and that row is the field-wise fold of all of them. */
  lemma {:induction false} CurrentIsFold(ws: seq<Write>, id: string)
    requires AllInOrder(EMPTY, ws)
    ensures Folds(Versions(PutAll(EMPTY, ws).rows, id), Accepted(ws, id))
  {
    if ws == [] {
    } else {
      var front, w := ws[..|ws| - 1], ws[|ws| - 1];
      var t := PutAll(EMPTY, front);
      CurrentIsFold(front, id);
      HistoryIsChain(front);
      if Accepts(t, w) {
        VersionsExtend(t.rows, w.patch, Now(t, w), id);
        if id == w.patch.id {
          CurrentIsLast(t.rows, id);
          FoldsExtended(Versions(t.rows, id), Accepted(front, id), w.patch, Now(t, w));
        }
      }
    }
  }

  // ------------------------------------------------------------ filtered views

  /** What a read asks of a node's identity; `None` asks nothing. */
  datatype Filter = Filter(project: Option<string>, tenant: Option<string>, entityType: Option<string>)

  predicate Passes(q: Filter, identity: Identity) {
    && (q.project.Some? ==> identity.project == q.project.value)
    && (q.tenant.Some? ==> identity.tenant == q.tenant.value)
    && (q.entityType.Some? ==> identity.entityType == q.entityType.value)
  }

  /** What a read of many nodes as of an instant returns. */
  function AsOf(rows: seq<Row>, q: Filter, t: int): seq<Row> {
    if rows == [] then []
    else
      var front, r := AsOf(rows[..|rows| - 1], q, t), rows[|rows| - 1];
      if Passes(q, r.identity) && VisibleAt(r, t) then front + [Belief(r)] else front
  }

  lemma {:induction false} ClosingIsInvisible(rows: seq<Row>, i: nat, now: int, q: Filter, t: int)
    requires i < |rows| && rows[i].txTo.None? && t < now
    ensures AsOf(rows[i := rows[i].(txTo := Some(now))], q, t) == AsOf(rows, q, t)
  {
    var n := |rows| - 1;
    var closed := rows[i := rows[i].(txTo := Some(now))];
    if i < n {
      ClosingIsInvisible(rows[..n], i, now, q, t);
      assert closed[..n] == rows[..n][i := rows[i].(txTo := Some(now))];
    } else {
      assert closed[..n] == rows[..n];
    }
  }

  /** Nor do later writes change what a past read of a project returns. */
  lemma {:induction false} PastProjectIsStable(table: Table, ws: seq<Write>, q: Filter, t: int)
    requires AllInOrder(table, ws)
    requires table.last.Some? && t <= table.last.value
    ensures var later := PutAll(table, ws);
      later.last.Some? && t <= later.last.value && AsOf(later.rows, q, t) == AsOf(table.rows, q, t)
  {
    if ws == [] {
    } else {
      var front, w := ws[..|ws| - 1], ws[|ws| - 1];
      var s := PutAll(table, front);
      PastProjectIsStable(table, front, q, t);
      if Accepts(s, w) {
        var now := Now(s, w);
        var rows := PutRows(s.rows, w.patch, now).value;
        var c := CurrentIndex(s.rows, w.patch.id);
        var closed := if c.None? then s.rows else s.rows[c.value := s.rows[c.value].(txTo := Some(now))];
        assert rows[..|rows| - 1] == closed;
        if c.Some? {
          ClosingIsInvisible(s.rows, c.value, now, q, t);
        }
      }
    }
  }

  lemma {:induction false} AsOfByNode(rows: seq<Row>, q: Filter, t: int, id: string)
    ensures Versions(AsOf(rows, q, t), id) == AsOf(Versions(rows, id), q, t)
  {
    if rows == [] {
    } else {
      var n := |rows| - 1;
      AsOfByNode(rows[..n], q, t, id);
      var front, r := AsOf(rows[..n], q, t), rows[n];
      assert (front + [Belief(r)])[..|front|] == front;
      var v := Versions(rows[..n], id);
      assert (v + [r])[..|v|] == v;
    }
  }

  lemma {:induction false} AsOfNone(v: seq<Row>, q: Filter, t: int)
    requires forall k :: 0 <= k < |v| ==> !VisibleAt(v[k], t)
    ensures AsOf(v, q, t) == []
  {
    if v == [] {
    } else {
      AsOfNone(v[..|v| - 1], q, t);
    }
  }

  lemma {:induction false} AsOfChain(v: seq<Row>, q: Filter, t: int)
    requires forall j, k :: 0 <= j < |v| && 0 <= k < |v| && VisibleAt(v[j], t) && VisibleAt(v[k], t) ==> j == k
    ensures var r := GetAsOf(v, t);
      AsOf(v, q, t) == if r.Some? && Passes(q, r.value.identity) then [Belief(r.value)] else []
  {
    if v == [] {
    } else {
      var n := |v| - 1;
      if VisibleAt(v[n], t) {
        AsOfNone(v[..n], q, t);
      } else {
        AsOfChain(v[..n], q, t);
      }
    }
  }

  /** The read of a project as of any instant agrees, node by node, with the read
      of that node: at most one version of each, and the same one. */
  lemma ProjectReadAgrees(ws: seq<Write>, q: Filter, t: int, id: string)
    requires AllInOrder(EMPTY, ws)
    ensures var table := PutAll(EMPTY, ws);
      var b := BeliefAsOf(table, id, t);
      Versions(AsOf(table.rows, q, t), id) ==
        if b.Some? && Passes(q, b.value.identity) then [b.value] else []
  {
    var table := PutAll(EMPTY, ws);
    var v := Versions(table.rows, id);
    HistoryIsChain(ws);
    AsOfByNode(table.rows, q, t, id);
    if v != [] {
      OneVersionVisible(v, t);
    }
    AsOfChain(v, q, t);
  }

  // ------------------------------------------------------ what a write and a read do

  /** Row `i` is the current row of the node. */
  ghost predicate Current(rows: seq<Row>, id: string, i: int) {
    && 0 <= i < |rows| && rows[i].id == id && rows[i].txTo == None
    && forall j :: i < j < |rows| ==> rows[j].id != id || rows[j].txTo != None
  }

  lemma {:induction false} FindsCurrent(rows: seq<Row>, id: string)
    ensures var c := CurrentIndex(rows, id);
      && (c.Some? ==> Current(rows, id, c.value))
      && (c.None? ==> forall i :: 0 <= i < |rows| ==> rows[i].id != id || rows[i].txTo != None)
  {
    if rows == [] {
    } else {
      FindsCurrent(rows[..|rows| - 1], id);
    }
  }

  /** The write says nothing out of range, and names an event of its own project only. */
  ghost predicate Sensible(p: Patch) {
    && (p.confidence.Some? ==> 0.0 <= p.confidence.value <= 1.0)
    && (p.reopen ==> p.validFrom.Some? && p.validTo == None)
    && (p.provenance.source.Some? ==>
          && p.provenance.source.value.tenant == p.identity.tenant
          && p.provenance.source.value.project == p.identity.project)
  }

  /** The write may follow the current row. */
  ghost predicate Follows(r: Row, p: Patch) {
    && r.identity == p.identity
    && (p.reopen ==> p.validFrom.Some? && r.validTo.Some? && r.validTo.value <= p.validFrom.value)
  }

  /** A write is accepted exactly when it is sensible and may follow the current row, or
      there is none and it does not reopen. It closes that row and appends one; any other
      write leaves all rows alone. */
  lemma PutIff(t: Table, w: Write)
    ensures var p, rows := w.patch, Put(t, w).rows;
      && (Accepts(t, w) <==>
           && Sensible(p)
           && (forall i :: Current(t.rows, p.id, i) ==> Follows(t.rows[i], p))
           && (p.reopen ==> exists i :: Current(t.rows, p.id, i)))
      && (!Accepts(t, w) ==> rows == t.rows)
      && (Accepts(t, w) ==>
           && |rows| == |t.rows| + 1 && rows[|t.rows|].id == p.id && rows[|t.rows|].txTo == None
           && forall i :: 0 <= i < |t.rows| ==>
                rows[i] ==
                  if Current(t.rows, p.id, i) then t.rows[i].(txTo := Some(rows[|t.rows|].txFrom)) else t.rows[i])
  {
    FindsCurrent(t.rows, w.patch.id);
  }

  /** The clock gives out the machine's time where that is new, and otherwise the next
      instant; a malformed write does not ask it. */
  lemma ClockIs(t: Table, w: Write)
    ensures var now, p := Put(t, w).last, w.patch;
      if (p.reopen && (p.validFrom == None || p.validTo.Some?))
        || (p.confidence.Some? && (p.confidence.value < 0.0 || p.confidence.value > 1.0))
      then now == t.last
      else if !w.restarted && t.last.Some? && w.sampled <= t.last.value then now == Some(t.last.value + 1)
      else now == Some(w.sampled)
  {
  }

  /** The identity is the one asked for. */
  ghost predicate Asked(q: Filter, identity: Identity) {
    && (q.project == None || q.project == Some(identity.project))
    && (q.tenant == None || q.tenant == Some(identity.tenant))
    && (q.entityType == None || q.entityType == Some(identity.entityType))
  }

  /** A read of many nodes shows exactly the rows of the identity asked for that had been
      written and not yet closed at that instant, without the instant that closed them. */
  lemma {:induction false} AsOfIff(rows: seq<Row>, q: Filter, t: int, b: Row)
    ensures b in AsOf(rows, q, t) <==>
      exists r :: r in rows && Asked(q, r.identity) && r.txFrom <= t && (r.txTo.Some? ==> t < r.txTo.value)
        && b == r.(txTo := None)
  {
    if rows == [] {
    } else {
      AsOfIff(rows[..|rows| - 1], q, t, b);
      assert rows == rows[..|rows| - 1] + [rows[|rows| - 1]];
    }
  }

  // ------------------------------------------------------------------- the graph

  class Graph {
    var rows: seq<Row>
    var lastTime: Option<int>
    ghost var given: Option<int>

    ghost function Contents(): Table
      reads this
    {
      Table(rows, given)
    }

    /** The process remembers the last time given out, or has just started. */
    ghost predicate Valid()
      reads this
    {
      lastTime.Some? ==> lastTime == given
    }

    constructor ()
      ensures Valid() && Contents() == EMPTY && lastTime == None
    {
      rows, lastTime, given := [], None, None;
    }

    /** The process ends and starts anew over the same table. */
    method Restart()
      modifies this`lastTime
      ensures Valid() && lastTime == None
    {
      lastTime := None;
    }

    method Utcnow(sampled: int) returns (now: int)
      modifies this`lastTime, this`given
      ensures Valid() && now == Tick(old(lastTime), sampled) && lastTime == given == Some(now)
    {
      now := sampled;
      if lastTime.Some? && now <= lastTime.value {
        now := lastTime.value + 1;
      }
      lastTime, given := Some(now), Some(now);
    }

    method CurrentRow(id: string) returns (r: Option<nat>)
      ensures r == CurrentIndex(rows, id)
    {
      var i: nat := |rows|;
      assert rows[..i] == rows;
      while i > 0
        invariant i <= |rows|
        invariant CurrentIndex(rows, id) == CurrentIndex(rows[..i], id)
      {
        assert rows[..i][..i - 1] == rows[..i - 1];
        if rows[i - 1].id == id && rows[i - 1].txTo.None? {
          return Some(i - 1);
        }
        i := i - 1;
      }
      assert rows[..i] == [];
      return None;
    }

    /** Creates or versions a node; a refused write changes no row. */
    method PutNode(p: Patch, sampled: int) returns (ok: bool)
      requires Valid()
      modifies this
      ensures Valid()
      ensures ok == Accepts(old(Contents()), Write(p, sampled, old(lastTime).None?))
      ensures Contents() == Put(old(Contents()), Write(p, sampled, old(lastTime).None?))
    {
      if p.reopen && (p.validFrom.None? || p.validTo.Some?) {
        return false;
      }
      if p.confidence.Some? && (p.confidence.value < 0.0 || 1.0 < p.confidence.value) {
        return false;
      }
      var now := Utcnow(sampled);
      if !OwnSource(p) {
        return false;
      }
      var c := CurrentRow(p.id);
      if p.reopen && (c.None? || rows[c.value].validTo.None? || p.validFrom.value < rows[c.value].validTo.value) {
        return false;
      }
      if c.None? {
        rows := rows + [FirstRow(p, now)];
        return true;
      }
      var prev := rows[c.value];
      if prev.identity != p.identity {
        return false;
      }
      rows := rows[c.value := prev.(txTo := Some(now))];
      rows := rows + [NextRow(prev, p, now)];
      return true;
    }

    /** The current row of a node, or its newest version visible at an instant, provided
        its identity is the one asked for. */
    method Get(id: string, asOf: Option<int>, q: Filter) returns (r: Option<Row>)
      requires Sound(Contents())
      ensures var v := Versions(rows, id);
        var found := if asOf.Some? then GetAsOf(v, asOf.value) else if v == [] then None else Some(v[|v| - 1]);
        r == if found.Some? && Passes(q, found.value.identity) then found else None
    {
      if asOf.None? {
        var c := CurrentRow(id);
        CurrentIsLast(rows, id);
        r := if c.None? then None else Some(rows[c.value]);
      } else {
        r := NewestVisible(id, asOf.value);
      }
      if r.Some? && !Passes(q, r.value.identity) {
        r := None;
      }
    }

    method NewestVisible(id: string, t: int) returns (r: Option<Row>)
      requires Sound(Contents())
      ensures r == GetAsOf(Versions(rows, id), t)
    {
      r := None;
      var i := 0;
      ghost var v := Versions(rows, id);
      assert rows[..0] == [];
      while i < |rows|
        invariant i <= |rows|
        invariant Versions(rows[..i], id) <= v
        invariant r == GetAsOf(Versions(rows[..i], id), t)
        invariant r.Some? ==> r.value in Versions(rows[..i], id)
      {
        assert rows[..i + 1][..i] == rows[..i];
        PrefixVersions(rows, i + 1, id);
        if rows[i].id == id && VisibleAt(rows[i], t) {
          NewerVersion(rows, i, id);
          if r.None? || r.value.version < rows[i].version {
            r := Some(rows[i]);
          }
        }
        i := i + 1;
      }
      assert rows[..i] == rows;
    }

    /** The rows of a project visible at an instant. */
    method AsOfTime(q: Filter, t: int) returns (beliefs: seq<Row>)
      ensures beliefs == AsOf(rows, q, t)
    {
      beliefs := [];
      var i := 0;
      assert rows[..0] == [];
      while i < |rows|
        invariant i <= |rows| && beliefs == AsOf(rows[..i], q, t)
      {
        assert rows[..i + 1][..i] == rows[..i];
        if Passes(q, rows[i].identity) && VisibleAt(rows[i], t) {
          beliefs := beliefs + [Belief(rows[i])];
        }
        i := i + 1;
      }
      assert rows[..i] == rows;
    }
  }

  lemma {:induction false} PrefixVersions(rows: seq<Row>, i: nat, id: string)
    requires i <= |rows|
    ensures Versions(rows[..i], id) <= Versions(rows, id)
  {
    if i < |rows| {
      assert rows[..|rows| - 1][..i] == rows[..i];
      PrefixVersions(rows[..|rows| - 1], i, id);
    } else {
      assert rows[..i] == rows;
    }
  }

  /** Rows come in the order of their versions. */
  lemma NewerVersion(rows: seq<Row>, i: nat, id: string)
    requires Chain(Versions(rows, id)) && i < |rows| && rows[i].id == id
    ensures forall r :: r in Versions(rows[..i], id) ==> r.version < rows[i].version
  {
    var v, front := Versions(rows, id), Versions(rows[..i], id);
    assert rows[..i + 1][..i] == rows[..i];
    PrefixVersions(rows, i + 1, id);
    PrefixVersions(rows, i, id);
    assert v[|front|] == rows[i];
    assert forall k :: 0 <= k < |front| ==> front[k] == v[k];
  }
}
