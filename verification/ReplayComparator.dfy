/**
 The comparison of the live projection with one replayed from the log, where retention
 may have cleared some of the log: everything replayed must be live, and everything
 live that retained events alone account for must have been replayed.

 Nodes and edges are in their rendered form; an edge is its canonical text.
 */
module ReplayComparator {

  datatype Node = Node(id: string, content: string)

  datatype Projection = Projection(nodes: seq<Node>, edges: seq<string>)

  /** Where a live node or edge comes from: the events its versions name, and whether
      every version names one. */
  datatype Origin = Origin(events: set<string>, eventOnly: bool)

  /** The origins of the live nodes by identifier, and of the live edges by text. */
  datatype Origins = Origins(nodes: map<string, Origin>, edges: map<string, seq<Origin>>)

  datatype Disagreement =
    | NodeNotLive(id: string)
    | NodeDiffers(live: Node, replayed: Node)
    | NodeNotReplayed(node: Node)
    | EdgeNotLive(edge: string, count: nat)
    | EdgeNotReplayed(edge: string, count: nat)

  /** Replay is answerable for what only retained events account for. */
  predicate Answerable(o: Origin, retained: set<string>) {
    o.eventOnly && o.events != {} && o.events <= retained
  }

  function CountAnswerable(os: seq<Origin>, retained: set<string>): nat {
    if os == [] then 0
    else CountAnswerable(os[..|os| - 1], retained) + if Answerable(os[|os| - 1], retained) then 1 else 0
  }

  /** Nodes by identifier; of several with one identifier, the last. */
  function ById(nodes: seq<Node>): (m: map<string, Node>)
    ensures forall id :: id in m ==> m[id].id == id && m[id] in nodes
    ensures forall n :: n in nodes ==> n.id in m
  {
    if nodes == [] then map[] else ById(nodes[..|nodes| - 1])[nodes[|nodes| - 1].id := nodes[|nodes| - 1]]
  }

  function Excess(a: seq<string>, b: seq<string>, e: string): nat {
    if multiset(a)[e] > multiset(b)[e] then multiset(a)[e] - multiset(b)[e] else 0
  }

  function Min(a: nat, b: nat): nat {
    if a < b then a else b
  }

  function AnswerableEdges(os: Origins, e: string, retained: set<string>): nat {
    if e in os.edges then CountAnswerable(os.edges[e], retained) else 0
  }

  /** A disagreement about one of the replayed nodes. */
  ghost predicate AboutReplayed(m: map<string, Node>, nodes: seq<Node>, d: Disagreement) {
    match d
    case NodeNotLive(id) => id !in m && exists n :: n in nodes && n.id == id
    case NodeDiffers(l, r) => r in nodes && r.id in m && m[r.id] == l && l != r
    case _ => false
  }

  /** A live node no replayed node stands for, though replay is answerable for it. */
  ghost predicate Unreplayed(
      live: map<string, Node>, replayed: map<string, Node>, os: Origins, retained: set<string>, d: Disagreement)
  {
    && d.NodeNotReplayed? && d.node.id in live && live[d.node.id] == d.node && d.node.id !in replayed
    && d.node.id in os.nodes && Answerable(os.nodes[d.node.id], retained)
  }

  /** What counts as a disagreement. */
  ghost predicate Real(live: Projection, replayed: Projection, os: Origins, retained: set<string>, d: Disagreement) {
    var m := ById(live.nodes);
    match d
    case NodeNotLive(_) => AboutReplayed(m, replayed.nodes, d)
    case NodeDiffers(_, _) => AboutReplayed(m, replayed.nodes, d)
    case NodeNotReplayed(_) => Unreplayed(m, ById(replayed.nodes), os, retained, d)
    case EdgeNotLive(e, count) => count > 0 && count == Excess(replayed.edges, live.edges, e)
    case EdgeNotReplayed(e, count) =>
      count > 0 && count == Min(Excess(live.edges, replayed.edges, e), AnswerableEdges(os, e, retained))
  }

  ghost predicate Agrees(live: Projection, replayed: Projection, os: Origins, retained: set<string>) {
    forall d :: !Real(live, replayed, os, retained, d)
  }

  // ------------------------------------------------------------ the comparison

  lemma AboutOneMore(m: map<string, Node>, nodes: seq<Node>, n: Node, d: Disagreement)
    ensures AboutReplayed(m, nodes + [n], d) <==>
      || AboutReplayed(m, nodes, d)
      || (n.id !in m && d == NodeNotLive(n.id))
      || (n.id in m && n != m[n.id] && d == NodeDiffers(m[n.id], n))
  {
    var more := nodes + [n];
    assert n in more && forall k :: k in nodes ==> k in more;
    assert forall k :: k in more ==> k in nodes || k == n;
    if d.NodeNotLive? && AboutReplayed(m, nodes, d) {
      var k :| k in nodes && k.id == d.id;
      assert k in more;
    }
  }

  /** The direction from replayed to live. */
  method CompareReplayed(m: map<string, Node>, nodes: seq<Node>) returns (ds: seq<Disagreement>)
    ensures forall d :: d in ds <==> AboutReplayed(m, nodes, d)
  {
    ds := [];
    var i := 0;
    while i < |nodes|
      invariant i <= |nodes|
      invariant forall d :: d in ds <==> AboutReplayed(m, nodes[..i], d)
    {
      var n := nodes[i];
      ghost var before := ds;
      if n.id !in m {
        ds := ds + [NodeNotLive(n.id)];
      } else if n != m[n.id] {
        ds := ds + [NodeDiffers(m[n.id], n)];
      }
      assert nodes[..i + 1] == nodes[..i] + [n];
      forall d
        ensures d in ds <==> AboutReplayed(m, nodes[..i + 1], d)
      {
        AboutOneMore(m, nodes[..i], n, d);
      }
      i := i + 1;
    }
    assert nodes[..i] == nodes;
  }

  /** The direction from live to replayed, limited to what replay is answerable for. */
  method CompareLive(live: map<string, Node>, replayed: map<string, Node>, os: Origins, retained: set<string>)
    returns (ds: seq<Disagreement>)
    requires forall id :: id in live ==> live[id].id == id
    ensures forall d :: d in ds <==> Unreplayed(live, replayed, os, retained, d)
  {
    ds := [];
    var left := live.Keys;
    while left != {}
      invariant left <= live.Keys
      invariant forall d :: d in ds <==> Unreplayed(live, replayed, os, retained, d) && d.node.id !in left
      decreases |left|
    {
      var id :| id in left;
      left := left - {id};
      if id !in replayed && id in os.nodes && Answerable(os.nodes[id], retained) {
        ds := ds + [NodeNotReplayed(live[id])];
      }
    }
  }

  predicate AboutEdge(d: Disagreement) {
    d.EdgeNotLive? || d.EdgeNotReplayed?
  }

  method CompareEdges(
      live: Projection, replayed: Projection, os: Origins, retained: set<string>) returns (ds: seq<Disagreement>)
    ensures forall d :: d in ds <==> AboutEdge(d) && Real(live, replayed, os, retained, d)
  {
    ds := [];
    var edges := (set e | e in replayed.edges) + (set e | e in live.edges);
    var left := edges;
    while left != {}
      invariant left <= edges
      invariant forall d :: d in ds <==> AboutEdge(d) && d.edge in edges - left && Real(live, replayed, os, retained, d)
      decreases |left|
    {
      var e :| e in left;
      left := left - {e};
      var extra := Excess(replayed.edges, live.edges, e);
      var missing := Min(Excess(live.edges, replayed.edges, e), AnswerableEdges(os, e, retained));
      if extra > 0 {
        ds := ds + [EdgeNotLive(e, extra)];
      }
      if missing > 0 {
        ds := ds + [EdgeNotReplayed(e, missing)];
      }
    }
  }

  /** Reports every disagreement there is, and no other. */
  method Compare(live: Projection, replayed: Projection, os: Origins, retained: set<string>)
    returns (ds: seq<Disagreement>, agrees: bool)
    ensures forall d :: d in ds <==> Real(live, replayed, os, retained, d)
    ensures agrees <==> Agrees(live, replayed, os, retained)
  {
    var m, r := ById(live.nodes), ById(replayed.nodes);
    var forward := CompareReplayed(m, replayed.nodes);
    var backward := CompareLive(m, r, os, retained);
    var edges := CompareEdges(live, replayed, os, retained);
    ds := forward + backward + edges;
    agrees := ds == [];
    assert ds != [] ==> ds[0] in ds;
  }

  // -------------------------------------------------------------- what it proves

  ghost predicate DistinctIds(nodes: seq<Node>) {
    forall i, j :: 0 <= i < j < |nodes| ==> nodes[i].id != nodes[j].id
  }

  /** Everything live is accounted for by retained events alone. */
  ghost predicate FullyRetained(live: Projection, os: Origins, retained: set<string>) {
    && (forall n :: n in live.nodes ==> n.id in os.nodes && Answerable(os.nodes[n.id], retained))
    && (forall e :: e in live.edges ==> AnswerableEdges(os, e, retained) >= multiset(live.edges)[e])
  }

  lemma {:induction false} CountsOnce(nodes: seq<Node>, n: Node)
    requires DistinctIds(nodes)
    ensures multiset(nodes)[n] == if n in nodes then 1 else 0
  {
    if nodes == [] {
    } else {
      var last := |nodes| - 1;
      var front := nodes[..last];
      assert nodes == front + [nodes[last]];
      CountsOnce(front, n);
      if n in front {
        var i :| 0 <= i < last && nodes[i] == n;
      }
    }
  }

  /** With everything retained and identifiers distinct, the comparison agrees exactly
      when both projections have the same nodes and the same edges, counted. */
  lemma AgreesIffEqual(live: Projection, replayed: Projection, os: Origins, retained: set<string>)
    requires DistinctIds(live.nodes) && DistinctIds(replayed.nodes) && FullyRetained(live, os, retained)
    ensures Agrees(live, replayed, os, retained) <==>
      multiset(live.nodes) == multiset(replayed.nodes) && multiset(live.edges) == multiset(replayed.edges)
  {
    if Agrees(live, replayed, os, retained) {
      AgreedNodes(live, replayed, os, retained);
      AgreedEdges(live, replayed, os, retained);
    }
    if multiset(live.nodes) == multiset(replayed.nodes) && multiset(live.edges) == multiset(replayed.edges) {
      EqualAgrees(live, replayed, os, retained);
    }
  }

  lemma ReplayedIsLive(live: Projection, replayed: Projection, os: Origins, retained: set<string>, r: Node)
    requires Agrees(live, replayed, os, retained) && r in replayed.nodes
    ensures r in live.nodes
  {
    var m := ById(live.nodes);
    assert !Real(live, replayed, os, retained, NodeNotLive(r.id));
    assert !Real(live, replayed, os, retained, NodeDiffers(m[r.id], r));
  }

  lemma LiveIsReplayed(live: Projection, replayed: Projection, os: Origins, retained: set<string>, n: Node)
    requires DistinctIds(live.nodes) && FullyRetained(live, os, retained)
    requires Agrees(live, replayed, os, retained) && n in live.nodes
    ensures n in replayed.nodes
  {
    assert !Real(live, replayed, os, retained, NodeNotReplayed(n));
    ReplayedIsLive(live, replayed, os, retained, ById(replayed.nodes)[n.id]);
  }

  lemma AgreedNodes(live: Projection, replayed: Projection, os: Origins, retained: set<string>)
    requires DistinctIds(live.nodes) && DistinctIds(replayed.nodes) && FullyRetained(live, os, retained)
    requires Agrees(live, replayed, os, retained)
    ensures multiset(live.nodes) == multiset(replayed.nodes)
  {
    forall n
      ensures multiset(live.nodes)[n] == multiset(replayed.nodes)[n]
    {
      if n in replayed.nodes {
        ReplayedIsLive(live, replayed, os, retained, n);
      } else if n in live.nodes {
        LiveIsReplayed(live, replayed, os, retained, n);
      }
      CountsOnce(live.nodes, n);
      CountsOnce(replayed.nodes, n);
    }
  }

  lemma AgreedEdges(live: Projection, replayed: Projection, os: Origins, retained: set<string>)
    requires FullyRetained(live, os, retained) && Agrees(live, replayed, os, retained)
    ensures multiset(live.edges) == multiset(replayed.edges)
  {
    forall e
      ensures multiset(live.edges)[e] == multiset(replayed.edges)[e]
    {
      assert !Real(live, replayed, os, retained, EdgeNotLive(e, Excess(replayed.edges, live.edges, e)));
      var missing := Min(Excess(live.edges, replayed.edges, e), AnswerableEdges(os, e, retained));
      assert !Real(live, replayed, os, retained, EdgeNotReplayed(e, missing));
      if multiset(live.edges)[e] > 0 {
        assert e in multiset(live.edges);
      }
    }
  }

  lemma EqualAgrees(live: Projection, replayed: Projection, os: Origins, retained: set<string>)
    requires DistinctIds(live.nodes) && DistinctIds(replayed.nodes)
    requires multiset(live.nodes) == multiset(replayed.nodes) && multiset(live.edges) == multiset(replayed.edges)
    ensures Agrees(live, replayed, os, retained)
  {
    forall n: Node
      ensures n in live.nodes <==> n in replayed.nodes
    {
      assert n in multiset(live.nodes) <==> n in multiset(replayed.nodes);
    }
    forall d
      ensures !Real(live, replayed, os, retained, d)
    {
      match d
      case NodeDiffers(l, r) => if r in replayed.nodes {  }
      case NodeNotLive(id) =>
      case NodeNotReplayed(n) =>
      case EdgeNotLive(_, _) =>
      case EdgeNotReplayed(_, _) =>
    }
  }

  // ------------------------------------------------ when identifiers are shared

  function CountId(nodes: seq<Node>, id: string): nat {
    if nodes == [] then 0
    else CountId(nodes[..|nodes| - 1], id) + if nodes[|nodes| - 1].id == id then 1 else 0
  }

  /** Nodes that share an identifier are equal. */
  ghost predicate Consistent(nodes: seq<Node>) {
    forall a, b :: a in nodes && b in nodes && a.id == b.id ==> a == b
  }

  /** Each identifier occurs as often in both. */
  ghost predicate SameIdCounts(a: seq<Node>, b: seq<Node>) {
    forall id :: CountId(a, id) == CountId(b, id)
  }

  lemma {:induction false} CountsId(nodes: seq<Node>, n: Node)
    requires forall m :: m in nodes && m.id == n.id ==> m == n
    ensures multiset(nodes)[n] == CountId(nodes, n.id)
  {
    if nodes == [] {
    } else {
      var front, last := nodes[..|nodes| - 1], nodes[|nodes| - 1];
      assert nodes == front + [last] && last in nodes;
      assert forall m :: m in front ==> m in nodes;
      CountsId(front, n);
    }
  }

  lemma {:induction false} CountsNone(nodes: seq<Node>, id: string)
    requires forall m :: m in nodes ==> m.id != id
    ensures CountId(nodes, id) == 0
  {
    if nodes == [] {
    } else {
      CountsNone(nodes[..|nodes| - 1], id);
      assert nodes[|nodes| - 1] in nodes;
    }
  }

  /** A node's count on either side is the count of its identifier. */
  lemma AgreedCounts(live: Projection, replayed: Projection, os: Origins, retained: set<string>, n: Node)
    requires Agrees(live, replayed, os, retained) && Consistent(live.nodes) && n in live.nodes
    ensures multiset(live.nodes)[n] == CountId(live.nodes, n.id)
    ensures multiset(replayed.nodes)[n] == CountId(replayed.nodes, n.id)
  {
    forall r | r in replayed.nodes && r.id == n.id
      ensures r == n
    {
      ReplayedIsLive(live, replayed, os, retained, r);
    }
    CountsId(live.nodes, n);
    CountsId(replayed.nodes, n);
  }

  lemma AbsentCounts(live: Projection, replayed: Projection, os: Origins, retained: set<string>, id: string)
    requires Agrees(live, replayed, os, retained) && forall n :: n in live.nodes ==> n.id != id
    ensures CountId(live.nodes, id) == CountId(replayed.nodes, id) == 0
  {
    forall r | r in replayed.nodes
      ensures r.id != id
    {
      ReplayedIsLive(live, replayed, os, retained, r);
    }
    CountsNone(live.nodes, id);
    CountsNone(replayed.nodes, id);
  }

  lemma EqualIsConsistent(live: Projection, replayed: Projection, os: Origins, retained: set<string>)
    requires Agrees(live, replayed, os, retained) && multiset(live.nodes) == multiset(replayed.nodes)
    ensures Consistent(live.nodes)
  {
    forall n | n in live.nodes
      ensures ById(live.nodes)[n.id] == n
    {
      assert n in multiset(live.nodes) && n in multiset(replayed.nodes);
      assert !Real(live, replayed, os, retained, NodeDiffers(ById(live.nodes)[n.id], n));
    }
  }

  /** Whenever the comparison agrees, the nodes are equal if and only if live nodes that
      share an identifier are equal and each identifier occurs as often on both sides. */
  lemma AgreementIsEqualityIff(live: Projection, replayed: Projection, os: Origins, retained: set<string>)
    requires Agrees(live, replayed, os, retained)
    ensures multiset(live.nodes) == multiset(replayed.nodes) <==>
      Consistent(live.nodes) && SameIdCounts(live.nodes, replayed.nodes)
  {
    if Consistent(live.nodes) && SameIdCounts(live.nodes, replayed.nodes) {
      forall n
        ensures multiset(live.nodes)[n] == multiset(replayed.nodes)[n]
      {
        if n in live.nodes {
          AgreedCounts(live, replayed, os, retained, n);
        } else if n in replayed.nodes {
          ReplayedIsLive(live, replayed, os, retained, n);
        }
      }
      assert multiset(live.nodes) == multiset(replayed.nodes);
    }
    if multiset(live.nodes) == multiset(replayed.nodes) {
      EqualIsConsistent(live, replayed, os, retained);
      assert Consistent(live.nodes);
      forall id
        ensures CountId(live.nodes, id) == CountId(replayed.nodes, id)
      {
        if exists n :: n in live.nodes && n.id == id {
          var n :| n in live.nodes && n.id == id;
          AgreedCounts(live, replayed, os, retained, n);
        } else {
          AbsentCounts(live, replayed, os, retained, id);
        }
      }
    }
  }

  /** Distinct identifiers are needed: of two live nodes under one identifier only the
      last is compared. */
  lemma SharedIdHides(retained: set<string>)
    requires "e" in retained
    ensures var a, b := Node("x", "first"), Node("x", "second");
      var live, replayed := Projection([a, b], []), Projection([b], []);
      var os := Origins(map["x" := Origin({"e"}, true)], map[]);
      && FullyRetained(live, os, retained) && Agrees(live, replayed, os, retained)
      && multiset(live.nodes) != multiset(replayed.nodes)
  {
    var a, b := Node("x", "first"), Node("x", "second");
    var live, replayed := Projection([a, b], []), Projection([b], []);
    var os := Origins(map["x" := Origin({"e"}, true)], map[]);
    assert [a, b][..1] == [a] && [b][..0] == [] && [a][..0] == [];
    assert ById([b]) == map["x" := b];
    assert ById([a, b]) == map["x" := b];
    assert multiset(live.nodes)[a] == 1 && multiset(replayed.nodes)[a] == 0;
    forall d
      ensures !Real(live, replayed, os, retained, d)
    {
    }
  }

  // ------------------------------------------------------- what is and is not reported

  /** Node `k` is the last with its identifier. */
  ghost predicate LastWithId(nodes: seq<Node>, k: int) {
    0 <= k < |nodes| && forall j :: k < j < |nodes| ==> nodes[j].id != nodes[k].id
  }

  lemma {:induction false} ByIdIsLast(nodes: seq<Node>, k: int)
    requires LastWithId(nodes, k)
    ensures nodes[k].id in ById(nodes) && ById(nodes)[nodes[k].id] == nodes[k]
  {
    if k < |nodes| - 1 {
      ByIdIsLast(nodes[..|nodes| - 1], k);
    }
  }

  lemma {:induction false} LastExists(nodes: seq<Node>, n: Node) returns (k: int)
    requires n in nodes
    ensures LastWithId(nodes, k) && nodes[k].id == n.id
  {
    var last := |nodes| - 1;
    if nodes[last].id == n.id {
      k := last;
    } else {
      k := LastExists(nodes[..last], n);
    }
  }

  /** A live node is reported as not replayed exactly when it is the last live one with its
      identifier, no replayed node has that identifier, every version of it names an event,
      there is one, and all of them are retained. */
  lemma NotReplayedIff(live: Projection, replayed: Projection, os: Origins, retained: set<string>, n: Node)
    ensures Real(live, replayed, os, retained, NodeNotReplayed(n)) <==>
      && (exists k :: LastWithId(live.nodes, k) && live.nodes[k] == n)
      && (forall r :: r in replayed.nodes ==> r.id != n.id)
      && n.id in os.nodes && os.nodes[n.id].eventOnly
      && (exists e :: e in os.nodes[n.id].events)
      && forall e :: e in os.nodes[n.id].events ==> e in retained
  {
    if n in live.nodes {
      var k := LastExists(live.nodes, n);
      ByIdIsLast(live.nodes, k);
      forall j | LastWithId(live.nodes, j) && live.nodes[j] == n
        ensures ById(live.nodes)[n.id] == n
      {
        ByIdIsLast(live.nodes, j);
      }
    }
  }

  /** A replayed node is reported as not live exactly when no live node has its identifier,
      and as different exactly when the last live node with its identifier is another. */
  lemma NotLiveIff(live: Projection, replayed: Projection, os: Origins, retained: set<string>, r: Node, k: int)
    requires r in replayed.nodes
    ensures Real(live, replayed, os, retained, NodeNotLive(r.id)) <==> forall n :: n in live.nodes ==> n.id != r.id
    ensures LastWithId(live.nodes, k) ==>
      (Real(live, replayed, os, retained, NodeDiffers(live.nodes[k], r)) <==>
        live.nodes[k].id == r.id && live.nodes[k] != r)
  {
    if LastWithId(live.nodes, k) {
      ByIdIsLast(live.nodes, k);
    }
  }

  /** The origins that retained events alone account for. */
  ghost function Accounted(os: seq<Origin>, retained: set<string>): set<int> {
    set i | 0 <= i < |os| && os[i].eventOnly && os[i].events != {} && os[i].events <= retained
  }

  lemma {:induction false} CountsAccounted(os: seq<Origin>, retained: set<string>)
    ensures CountAnswerable(os, retained) == |Accounted(os, retained)|
  {
    if os == [] {
      assert Accounted(os, retained) == {};
    } else {
      var n := |os| - 1;
      CountsAccounted(os[..n], retained);
      assert Accounted(os, retained) ==
        Accounted(os[..n], retained) + if n in Accounted(os, retained) then {n} else {};
    }
  }

  /** Edges are counted. An edge is reported as not live by how many more times it was
      replayed, and as not replayed by how many more times it is live, but no more often
      than retained events alone account for it. */
  lemma EdgesReportedIff(
      live: Projection, replayed: Projection, os: Origins, retained: set<string>, e: string, count: nat)
    ensures var a, b := multiset(live.edges)[e], multiset(replayed.edges)[e];
      var known := if e in os.edges then |Accounted(os.edges[e], retained)| else 0;
      && (Real(live, replayed, os, retained, EdgeNotLive(e, count)) <==> count > 0 && b == a + count)
      && (Real(live, replayed, os, retained, EdgeNotReplayed(e, count)) <==>
           count > 0 && b + count <= a && count <= known && (b + count == a || count == known))
  {
    if e in os.edges {
      CountsAccounted(os.edges[e], retained);
    }
  }
}
