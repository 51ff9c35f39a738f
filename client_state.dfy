/**
 * The Cytoscape client's bookkeeping of what is shown and what is expanded:
 * the globals `displayedNodeIDs`, `neighborSets` and `expandedNodes`, and the
 * Cytoscape graph reduced to the set of ids of its elements. A double tap on a
 * displayed node expands it (records its new neighbours) or collapses it;
 * collapsing a node that is not the last one expanded first collapses, in
 * reverse order, every recorded neighbour that is itself expanded.
 *
 * `Collapsed(r, x)` is what a collapse of `x` tears down: `x` and, through
 * the recorded neighbours, every node expanded from it. The collapse methods
 * are proved to remove exactly that set.
 */
module ClientState {
  import opened Wrappers
  import opened JsValue
  import opened GraphMirror
  import opened Expansion

  /** An element as the client holds it: its `group` and the fields of its `data` that the bookkeeping reads. */
  datatype CyElement = CyElement(group: Value, id: string, kind: Value, source: Value, target: Value, parent: Value, details: Value)

  /** The element the client parses from one element of the mirror's listing; the server sends no `group`. */
  function Received(e: ElementData): (c: CyElement)
    requires e.id.Str?
    ensures c.group == Undefined && Str(c.id) == e.id
  {
    CyElement(Undefined, e.id.s, e.kind, e.source, e.target, e.parent, e.details)
  }

  /** Every element of the mirror's listing has a string id, so the client can receive all of it. */
  lemma ListingReceivable(g: Graph, nodeOrder: seq<string>, edgeOrder: seq<EdgeKey>, hostData: bool)
    requires Labelled(g) && Enumerates(nodeOrder, g.nodes.Keys) && Enumerates(edgeOrder, g.edges.Keys)
    ensures forall e :: e in Listing(g, nodeOrder, edgeOrder, hostData) ==> e.id.Str?
  {
    var r := Listing(g, nodeOrder, edgeOrder, hostData);
    ListingNodes(g, nodeOrder, edgeOrder, hostData);
    ListingEdges(g, nodeOrder, edgeOrder, hostData);
    EnumerationSize(nodeOrder, g.nodes.Keys);
    forall e | e in r
      ensures e.id.Str?
    {
      var i :| 0 <= i < |r| && r[i] == e;
      if i >= |nodeOrder| {
        assert r[i] == EdgeElement(edgeOrder[i - |nodeOrder|], g.edges[edgeOrder[i - |nodeOrder|]]);
      }
    }
  }

  function IdsOf(es: seq<CyElement>): set<string> {
    set i | 0 <= i < |es| :: es[i].id
  }

  // ------------------------------------------------------------ insertion-ordered ids

  function IndexOf(s: seq<string>, x: string): (i: nat)
    requires x in s
    ensures i < |s| && s[i] == x && x !in s[..i]
  {
    if s[0] == x then 0
    else
      var k := IndexOf(s[1..], x);
      assert s[..k + 1] == [s[0]] + s[1..][..k];
      1 + k
  }

  lemma IndexOfDistinct(s: seq<string>, i: nat)
    requires Distinct(s) && i < |s|
    ensures IndexOf(s, s[i]) == i
  {
    var k := IndexOf(s, s[i]);
  }

  /** `s` without the members of `c`, in the same order (what successive `Set.delete` calls leave). */
  function Without(s: seq<string>, c: set<string>): (r: seq<string>)
    ensures |r| <= |s|
  {
    if s == [] then []
    else (if s[0] in c then [] else [s[0]]) + Without(s[1..], c)
  }

  /** `Without(s, c)` holds exactly the members of `s` outside `c`. */
  lemma {:induction false} WithoutMembers(s: seq<string>, c: set<string>)
    ensures forall x :: x in Without(s, c) <==> x in s && x !in c
  {
    if s != [] {
      WithoutMembers(s[1..], c);
      assert forall x :: x in s <==> x == s[0] || x in s[1..];
    }
  }

  lemma {:induction false} WithoutDistinct(s: seq<string>, c: set<string>)
    requires Distinct(s)
    ensures Distinct(Without(s, c))
  {
    if s != [] {
      WithoutDistinct(s[1..], c);
      WithoutMembers(s[1..], c);
      var rest := Without(s[1..], c);
      assert forall j :: 0 <= j < |s[1..]| ==> s[1..][j] == s[j + 1];
      assert s[0] !in s[1..];
      if s[0] !in c {
        var r := [s[0]] + rest;
        forall i, j | 0 <= i < j < |r|
          ensures r[i] != r[j]
        {
          if i == 0 {
            assert r[j] == rest[j - 1] && r[j] in rest;
          } else {
            assert r[i] == rest[i - 1] && r[j] == rest[j - 1];
          }
        }
      }
    }
  }

  /** Removing members keeps the relative order of the others. */
  lemma {:induction false} WithoutBefore(s: seq<string>, c: set<string>, x: string, y: string)
    requires x in s && y in s && x !in c && y !in c
    requires IndexOf(s, x) < IndexOf(s, y)
    ensures x in Without(s, c) && y in Without(s, c)
    ensures IndexOf(Without(s, c), x) < IndexOf(Without(s, c), y)
  {
    WithoutMembers(s, c);
    var rest := Without(s[1..], c);
    if s[0] == x {
      assert Without(s, c) == [x] + rest;
      assert Without(s, c)[0] == x && Without(s, c)[0] != y;
    } else {
      assert s[0] != y;
      WithoutBefore(s[1..], c, x, y);
      if s[0] !in c {
        var r := [s[0]] + rest;
        assert Without(s, c) == r && r[0] != x && r[0] != y && r[1..] == rest;
      } else {
        assert Without(s, c) == rest;
      }
    }
  }

  /** Removing only members that come after `x` leaves `x` where it was. */
  lemma {:induction false} WithoutKeepsIndex(s: seq<string>, c: set<string>, x: string)
    requires x in s && x !in c
    requires forall z :: z in c && z in s ==> IndexOf(s, x) < IndexOf(s, z)
    ensures x in Without(s, c)
    ensures IndexOf(Without(s, c), x) == IndexOf(s, x)
  {
    WithoutMembers(s, c);
    var rest := Without(s[1..], c);
    if s[0] == x {
      assert Without(s, c) == [x] + rest;
    } else {
      assert IndexOf(s, s[0]) == 0;
      assert s[0] !in c;
      forall z | z in c && z in s[1..]
        ensures IndexOf(s[1..], x) < IndexOf(s[1..], z)
      {
        assert z != s[0];
      }
      WithoutKeepsIndex(s[1..], c, x);
      var r := [s[0]] + rest;
      assert Without(s, c) == r && r[0] != x && r[1..] == rest;
    }
  }

  lemma {:induction false} WithoutWithout(s: seq<string>, a: set<string>, b: set<string>)
    ensures Without(Without(s, a), b) == Without(s, a + b)
  {
    if s != [] {
      WithoutWithout(s[1..], a, b);
      var rest := Without(s[1..], a);
      if s[0] in a {
        assert Without(s, a) == rest;
      } else {
        var r := [s[0]] + rest;
        assert Without(s, a) == r && r[0] == s[0] && r[1..] == rest;
      }
    }
  }

  lemma {:induction false} WithoutNothing(s: seq<string>)
    ensures Without(s, {}) == s
  {
    if s != [] {
      WithoutNothing(s[1..]);
    }
  }

  lemma {:induction false} WithoutAppended(s: seq<string>, x: string)
    requires x !in s
    ensures Without(s + [x], {x}) == s
  {
    if s == [] {
      assert Without([x], {x}) == [] + Without([x][1..], {x});
    } else {
      WithoutAppended(s[1..], x);
      assert (s + [x])[1..] == s[1..] + [x];
    }
  }

  lemma {:induction false} IndexOfAppend(s: seq<string>, x: string, z: string)
    requires z in s
    ensures IndexOf(s + [x], z) == IndexOf(s, z)
  {
    if s[0] != z {
      IndexOfAppend(s[1..], x, z);
      assert (s + [x])[1..] == s[1..] + [x];
    }
  }

  lemma IndexOfAppended(s: seq<string>, x: string)
    requires x !in s
    ensures IndexOf(s + [x], x) == |s|
  {
    var k := IndexOf(s + [x], x);
    assert (s + [x])[..|s|] == s;
  }

  // ------------------------------------------------------------ the record of expansions

  /** `neighborSets` (each set in insertion order) and `expandedNodes` (in insertion order). */
  datatype Record = Record(neighborSets: map<string, seq<CyElement>>, expanded: seq<string>)

  /**
   * Each node is expanded at most once, exactly the expanded nodes have a
   * neighbour set, and a recorded neighbour that is itself expanded was
   * expanded later than the node that recorded it.
   */
  ghost predicate RecordValid(r: Record) {
    && Distinct(r.expanded)
    && (forall x :: x in r.neighborSets <==> x in r.expanded)
    && (forall y, j :: y in r.neighborSets && 0 <= j < |r.neighborSets[y]| && r.neighborSets[y][j].id in r.expanded ==>
          IndexOf(r.expanded, y) < IndexOf(r.expanded, r.neighborSets[y][j].id))
  }

  /** The whole client state: `displayedNodeIDs`, the ids in the Cytoscape graph, and the record. */
  datatype Tracking = Tracking(displayed: set<string>, cy: set<string>, rec: Record)

  ghost predicate Valid(t: Tracking) {
    RecordValid(t.rec) && forall x :: x in t.rec.expanded ==> x in t.displayed
  }

  /** What a collapse of `x` tears down: `x` and every node expanded from it through recorded neighbours. */
  ghost function Collapsed(r: Record, x: string): set<string>
    requires RecordValid(r) && x in r.expanded
    decreases |r.expanded| - IndexOf(r.expanded, x), 1, 0
  {
    {x} + CollapsedFrom(r, x, 0)
  }

  /** The part of `Collapsed(r, x)` reached through the neighbours of `x` from index `i` on. */
  ghost function CollapsedFrom(r: Record, x: string, i: nat): set<string>
    requires RecordValid(r) && x in r.expanded && i <= |r.neighborSets[x]|
    decreases |r.expanded| - IndexOf(r.expanded, x), 0, |r.neighborSets[x]| - i
  {
    if i == |r.neighborSets[x]| then {}
    else
      var n := r.neighborSets[x][i].id;
      (if n in r.expanded then Collapsed(r, n) else {}) + CollapsedFrom(r, x, i + 1)
  }

  /** The ids of the recorded neighbours of the nodes of `c`. */
  function NeighborIds(r: Record, c: set<string>): set<string> {
    set y, j | y in c && y in r.neighborSets && 0 <= j < |r.neighborSets[y]| :: r.neighborSets[y][j].id
  }

  function CompoundIds(c: set<string>): set<string> {
    (set y | y in c :: CompoundId(y)) + (set y | y in c :: VulnerabilityCompoundId(y))
  }

  function Prune(r: Record, c: set<string>): Record {
    Record(map y | y in r.neighborSets && y !in c :: r.neighborSets[y], Without(r.expanded, c))
  }

  /**
   * The state once every node of `c` is collapsed: their neighbours' ids
   * leave `displayedNodeIDs` and the graph, their compounds leave the graph,
   * and they leave `neighborSets` and `expandedNodes`.
   */
  function TearDown(t: Tracking, c: set<string>): Tracking {
    Tracking(t.displayed - NeighborIds(t.rec, c), t.cy - NeighborIds(t.rec, c) - CompoundIds(c), Prune(t.rec, c))
  }

  /** `c` holds every expanded recorded neighbour of its members. */
  ghost predicate DownClosed(r: Record, c: set<string>) {
    (forall y :: y in c ==> y in r.expanded) &&
    forall y, j :: y in c && y in r.neighborSets && 0 <= j < |r.neighborSets[y]| && r.neighborSets[y][j].id in r.expanded ==>
      r.neighborSets[y][j].id in c
  }

  // ------------------------------------------------------------ what a collapse reaches

  /** A collapse of `x` reaches only nodes expanded no earlier than `x`. */
  lemma {:induction false} CollapsedAfter(r: Record, x: string)
    requires RecordValid(r) && x in r.expanded
    decreases |r.expanded| - IndexOf(r.expanded, x), 1, 0
    ensures forall z :: z in Collapsed(r, x) ==> z in r.expanded && (z == x || IndexOf(r.expanded, x) < IndexOf(r.expanded, z))
  {
    CollapsedFromAfter(r, x, 0);
  }

  lemma {:induction false} CollapsedFromAfter(r: Record, x: string, i: nat)
    requires RecordValid(r) && x in r.expanded && i <= |r.neighborSets[x]|
    decreases |r.expanded| - IndexOf(r.expanded, x), 0, |r.neighborSets[x]| - i
    ensures forall z :: z in CollapsedFrom(r, x, i) ==> z in r.expanded && IndexOf(r.expanded, x) < IndexOf(r.expanded, z)
  {
    if i < |r.neighborSets[x]| {
      var n := r.neighborSets[x][i].id;
      if n in r.expanded {
        CollapsedAfter(r, n);
      }
      CollapsedFromAfter(r, x, i + 1);
    }
  }

  lemma {:induction false} CollapsedFromContains(r: Record, x: string, i: nat, j: nat)
    requires RecordValid(r) && x in r.expanded && i <= j < |r.neighborSets[x]|
    requires r.neighborSets[x][j].id in r.expanded
    decreases j - i
    ensures r.neighborSets[x][j].id in CollapsedFrom(r, x, i)
  {
    if i < j {
      CollapsedFromContains(r, x, i + 1, j);
    }
  }

  lemma UnionClosed(r: Record, a: set<string>, b: set<string>)
    requires DownClosed(r, a) && DownClosed(r, b)
    ensures DownClosed(r, a + b)
  {
  }

  /** What a collapse reaches is closed under expanded recorded neighbours. */
  lemma {:induction false} CollapsedClosed(r: Record, x: string)
    requires RecordValid(r) && x in r.expanded
    decreases |r.expanded| - IndexOf(r.expanded, x), 1, 0
    ensures DownClosed(r, Collapsed(r, x))
  {
    CollapsedFromClosed(r, x, 0);
    forall j | 0 <= j < |r.neighborSets[x]| && r.neighborSets[x][j].id in r.expanded
      ensures r.neighborSets[x][j].id in CollapsedFrom(r, x, 0)
    {
      CollapsedFromContains(r, x, 0, j);
    }
  }

  lemma {:induction false} CollapsedFromClosed(r: Record, x: string, i: nat)
    requires RecordValid(r) && x in r.expanded && i <= |r.neighborSets[x]|
    decreases |r.expanded| - IndexOf(r.expanded, x), 0, |r.neighborSets[x]| - i
    ensures DownClosed(r, CollapsedFrom(r, x, i))
  {
    if i < |r.neighborSets[x]| {
      var n := r.neighborSets[x][i].id;
      CollapsedFromClosed(r, x, i + 1);
      if n in r.expanded {
        CollapsedClosed(r, n);
        UnionClosed(r, Collapsed(r, n), CollapsedFrom(r, x, i + 1));
      }
    }
  }

  /** A closed set that holds a node holds everything a collapse of that node reaches. */
  lemma {:induction false} ClosedContains(r: Record, c: set<string>, y: string)
    requires RecordValid(r) && DownClosed(r, c) && y in c
    decreases |r.expanded| - IndexOf(r.expanded, y), 1, 0
    ensures Collapsed(r, y) <= c
  {
    ClosedContainsFrom(r, c, y, 0);
  }

  lemma {:induction false} ClosedContainsFrom(r: Record, c: set<string>, y: string, i: nat)
    requires RecordValid(r) && DownClosed(r, c) && y in c && i <= |r.neighborSets[y]|
    decreases |r.expanded| - IndexOf(r.expanded, y), 0, |r.neighborSets[y]| - i
    ensures CollapsedFrom(r, y, i) <= c
  {
    if i < |r.neighborSets[y]| {
      var n := r.neighborSets[y][i].id;
      if n in r.expanded {
        ClosedContains(r, c, n);
      }
      ClosedContainsFrom(r, c, y, i + 1);
    }
  }

  /** The last node expanded has no expanded neighbour, so its collapse reaches only itself. */
  lemma LastCollapsesAlone(r: Record)
    requires RecordValid(r) && r.expanded != []
    ensures CollapsedFrom(r, r.expanded[|r.expanded| - 1], 0) == {}
    ensures Collapsed(r, r.expanded[|r.expanded| - 1]) == {r.expanded[|r.expanded| - 1]}
  {
    var x := r.expanded[|r.expanded| - 1];
    IndexOfDistinct(r.expanded, |r.expanded| - 1);
    CollapsedFromAfter(r, x, 0);
  }

  // ------------------------------------------------------------ tearing down

  lemma PruneValid(r: Record, c: set<string>)
    requires RecordValid(r)
    ensures RecordValid(Prune(r, c))
  {
    var p := Prune(r, c);
    WithoutDistinct(r.expanded, c);
    WithoutMembers(r.expanded, c);
    forall y, j | y in p.neighborSets && 0 <= j < |p.neighborSets[y]| && p.neighborSets[y][j].id in p.expanded
      ensures IndexOf(p.expanded, y) < IndexOf(p.expanded, p.neighborSets[y][j].id)
    {
      WithoutBefore(r.expanded, c, y, r.neighborSets[y][j].id);
    }
  }

  /** Tearing down a closed set keeps the state valid: no expanded node that stays loses its display. */
  lemma TearDownValid(t: Tracking, c: set<string>)
    requires Valid(t) && DownClosed(t.rec, c)
    ensures Valid(TearDown(t, c))
  {
    PruneValid(t.rec, c);
    WithoutMembers(t.rec.expanded, c);
  }

  /** In what is left after tearing down a closed set, a collapse reaches what it reached before, minus that set. */
  lemma {:induction false} PruneCollapsed(r: Record, c: set<string>, x: string)
    requires RecordValid(r) && DownClosed(r, c) && x in r.expanded && x !in c
    decreases |r.expanded| - IndexOf(r.expanded, x), 1, 0
    ensures RecordValid(Prune(r, c)) && x in Prune(r, c).expanded
    ensures Collapsed(Prune(r, c), x) == Collapsed(r, x) - c
  {
    PruneValid(r, c);
    PruneCollapsedFrom(r, c, x, 0);
  }

  lemma {:induction false} PruneCollapsedFrom(r: Record, c: set<string>, x: string, i: nat)
    requires RecordValid(r) && DownClosed(r, c) && x in r.expanded && x !in c && i <= |r.neighborSets[x]|
    decreases |r.expanded| - IndexOf(r.expanded, x), 0, |r.neighborSets[x]| - i
    ensures RecordValid(Prune(r, c)) && x in Prune(r, c).expanded
    ensures Prune(r, c).neighborSets[x] == r.neighborSets[x]
    ensures CollapsedFrom(Prune(r, c), x, i) == CollapsedFrom(r, x, i) - c
  {
    PruneValid(r, c);
    WithoutMembers(r.expanded, c);
    var p := Prune(r, c);
    assert p.neighborSets[x] == r.neighborSets[x];
    if i < |r.neighborSets[x]| {
      var n := r.neighborSets[x][i].id;
      PruneCollapsedFrom(r, c, x, i + 1);
      var headR := if n in r.expanded then Collapsed(r, n) else {};
      var headP := if n in p.expanded then Collapsed(p, n) else {};
      assert CollapsedFrom(r, x, i) == headR + CollapsedFrom(r, x, i + 1);
      assert CollapsedFrom(p, x, i) == headP + CollapsedFrom(p, x, i + 1);
      if n in r.expanded {
        PruneHead(r, c, n);
      }
      assert headP == headR - c;
      SetMinusUnion(headR, CollapsedFrom(r, x, i + 1), c);
    }
  }

  /** Pruning `c` removes `c` from what collapsing an expanded node reaches. */
  lemma {:induction false} PruneHead(r: Record, c: set<string>, n: string)
    requires RecordValid(r) && DownClosed(r, c) && n in r.expanded
    decreases |r.expanded| - IndexOf(r.expanded, n), 2, 0
    ensures RecordValid(Prune(r, c))
    ensures n in Prune(r, c).expanded ==> Collapsed(Prune(r, c), n) == Collapsed(r, n) - c
    ensures n !in Prune(r, c).expanded ==> Collapsed(r, n) - c == {}
  {
    PruneValid(r, c);
    WithoutMembers(r.expanded, c);
    if n !in c {
      PruneCollapsed(r, c, n);
    } else {
      ClosedContains(r, c, n);
    }
  }

  lemma SetMinusUnion(a: set<string>, b: set<string>, c: set<string>)
    ensures (a + b) - c == (a - c) + (b - c)
  {
  }

  lemma NeighborIdsPruned(r: Record, c: set<string>, d: set<string>)
    ensures NeighborIds(Prune(r, c), d) == NeighborIds(r, d - c)
  {
    var p := Prune(r, c);
    forall z | z in NeighborIds(r, d - c)
      ensures z in NeighborIds(p, d)
    {
      var y, j :| y in d - c && y in r.neighborSets && 0 <= j < |r.neighborSets[y]| && r.neighborSets[y][j].id == z;
      assert p.neighborSets[y] == r.neighborSets[y];
    }
    forall z | z in NeighborIds(p, d)
      ensures z in NeighborIds(r, d - c)
    {
      var y, j :| y in d && y in p.neighborSets && 0 <= j < |p.neighborSets[y]| && p.neighborSets[y][j].id == z;
      assert y in d - c && p.neighborSets[y] == r.neighborSets[y];
    }
  }

  lemma NeighborIdsUnion(r: Record, c: set<string>, d: set<string>)
    ensures NeighborIds(r, c) + NeighborIds(r, d - c) == NeighborIds(r, c + d)
  {
    forall z | z in NeighborIds(r, c + d)
      ensures z in NeighborIds(r, c) + NeighborIds(r, d - c)
    {
      var y, j :| y in c + d && y in r.neighborSets && 0 <= j < |r.neighborSets[y]| && r.neighborSets[y][j].id == z;
      if y !in c {
        assert y in d - c;
      }
    }
  }

  lemma NeighborIdsSingle(r: Record, x: string)
    requires x in r.neighborSets
    ensures NeighborIds(r, {x}) == IdsOf(r.neighborSets[x])
  {
  }

  lemma CompoundIdsUnion(c: set<string>, d: set<string>)
    ensures CompoundIds(c) + CompoundIds(d) == CompoundIds(c + d)
  {
  }

  lemma PruneCompose(r: Record, c: set<string>, d: set<string>)
    ensures Prune(Prune(r, c), d) == Prune(r, c + d)
  {
    WithoutWithout(r.expanded, c, d);
    assert Prune(Prune(r, c), d).neighborSets == Prune(r, c + d).neighborSets;
  }

  /** Tearing down `c` and then `d` is tearing down both at once. */
  lemma TearDownCompose(t: Tracking, c: set<string>, d: set<string>)
    ensures TearDown(TearDown(t, c), d) == TearDown(t, c + d)
  {
    NeighborIdsPruned(t.rec, c, d);
    NeighborIdsUnion(t.rec, c, d);
    CompoundIdsUnion(c, d);
    PruneCompose(t.rec, c, d);
  }

  lemma TearDownNothing(t: Tracking)
    ensures TearDown(t, {}) == t
  {
    WithoutNothing(t.rec.expanded);
    assert Prune(t.rec, {}).neighborSets == t.rec.neighborSets;
    assert NeighborIds(t.rec, {}) == {};
    assert CompoundIds({}) == {};
  }

  /** Removing ids from the graph first does not change what a teardown does. */
  lemma TearDownCy(t: Tracking, d: set<string>, x: set<string>)
    ensures TearDown(t.(cy := t.cy - x), d) == TearDown(t, d).(cy := TearDown(t, d).cy - x)
  {
  }

  // ------------------------------------------------------------ the recursive collapse, step by step

  /** The ids of the neighbours from index `i` on. */
  function IdsFrom(ns: seq<CyElement>, i: nat): set<string> {
    set j | i <= j < |ns| :: ns[j].id
  }

  lemma IdsFromStep(ns: seq<CyElement>, i: nat)
    requires i < |ns|
    ensures IdsFrom(ns, i) == IdsFrom(ns, i + 1) + {ns[i].id}
  {
  }

  lemma IdsFromEnds(ns: seq<CyElement>)
    ensures IdsFrom(ns, 0) == IdsOf(ns) && IdsFrom(ns, |ns|) == {}
  {
  }

  /** One neighbour handled by the reverse loop: collapsed first if it is expanded, then removed from the graph. */
  ghost function AfterNeighbour(t: Tracking, n: string): Tracking
    requires RecordValid(t.rec)
  {
    var t1 := if n in t.rec.expanded then TearDown(t, Collapsed(t.rec, n)) else t;
    t1.(cy := t1.cy - {n})
  }

  /** What one turn of the reverse loop of `recursiveCollapse(x)` needs: validity, a smaller measure, the next invariant. */
  lemma NeighbourStep(t0: Tracking, x: string, i: nat, t: Tracking)
    requires Valid(t0) && x in t0.rec.expanded && i < |t0.rec.neighborSets[x]|
    requires HandledFrom(t0, x, i + 1, t)
    ensures Valid(t) && x in t.rec.neighborSets && t.rec.neighborSets[x] == t0.rec.neighborSets[x]
    ensures var n := t0.rec.neighborSets[x][i].id;
      n in t.rec.expanded ==> |t.rec.expanded| - IndexOf(t.rec.expanded, n) < |t0.rec.expanded| - IndexOf(t0.rec.expanded, x)
    ensures HandledFrom(t0, x, i, AfterNeighbour(t, t0.rec.neighborSets[x][i].id))
  {
    HandledMeasure(t0, x, i + 1, t);
    HandleStep(t0, x, i, t);
  }

  lemma AfterNeighbourIs(t: Tracking, n: string, mid: Tracking, after: Tracking)
    requires RecordValid(t.rec)
    requires n in t.rec.expanded ==> mid == TearDown(t, Collapsed(t.rec, n))
    requires n !in t.rec.expanded ==> mid == t
    requires after == mid.(cy := mid.cy - {n})
    ensures after == AfterNeighbour(t, n)
  {
  }

  /** The state once the reverse loop of `recursiveCollapse(x)` has handled the neighbours from index `i` on. */
  ghost predicate HandledFrom(t0: Tracking, x: string, i: nat, t: Tracking)
    requires RecordValid(t0.rec) && x in t0.rec.expanded && i <= |t0.rec.neighborSets[x]|
  {
    var torn := TearDown(t0, CollapsedFrom(t0.rec, x, i));
    t == torn.(cy := torn.cy - IdsFrom(t0.rec.neighborSets[x], i))
  }

  lemma HandledStart(t0: Tracking, x: string)
    requires Valid(t0) && x in t0.rec.expanded
    ensures HandledFrom(t0, x, |t0.rec.neighborSets[x]|, t0)
  {
    TearDownNothing(t0);
    IdsFromEnds(t0.rec.neighborSets[x]);
  }

  /**
   * Midway through the loop the state is valid, `x` is still expanded at the
   * same position, and every expanded neighbour of `x` comes after it.
   */
  lemma HandledMeasure(t0: Tracking, x: string, i: nat, t: Tracking)
    requires Valid(t0) && x in t0.rec.expanded && i <= |t0.rec.neighborSets[x]|
    requires HandledFrom(t0, x, i, t)
    ensures Valid(t) && x in t.rec.expanded && x in t.rec.neighborSets
    ensures t.rec.neighborSets[x] == t0.rec.neighborSets[x]
    ensures IndexOf(t.rec.expanded, x) == IndexOf(t0.rec.expanded, x)
    ensures |t.rec.expanded| <= |t0.rec.expanded|
    ensures forall j :: 0 <= j < |t0.rec.neighborSets[x]| && t0.rec.neighborSets[x][j].id in t.rec.expanded ==>
      IndexOf(t.rec.expanded, x) < IndexOf(t.rec.expanded, t0.rec.neighborSets[x][j].id)
  {
    var c := CollapsedFrom(t0.rec, x, i);
    CollapsedFromClosed(t0.rec, x, i);
    CollapsedFromAfter(t0.rec, x, i);
    TearDownValid(t0, c);
    WithoutMembers(t0.rec.expanded, c);
    WithoutKeepsIndex(t0.rec.expanded, c, x);
    var ns := t0.rec.neighborSets[x];
    forall j | 0 <= j < |ns| && ns[j].id in t.rec.expanded
      ensures IndexOf(t.rec.expanded, x) < IndexOf(t.rec.expanded, ns[j].id)
    {
      WithoutBefore(t0.rec.expanded, c, x, ns[j].id);
    }
  }

  /** The neighbour at `i` is still expanded when the loop reaches it: collapsing it completes the teardown up to `i`. */
  lemma StepThroughExpanded(t0: Tracking, x: string, i: nat)
    requires Valid(t0) && x in t0.rec.expanded && i < |t0.rec.neighborSets[x]|
    requires t0.rec.neighborSets[x][i].id in Prune(t0.rec, CollapsedFrom(t0.rec, x, i + 1)).expanded
    ensures RecordValid(Prune(t0.rec, CollapsedFrom(t0.rec, x, i + 1)))
    ensures var c := CollapsedFrom(t0.rec, x, i + 1);
      var torn := TearDown(t0, c);
      TearDown(torn, Collapsed(torn.rec, t0.rec.neighborSets[x][i].id)) == TearDown(t0, CollapsedFrom(t0.rec, x, i))
  {
    var n := t0.rec.neighborSets[x][i].id;
    var c := CollapsedFrom(t0.rec, x, i + 1);
    CollapsedFromClosed(t0.rec, x, i + 1);
    WithoutMembers(t0.rec.expanded, c);
    PruneCollapsed(t0.rec, c, n);
    var d := Collapsed(t0.rec, n) - c;
    TearDownCompose(t0, c, d);
    assert c + d == CollapsedFrom(t0.rec, x, i);
  }

  /** The neighbour at `i` is no longer expanded when the loop reaches it: the teardown up to `i` is the one up to `i + 1`. */
  lemma StepPastCollapsed(t0: Tracking, x: string, i: nat)
    requires Valid(t0) && x in t0.rec.expanded && i < |t0.rec.neighborSets[x]|
    requires t0.rec.neighborSets[x][i].id !in Prune(t0.rec, CollapsedFrom(t0.rec, x, i + 1)).expanded
    ensures CollapsedFrom(t0.rec, x, i) == CollapsedFrom(t0.rec, x, i + 1)
  {
    var n := t0.rec.neighborSets[x][i].id;
    var c := CollapsedFrom(t0.rec, x, i + 1);
    WithoutMembers(t0.rec.expanded, c);
    if n in t0.rec.expanded {
      CollapsedFromClosed(t0.rec, x, i + 1);
      ClosedContains(t0.rec, c, n);
    }
  }

  lemma HandleStep(t0: Tracking, x: string, i: nat, t: Tracking)
    requires Valid(t0) && x in t0.rec.expanded && i < |t0.rec.neighborSets[x]|
    requires HandledFrom(t0, x, i + 1, t)
    ensures RecordValid(t.rec)
    ensures HandledFrom(t0, x, i, AfterNeighbour(t, t0.rec.neighborSets[x][i].id))
  {
    var ns := t0.rec.neighborSets[x];
    var n := ns[i].id;
    var c := CollapsedFrom(t0.rec, x, i + 1);
    var torn := TearDown(t0, c);
    var done := IdsFrom(ns, i + 1);
    assert t == torn.(cy := torn.cy - done);
    IdsFromStep(ns, i);
    PruneValid(t0.rec, c);
    if n in t.rec.expanded {
      StepThroughExpanded(t0, x, i);
      TearDownCy(torn, Collapsed(torn.rec, n), done);
    } else {
      StepPastCollapsed(t0, x, i);
    }
  }

  /** The last steps of `recursiveCollapse(x)`, after the reverse loop. */
  function Finish(t: Tracking, x: string, ns: seq<CyElement>): Tracking {
    Tracking(t.displayed - IdsOf(ns), t.cy - {CompoundId(x), VulnerabilityCompoundId(x)},
      Record(t.rec.neighborSets - {x}, Without(t.rec.expanded, {x})))
  }

  lemma PruneKeeps(r: Record, c: set<string>, x: string)
    requires x in r.neighborSets && x !in c
    ensures x in Prune(r, c).neighborSets && Prune(r, c).neighborSets[x] == r.neighborSets[x]
  {
  }

  /** The last steps of `recursiveCollapse(x)` tear down `x` alone. */
  lemma FinishTearsDown(t: Tracking, x: string)
    requires x in t.rec.neighborSets
    ensures var ns := t.rec.neighborSets[x];
      Finish(t.(cy := t.cy - IdsOf(ns)), x, ns) == TearDown(t, {x})
  {
    NeighborIdsSingle(t.rec, x);
    assert CompoundIds({x}) == {CompoundId(x), VulnerabilityCompoundId(x)};
    assert t.rec.neighborSets - {x} == Prune(t.rec, {x}).neighborSets;
  }

  lemma HandledFinish(t0: Tracking, x: string, t: Tracking)
    requires Valid(t0) && x in t0.rec.expanded
    requires HandledFrom(t0, x, 0, t)
    ensures Finish(t, x, t0.rec.neighborSets[x]) == TearDown(t0, Collapsed(t0.rec, x))
    ensures Valid(TearDown(t0, Collapsed(t0.rec, x)))
  {
    var ns := t0.rec.neighborSets[x];
    var c := CollapsedFrom(t0.rec, x, 0);
    var torn := TearDown(t0, c);
    IdsFromEnds(ns);
    assert t == torn.(cy := torn.cy - IdsOf(ns));
    CollapseValid(t0, x);
    CollapsedFromAfter(t0.rec, x, 0);
    PruneKeeps(t0.rec, c, x);
    FinishTearsDown(torn, x);
    TearDownCompose(t0, c, {x});
    assert c + {x} == Collapsed(t0.rec, x);
  }

  // ------------------------------------------------------------ expanding

  /** `filteredExpandedData`: the received elements whose id is not displayed. */
  function Unshown(data: seq<CyElement>, displayed: set<string>): (r: seq<CyElement>)
    ensures forall e :: e in r <==> e in data && e.id !in displayed
  {
    if data == [] then []
    else
      var last := data[|data| - 1];
      Unshown(data[..|data| - 1], displayed) + (if last.id in displayed then [] else [last])
  }

  /** `neighbors`: unshown elements other than the seed whose group is not 'edges'. */
  function NeighborsOf(unshown: seq<CyElement>, seed: string): (r: seq<CyElement>)
    ensures forall e :: e in r <==> e in unshown && e.id != seed && e.group != Str("edges")
  {
    if unshown == [] then []
    else
      var last := unshown[|unshown| - 1];
      NeighborsOf(unshown[..|unshown| - 1], seed) + (if last.id != seed && last.group != Str("edges") then [last] else [])
  }

  predicate Names(neighbors: seq<CyElement>, v: Value) {
    exists n :: n in neighbors && Str(n.id) == v
  }

  /** The test of `filteredEdges`: an edge from the seed to a neighbour, or between two neighbours. */
  predicate Links(e: CyElement, neighbors: seq<CyElement>, seed: string) {
    e.group == Str("edges") &&
    ((e.source == Str(seed) && Names(neighbors, e.target)) || (Names(neighbors, e.source) && Names(neighbors, e.target)))
  }

  /** `filteredEdges`. */
  function LinkingEdges(unshown: seq<CyElement>, neighbors: seq<CyElement>, seed: string): (r: seq<CyElement>)
    ensures forall e :: e in r <==> e in unshown && Links(e, neighbors, seed)
  {
    if unshown == [] then []
    else
      var last := unshown[|unshown| - 1];
      LinkingEdges(unshown[..|unshown| - 1], neighbors, seed) + (if Links(last, neighbors, seed) then [last] else [])
  }

  predicate HasKind(ns: seq<CyElement>, kind: string) {
    exists n :: n in ns && n.kind == Str(kind)
  }

  /** The client's rule for `vulnerability-compound-{seed}`: a Vulnerability and a CVE neighbour. */
  predicate ClientVulnerabilityCompound(ns: seq<CyElement>) {
    HasKind(ns, "Vulnerability") && HasKind(ns, "CVE")
  }

  /** The parent the client's `forEach` gives a neighbour of an IP seed. */
  function ClientParent(n: CyElement, seed: string, vuln: bool): Value {
    if VulnerabilityRelated(n.kind) && vuln then Str(VulnerabilityCompoundId(seed)) else Str(CompoundId(seed))
  }

  function ClientGrouped(ns: seq<CyElement>, seed: string, vuln: bool): seq<CyElement> {
    seq(|ns|, i requires 0 <= i < |ns| => ns[i].(parent := ClientParent(ns[i], seed, vuln)))
  }

  /** Whether the answer holds an element with id `id`: `expandedData.find(...)`. */
  predicate Carries(data: seq<CyElement>, id: string) {
    exists e :: e in data && e.id == id
  }

  /** The ids an expansion may newly show: unshown elements other than the seed, outside the 'edges' group. */
  function Fresh(data: seq<CyElement>, displayed: set<string>, seed: string): set<string> {
    set e | e in data && e.id !in displayed && e.id != seed && e.group != Str("edges") :: e.id
  }

  /** The neighbour set an expansion records. */
  function ExpandedNeighbors(displayed: set<string>, seed: string, seedType: Value, data: seq<CyElement>): seq<CyElement> {
    var found := NeighborsOf(Unshown(data, displayed), seed);
    if seedType == Str("IP") then ClientGrouped(found, seed, ClientVulnerabilityCompound(found)) else found
  }

  function ExpandedEdges(displayed: set<string>, seed: string, data: seq<CyElement>): seq<CyElement> {
    var unshown := Unshown(data, displayed);
    LinkingEdges(unshown, NeighborsOf(unshown, seed), seed)
  }

  /** The compound ids an expansion adds to the graph. */
  function AddedCompounds(seed: string, seedType: Value, found: seq<CyElement>): set<string> {
    if seedType != Str("IP") then {}
    else if ClientVulnerabilityCompound(found) then {CompoundId(seed), VulnerabilityCompoundId(seed)}
    else {CompoundId(seed)}
  }

  /** The ids in the graph after an expansion. */
  function ExpandedCy(t: Tracking, seed: string, seedType: Value, data: seq<CyElement>): set<string> {
    var cy1 := t.cy + AddedCompounds(seed, seedType, NeighborsOf(Unshown(data, t.displayed), seed));
    var cy2 := if seedType == Str("IP") && seed !in cy1 && Carries(data, seed) then cy1 + {seed} else cy1;
    cy2 + IdsOf(ExpandedNeighbors(t.displayed, seed, seedType, data)) + IdsOf(ExpandedEdges(t.displayed, seed, data))
  }

  /** The state `expandNodes(seed, seedType)` leaves once `/api/virtualNetwork` answered with `data`. */
  function Expanded(t: Tracking, seed: string, seedType: Value, data: seq<CyElement>): Tracking {
    var cy := ExpandedCy(t, seed, seedType, data);
    Tracking(t.displayed + (cy - {""}), cy,
      Record(t.rec.neighborSets[seed := ExpandedNeighbors(t.displayed, seed, seedType, data)],
        if seed in t.rec.expanded then t.rec.expanded else t.rec.expanded + [seed]))
  }

  /** Grouping changes only parents: ids and types stay, and the parent follows the client's rule. */
  lemma ClientGrouping(ns: seq<CyElement>, seed: string, vuln: bool)
    ensures var r := ClientGrouped(ns, seed, vuln);
      |r| == |ns| && IdsOf(r) == IdsOf(ns) &&
      forall i :: 0 <= i < |r| ==>
        r[i].id == ns[i].id && r[i].kind == ns[i].kind &&
        (r[i].parent == Str(VulnerabilityCompoundId(seed)) <==> vuln && VulnerabilityRelated(ns[i].kind)) &&
        (r[i].parent == Str(CompoundId(seed)) <==> !(vuln && VulnerabilityRelated(ns[i].kind)))
  {
    CompoundIdsDiffer(seed, seed);
    var r := ClientGrouped(ns, seed, vuln);
    assert forall i :: 0 <= i < |r| ==> r[i].id == ns[i].id;
    assert IdsOf(r) == IdsOf(ns) by {
      forall x | x in IdsOf(ns) ensures x in IdsOf(r) {
        var i :| 0 <= i < |ns| && ns[i].id == x;
        assert r[i].id == x;
      }
    }
  }

  /** The recorded neighbours are exactly the unshown elements other than the seed outside the 'edges' group. */
  lemma ExpandedNeighborIds(displayed: set<string>, seed: string, seedType: Value, data: seq<CyElement>)
    ensures IdsOf(ExpandedNeighbors(displayed, seed, seedType, data)) == Fresh(data, displayed, seed)
  {
    var found := NeighborsOf(Unshown(data, displayed), seed);
    ClientGrouping(found, seed, ClientVulnerabilityCompound(found));
    forall z | z in Fresh(data, displayed, seed)
      ensures z in IdsOf(found)
    {
      var e :| e in data && e.id !in displayed && e.id != seed && e.group != Str("edges") && e.id == z;
      assert e in found;
      var i :| 0 <= i < |found| && found[i] == e;
    }
    forall z | z in IdsOf(found)
      ensures z in Fresh(data, displayed, seed)
    {
      var i :| 0 <= i < |found| && found[i].id == z;
      assert found[i] in found;
    }
  }

  /**
   * Expanding a displayed node that is not expanded keeps the state valid:
   * its new neighbours were not displayed, so none of them is expanded.
   */
  lemma ExpandValid(t: Tracking, seed: string, seedType: Value, data: seq<CyElement>)
    requires Valid(t) && seed in t.displayed && seed !in t.rec.expanded
    ensures Valid(Expanded(t, seed, seedType, data))
  {
    var t1 := Expanded(t, seed, seedType, data);
    var nb := ExpandedNeighbors(t.displayed, seed, seedType, data);
    ExpandedNeighborIds(t.displayed, seed, seedType, data);
    assert forall j :: 0 <= j < |nb| ==> nb[j].id in IdsOf(nb);
    assert t1.rec == Record(t.rec.neighborSets[seed := nb], t.rec.expanded + [seed]);
    RecordGrows(t.rec, seed, nb);
    assert t.displayed <= t1.displayed;
  }

  /** Recording a new expansion whose neighbours are not expanded keeps the record valid. */
  lemma RecordGrows(r: Record, seed: string, nb: seq<CyElement>)
    requires RecordValid(r) && seed !in r.expanded
    requires forall j :: 0 <= j < |nb| ==> nb[j].id !in r.expanded && nb[j].id != seed
    ensures RecordValid(Record(r.neighborSets[seed := nb], r.expanded + [seed]))
  {
    var r1 := Record(r.neighborSets[seed := nb], r.expanded + [seed]);
    assert forall j :: 0 <= j < |nb| ==> nb[j].id !in r1.expanded;
    assert Distinct(r1.expanded) by {
      forall i, j | 0 <= i < j < |r1.expanded|
        ensures r1.expanded[i] != r1.expanded[j]
      {
        if j == |r.expanded| {
          assert r1.expanded[i] == r.expanded[i];
        } else {
          assert r1.expanded[i] == r.expanded[i] && r1.expanded[j] == r.expanded[j];
        }
      }
    }
    IndexOfAppended(r.expanded, seed);
    forall y, j | y in r1.neighborSets && y != seed && 0 <= j < |r1.neighborSets[y]| && r1.neighborSets[y][j].id in r1.expanded
      ensures IndexOf(r1.expanded, y) < IndexOf(r1.expanded, r1.neighborSets[y][j].id)
    {
      var n := r1.neighborSets[y][j].id;
      IndexOfAppend(r.expanded, seed, y);
      if n != seed {
        IndexOfAppend(r.expanded, seed, n);
      }
    }
  }

  /**
   * After an expansion the seed is the last expanded node, its neighbour set
   * holds exactly the unshown elements other than the seed outside the
   * 'edges' group, an IP seed's compound is in the graph, every non-empty id
   * of the graph is displayed, and nothing displayed or recorded before is
   * lost.
   */
  lemma ExpandFacts(t: Tracking, seed: string, seedType: Value, data: seq<CyElement>)
    requires Valid(t) && seed !in t.rec.expanded
    ensures var t1 := Expanded(t, seed, seedType, data);
      && t1.rec.expanded == t.rec.expanded + [seed]
      && seed in t1.rec.neighborSets
      && IdsOf(t1.rec.neighborSets[seed]) == Fresh(data, t.displayed, seed)
      && (seedType == Str("IP") ==> CompoundId(seed) in t1.cy)
      && (forall x :: x in t1.cy && x != "" ==> x in t1.displayed)
      && t.displayed <= t1.displayed && t.cy <= t1.cy
      && (forall y :: y in t.rec.neighborSets ==> y in t1.rec.neighborSets && t1.rec.neighborSets[y] == t.rec.neighborSets[y])
  {
    ExpandedNeighborIds(t.displayed, seed, seedType, data);
  }

  /** Without a 'group' field no received element counts as an edge: `filteredEdges` is empty and edges become neighbours. */
  lemma NoGroupNoLinkingEdges(data: seq<CyElement>, displayed: set<string>, seed: string)
    requires forall e :: e in data ==> e.group == Undefined
    ensures ExpandedEdges(displayed, seed, data) == []
    ensures forall e :: e in Unshown(data, displayed) && e.id != seed ==> e in NeighborsOf(Unshown(data, displayed), seed)
  {
    var unshown := Unshown(data, displayed);
    NothingLinks(unshown, NeighborsOf(unshown, seed), seed);
  }

  lemma {:induction false} NothingLinks(unshown: seq<CyElement>, neighbors: seq<CyElement>, seed: string)
    requires forall e :: e in unshown ==> e.group != Str("edges")
    ensures LinkingEdges(unshown, neighbors, seed) == []
  {
    if unshown != [] {
      NothingLinks(unshown[..|unshown| - 1], neighbors, seed);
      assert unshown[|unshown| - 1] in unshown;
    }
  }

  /** The client's rule for the vulnerability compound is stricter than the server's. */
  lemma ClientRuleStricter(ns: seq<CyElement>)
    requires ClientVulnerabilityCompound(ns)
    ensures exists i :: 0 <= i < |ns| && SignalsVulnerability(ns[i].kind)
  {
    var n :| n in ns && n.kind == Str("CVE");
    var i :| 0 <= i < |ns| && ns[i] == n;
    assert SignalsVulnerability(ns[i].kind);
  }

  /**
   * Where the rules part: a NetworkService neighbour alone makes the server
   * create `vulnerability-compound-{seed}` and group under it, while the
   * client creates no such compound and groups the neighbour under
   * `compound-{seed}`.
   */
  lemma RulesDiverge(seed: string, service: CyElement)
    requires service.kind == Str("NetworkService")
    ensures exists i :: 0 <= i < |[service]| && SignalsVulnerability([service][i].kind)
    ensures !ClientVulnerabilityCompound([service])
    ensures ClientGrouped([service], seed, false)[0].parent == Str(CompoundId(seed))
  {
    assert SignalsVulnerability([service][0].kind);
    assert [service][0] == service;
    assert Str("NetworkService") != Str("CVE");
  }

  // ------------------------------------------------------------ collapsing

  /** A collapse keeps the state valid. */
  lemma CollapseValid(t: Tracking, x: string)
    requires Valid(t) && x in t.rec.expanded
    ensures Valid(TearDown(t, Collapsed(t.rec, x)))
  {
    CollapsedClosed(t.rec, x);
    TearDownValid(t, Collapsed(t.rec, x));
  }

  /**
   * After a collapse of `x`: `x` and every nested expanded neighbour are gone
   * from `expandedNodes` and `neighborSets`, every other expanded node stays
   * in its order, only recorded neighbour ids leave `displayedNodeIDs`, and
   * `x` itself stays displayed.
   */
  lemma CollapseFacts(t: Tracking, x: string)
    requires Valid(t) && x in t.rec.expanded
    ensures var c := Collapsed(t.rec, x);
      var t1 := TearDown(t, c);
      && x in c
      && (forall j :: 0 <= j < |t.rec.neighborSets[x]| && t.rec.neighborSets[x][j].id in t.rec.expanded ==>
            t.rec.neighborSets[x][j].id in c)
      && (forall z :: z in c ==> z !in t1.rec.expanded && z !in t1.rec.neighborSets)
      && t1.rec.expanded == Without(t.rec.expanded, c)
      && t1.displayed == t.displayed - NeighborIds(t.rec, c)
      && x in t1.displayed
  {
    var c := Collapsed(t.rec, x);
    CollapsedClosed(t.rec, x);
    CollapsedAfter(t.rec, x);
    WithoutMembers(t.rec.expanded, c);
    assert forall y, j :: y in c && y in t.rec.neighborSets && 0 <= j < |t.rec.neighborSets[y]| ==>
      t.rec.neighborSets[y][j].id != x;
  }

  /** Expanding a node and collapsing it straight away restores the record and loses nothing displayed. */
  lemma ExpandThenCollapse(t: Tracking, seed: string, seedType: Value, data: seq<CyElement>)
    requires Valid(t) && seed in t.displayed && seed !in t.rec.expanded
    ensures var t1 := Expanded(t, seed, seedType, data);
      Valid(t1) && seed in t1.rec.expanded &&
      var t2 := TearDown(t1, Collapsed(t1.rec, seed));
      t2.rec == t.rec && t.displayed <= t2.displayed
  {
    var t1 := Expanded(t, seed, seedType, data);
    ExpandValid(t, seed, seedType, data);
    ExpandFacts(t, seed, seedType, data);
    LastCollapsesAlone(t1.rec);
    WithoutAppended(t.rec.expanded, seed);
    NeighborIdsSingle(t1.rec, seed);
    assert Prune(t1.rec, {seed}).neighborSets == t.rec.neighborSets;
  }

  /**
   * When the mirror's listing carries `compound-{seed}` (which the server adds
   * for an IP seed) and it is not displayed yet, the client records it as a
   * neighbour of the seed, so collapsing the seed right after deletes it from
   * `displayedNodeIDs` like any other neighbour.
   */
  lemma ListedCompoundForgotten(t: Tracking, seed: string, data: seq<CyElement>, k: nat)
    requires Valid(t) && seed in t.displayed && seed !in t.rec.expanded
    requires k < |data| && data[k].id == CompoundId(seed) && data[k].group == Undefined
    requires CompoundId(seed) !in t.displayed
    ensures var t1 := Expanded(t, seed, Str("IP"), data);
      Valid(t1) && seed in t1.rec.expanded &&
      CompoundId(seed) !in TearDown(t1, Collapsed(t1.rec, seed)).displayed
  {
    var t1 := Expanded(t, seed, Str("IP"), data);
    ExpandValid(t, seed, Str("IP"), data);
    ExpandFacts(t, seed, Str("IP"), data);
    LastCollapsesAlone(t1.rec);
    NeighborIdsSingle(t1.rec, seed);
    assert |CompoundId(seed)| > |seed|;
    assert data[k] in data;
    assert CompoundId(seed) in Fresh(data, t.displayed, seed);
  }

  // ------------------------------------------------------------ the page

  /** The globals of the page and the ids of the elements in the Cytoscape graph. */
  class Session {
    var displayed: set<string>
    var cy: set<string>
    var neighborSets: map<string, seq<CyElement>>
    var expanded: seq<string>

    function State(): Tracking
      reads this
    {
      Tracking(displayed, cy, Record(neighborSets, expanded))
    }

    /** The page load: the initial elements are added and every non-empty id is marked displayed. */
    constructor(elements: seq<CyElement>)
      ensures Valid(State())
      ensures cy == IdsOf(elements) && displayed == IdsOf(elements) - {""}
      ensures neighborSets == map[] && expanded == []
    {
      cy := IdsOf(elements);
      displayed := IdsOf(elements) - {""};
      neighborSets := map[];
      expanded := [];
    }

    /** `neighbors.forEach(neighbor => delete displayedNodeIDs[neighbor.data.id])`. */
    method ForgetDisplayed(ns: seq<CyElement>)
      modifies this
      ensures displayed == old(displayed) - IdsOf(ns)
      ensures cy == old(cy) && neighborSets == old(neighborSets) && expanded == old(expanded)
    {
      var i := 0;
      while i < |ns|
        invariant 0 <= i <= |ns|
        invariant displayed == old(displayed) - set j | 0 <= j < i :: ns[j].id
        invariant cy == old(cy) && neighborSets == old(neighborSets) && expanded == old(expanded)
      {
        displayed := displayed - {ns[i].id};
        i := i + 1;
      }
    }

    /** `recursiveCollapse(id)`. */
    method RecursiveCollapse(id: string)
      requires Valid(State())
      modifies this
      decreases if id in expanded then |expanded| - IndexOf(expanded, id) else 0
      ensures Valid(State())
      ensures id in old(expanded) ==> State() == TearDown(old(State()), Collapsed(old(State()).rec, id))
      ensures id !in old(expanded) ==> State() == old(State())
    {
      if id !in neighborSets || id !in expanded {
        return;
      }
      ghost var t0 := State();
      var neighbors := neighborSets[id];
      HandledStart(t0, id);
      var i := |neighbors|;
      while i > 0
        invariant 0 <= i <= |neighbors|
        invariant HandledFrom(t0, id, i, State())
      {
        i := i - 1;
        var currentNeighborId := neighbors[i].id;
        ghost var before := State();
        NeighbourStep(t0, id, i, before);
        if currentNeighborId in expanded {
          RecursiveCollapse(currentNeighborId);
        }
        ghost var mid := State();
        cy := cy - {currentNeighborId};
        AfterNeighbourIs(before, currentNeighborId, mid, State());
      }
      assert i == 0;
      HandledFinish(t0, id, State());
      FinishCollapse(id, neighbors);
    }

    /** The clean-up at the end of `recursiveCollapse(id)`, once every neighbour is handled. */
    method FinishCollapse(id: string, neighbors: seq<CyElement>)
      modifies this
      ensures State() == Finish(old(State()), id, neighbors)
    {
      cy := cy - {CompoundId(id), VulnerabilityCompoundId(id)};
      ForgetDisplayed(neighbors);
      neighborSets := neighborSets - {id};
      expanded := Without(expanded, {id});
    }

    /** `collapseNodesAndRecursiveNodes(nodeId)`: the last node expanded is collapsed without recursion. */
    method Collapse(nodeId: string)
      requires Valid(State()) && nodeId in expanded
      modifies this
      ensures Valid(State())
      ensures State() == TearDown(old(State()), Collapsed(old(State()).rec, nodeId))
    {
      var lastExpandedNodeId := expanded[|expanded| - 1];
      if nodeId != lastExpandedNodeId {
        RecursiveCollapse(nodeId);
      } else {
        ghost var t0 := State();
        var neighbors := neighborSets[nodeId];
        var i := 0;
        while i < |neighbors|
          invariant 0 <= i <= |neighbors|
          invariant cy == t0.cy - set j | 0 <= j < i :: neighbors[j].id
          invariant displayed == t0.displayed && neighborSets == t0.rec.neighborSets && expanded == t0.rec.expanded
        {
          cy := cy - {neighbors[i].id};
          i := i + 1;
        }
        ghost var looped := State();
        cy := cy - {CompoundId(nodeId), VulnerabilityCompoundId(nodeId)};
        ForgetDisplayed(neighbors);
        neighborSets := neighborSets - {nodeId};
        expanded := Without(expanded, {nodeId});
        LastCollapsesAlone(t0.rec);
        TearDownNothing(t0);
        IdsFromEnds(neighbors);
        assert HandledFrom(t0, nodeId, 0, looped);
        HandledFinish(t0, nodeId, looped);
        assert State() == Finish(looped, nodeId, neighbors);
      }
    }

    /**
     * `expandNodes(nodeId, nodeType)`; `response` is the answer of
     * `/api/virtualNetwork`, `None` when the fetch fails or is not ok, which
     * the `catch` only logs.
     */
    method Expand(nodeId: string, nodeType: Value, response: Option<seq<CyElement>>)
      requires Valid(State()) && nodeId in displayed && nodeId !in expanded
      modifies this
      ensures Valid(State())
      ensures response.None? ==> State() == old(State())
      ensures response.Some? ==> State() == Expanded(old(State()), nodeId, nodeType, response.value)
    {
      if response.None? {
        return;
      }
      ghost var t0 := State();
      var expandedData := response.value;
      var filteredExpandedData := Unshown(expandedData, displayed);
      var neighbors := NeighborsOf(filteredExpandedData, nodeId);
      var filteredEdges := LinkingEdges(filteredExpandedData, neighbors, nodeId);
      if nodeType == Str("IP") {
        neighbors := GroupUnderCompounds(nodeId, neighbors, expandedData);
      }
      assert neighbors == ExpandedNeighbors(t0.displayed, nodeId, nodeType, expandedData);
      assert filteredEdges == ExpandedEdges(t0.displayed, nodeId, expandedData);
      cy := cy + IdsOf(neighbors) + IdsOf(filteredEdges);
      assert cy == ExpandedCy(t0, nodeId, nodeType, expandedData);
      if nodeId !in expanded {
        expanded := expanded + [nodeId];
      }
      neighborSets := neighborSets[nodeId := neighbors];
      displayed := displayed + (cy - {""});
      assert State() == Expanded(t0, nodeId, nodeType, expandedData);
      ExpandValid(t0, nodeId, nodeType, expandedData);
    }

    /**
     * The IP branch of `expandNodes`: the compound nodes are added, every
     * neighbour gets its parent, and the seed is added back when the graph
     * lacks it but the answer carries it.
     */
    method GroupUnderCompounds(nodeId: string, found: seq<CyElement>, expandedData: seq<CyElement>) returns (neighbors: seq<CyElement>)
      modifies this
      ensures neighbors == ClientGrouped(found, nodeId, ClientVulnerabilityCompound(found))
      ensures var cy1 := old(cy) + AddedCompounds(nodeId, Str("IP"), found);
        cy == if nodeId !in cy1 && Carries(expandedData, nodeId) then cy1 + {nodeId} else cy1
      ensures displayed == old(displayed) && neighborSets == old(neighborSets) && expanded == old(expanded)
    {
      cy := cy + {CompoundId(nodeId)};
      var vuln := ClientVulnerabilityCompound(found);
      if vuln {
        cy := cy + {VulnerabilityCompoundId(nodeId)};
      }
      neighbors := ClientGrouped(found, nodeId, vuln);
      if nodeId !in cy && Carries(expandedData, nodeId) {
        cy := cy + {nodeId};
      }
    }

    /** The `dbltap` handler. */
    method DoubleTap(nodeId: string, nodeType: Value, response: Option<seq<CyElement>>)
      requires Valid(State())
      modifies this
      ensures Valid(State())
      ensures nodeId !in old(displayed) ==> State() == old(State())
      ensures nodeId in old(displayed) && nodeId in old(expanded) ==>
        State() == TearDown(old(State()), Collapsed(old(State()).rec, nodeId))
      ensures nodeId in old(displayed) && nodeId !in old(expanded) ==>
        State() == if response.Some? then Expanded(old(State()), nodeId, nodeType, response.value) else old(State())
    {
      if nodeId !in displayed {
        return;
      }
      if nodeId in expanded {
        Collapse(nodeId);
      } else {
        Expand(nodeId, nodeType, response);
      }
    }
  }
}
