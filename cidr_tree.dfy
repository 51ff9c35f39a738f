/**
 * The containment tree of `buildCIDRTreemap`: every dictionary entry inside
 * the supernet is inserted, in comparator order, under the most specific
 * node that contains it; the root's children are then promoted into the
 * result object, keyed by their CIDR.
 *
 * The nested `{cidr, label, vuln, children}` objects that the builder pushes
 * into in place are modelled as tree values; `Insert` returns the updated tree.
 * Every `isInSubnet` test is written as `SignedWithin`, which
 * `IPv4.IsInSubnetSigned` proves equal to the `ip2long` comparison.
 */
module CidrTree {
  import opened Wrappers
  import opened IPv4
  import opened Subnets
  import opened CidrDict

  /** A tree node `{ cidr, label, vuln, children }`. */
  datatype TreeNode = TreeNode(cidr: Cidr, caption: string, vuln: Option<int>, children: seq<TreeNode>)

  /** The node `insertIntoTree` pushes for a new entry. */
  function Leaf(e: Entry): TreeNode {
    TreeNode(e.value, e.caption, e.vuln, [])
  }

  function EntryOf(n: TreeNode): Entry {
    Entry(n.cidr, n.caption, n.vuln)
  }

  // ------------------------------------------------ the most specific parent

  /**
   * The scan over the first `n` children: a containing child replaces the
   * current choice only when its prefix is strictly longer.
   */
  function MostSpecificUpTo(children: seq<TreeNode>, c: Cidr, n: nat): (r: Option<nat>)
    requires n <= |children|
    ensures r.None? ==> forall j :: 0 <= j < n ==> !SignedWithin(c, children[j].cidr)
    ensures r.Some? ==> r.value < n && SignedWithin(c, children[r.value].cidr)
    ensures r.Some? ==> forall j :: 0 <= j < n && SignedWithin(c, children[j].cidr) ==>
      children[j].cidr.len <= children[r.value].cidr.len
    ensures r.Some? ==> forall j :: 0 <= j < r.value && SignedWithin(c, children[j].cidr) ==>
      children[j].cidr.len < children[r.value].cidr.len
  {
    if n == 0 then None
    else
      var best := MostSpecificUpTo(children, c, n - 1);
      var child := children[n - 1];
      if SignedWithin(c, child.cidr) && (best.None? || child.cidr.len > children[best.value].cidr.len)
      then Some(n - 1)
      else best
  }

  /** The containing child with the longest prefix, the first one on ties; `None` when no child contains `c`. */
  function MostSpecific(children: seq<TreeNode>, c: Cidr): Option<nat> {
    MostSpecificUpTo(children, c, |children|)
  }

  /** The `for (const child of node.children)` loop of `insertIntoTree`. */
  method FindMostSpecificParent(children: seq<TreeNode>, c: Cidr) returns (best: Option<nat>)
    ensures best == MostSpecific(children, c)
  {
    best := None;
    var i := 0;
    while i < |children|
      invariant 0 <= i <= |children|
      invariant best == MostSpecificUpTo(children, c, i)
    {
      var child := children[i];
      if SignedWithin(c, child.cidr) {
        if best.None? || child.cidr.len > children[best.value].cidr.len {
          best := Some(i);
        }
      }
      i := i + 1;
    }
  }

  // ------------------------------------------------------------- insertion

  /**
   * `insertIntoTree(node, cidr, label, vuln)`: descend into the most specific
   * containing child, or else append a new leaf.
   */
  function Insert(node: TreeNode, e: Entry): (r: TreeNode)
    ensures r.cidr == node.cidr && r.caption == node.caption && r.vuln == node.vuln
    ensures |r.children| >= |node.children|
    decreases node
  {
    match MostSpecific(node.children, e.value)
    case None => node.(children := node.children + [Leaf(e)])
    case Some(i) => node.(children := node.children[i := Insert(node.children[i], e)])
  }

  /** The in-place recursion of `insertIntoTree`, on tree values. */
  method InsertIntoTree(node: TreeNode, e: Entry) returns (r: TreeNode)
    ensures r == Insert(node, e)
    decreases node
  {
    var mostSpecificParent := FindMostSpecificParent(node.children, e.value);
    if mostSpecificParent.Some? {
      var i := mostSpecificParent.value;
      var child := InsertIntoTree(node.children[i], e);
      r := node.(children := node.children[i := child]);
    } else {
      r := node.(children := node.children + [Leaf(e)]);
    }
  }

  // --------------------------------------------------------- tree contents

  /** The entries of all nodes strictly below `t`. */
  function Below(t: TreeNode): multiset<Entry>
    decreases t, 1
  {
    BelowAll(t.children)
  }

  /** The entries of the nodes of `ts` and everything below them. */
  function BelowAll(ts: seq<TreeNode>): multiset<Entry>
    decreases ts, 0
  {
    if ts == [] then multiset{}
    else BelowAll(ts[..|ts| - 1]) + Share(ts[|ts| - 1])
  }

  /** The entries of `t` and everything below it. */
  function Share(t: TreeNode): multiset<Entry>
    decreases t, 2
  {
    multiset{EntryOf(t)} + Below(t)
  }

  lemma BelowAllAppend(ts: seq<TreeNode>, t: TreeNode)
    ensures BelowAll(ts + [t]) == BelowAll(ts) + Share(t)
  {
    assert (ts + [t])[..|ts|] == ts;
  }

  lemma {:induction false} BelowAllConcat(a: seq<TreeNode>, b: seq<TreeNode>)
    ensures BelowAll(a + b) == BelowAll(a) + BelowAll(b)
  {
    if b == [] {
      assert a + b == a;
    } else {
      var init, last := b[..|b| - 1], b[|b| - 1];
      assert b == init + [last];
      assert a + b == (a + init) + [last];
      BelowAllConcat(a, init);
      BelowAllAppend(a + init, last);
      BelowAllAppend(init, last);
    }
  }

  /** Replacing one node replaces its share of the entries. */
  lemma BelowAllUpdate(ts: seq<TreeNode>, i: nat, t: TreeNode)
    requires i < |ts|
    ensures BelowAll(ts[i := t]) + Share(ts[i]) == BelowAll(ts) + Share(t)
  {
    var before, after := ts[..i], ts[i + 1..];
    assert ts == (before + [ts[i]]) + after;
    assert ts[i := t] == (before + [t]) + after;
    BelowAllConcat(before + [ts[i]], after);
    BelowAllConcat(before + [t], after);
    BelowAllAppend(before, ts[i]);
    BelowAllAppend(before, t);
  }

  lemma MultisetCancel<T>(a: multiset<T>, b: multiset<T>, s: multiset<T>)
    requires a + s == b + s
    ensures a == b
  {
    forall x ensures a[x] == b[x] {
      assert (a + s)[x] == (b + s)[x];
    }
  }

  /** Inserting adds exactly the new entry below the node. */
  lemma {:induction false} InsertAddsEntry(t: TreeNode, e: Entry)
    ensures Below(Insert(t, e)) == Below(t) + multiset{e}
    decreases t
  {
    var r := Insert(t, e);
    match MostSpecific(t.children, e.value)
    case None =>
      assert r.children == t.children + [Leaf(e)];
      BelowAllAppend(t.children, Leaf(e));
      assert Below(Leaf(e)) == multiset{};
      assert Share(Leaf(e)) == multiset{e};
      assert Below(r) == BelowAll(t.children) + Share(Leaf(e));
    case Some(i) =>
      var child := t.children[i];
      var child' := Insert(child, e);
      assert r.children == t.children[i := child'];
      InsertAddsEntry(child, e);
      assert Share(child') == Share(child) + multiset{e};
      BelowAllUpdate(t.children, i, child');
      var updated := BelowAll(t.children[i := child']);
      assert updated + Share(child) == (Below(t) + multiset{e}) + Share(child);
      MultisetCancel(updated, Below(t) + multiset{e}, Share(child));
      assert Below(r) == updated;
  }

  // ----------------------------------------------------------- containment

  /** Every node lies inside its parent, as `isInSubnet` judges it (see `IsInSubnetSigned`). */
  ghost predicate Contained(t: TreeNode)
    decreases t
  {
    forall i :: 0 <= i < |t.children| ==> SignedWithin(t.children[i].cidr, t.cidr) && Contained(t.children[i])
  }

  /** Insertion keeps every node inside its parent, given the entry lies inside the root. */
  lemma {:induction false} InsertContained(t: TreeNode, e: Entry)
    requires Contained(t) && SignedWithin(e.value, t.cidr)
    ensures Contained(Insert(t, e))
    decreases t
  {
    match MostSpecific(t.children, e.value)
    case None =>
      var r := Insert(t, e);
      assert r.children == t.children + [Leaf(e)];
      assert Contained(Leaf(e));
    case Some(i) =>
      InsertContained(t.children[i], e);
      var r := Insert(t, e);
      assert r.children == t.children[i := Insert(t.children[i], e)];
  }

  // ------------------------------------------------------- disjoint siblings

  predicate Disjoint(a: Cidr, b: Cidr) {
    BlockEnd(a) < BlockStart(b) || BlockEnd(b) < BlockStart(a)
  }

  /** The children of every node cover pairwise disjoint address ranges. */
  ghost predicate SiblingsDisjoint(t: TreeNode)
    decreases t
  {
    (forall i, j :: 0 <= i < j < |t.children| ==> Disjoint(t.children[i].cidr, t.children[j].cidr)) &&
    (forall i :: 0 <= i < |t.children| ==> SiblingsDisjoint(t.children[i]))
  }

  /** Every node strictly below `t` has a prefix between `lo` and `hi`. */
  ghost predicate PrefixesIn(t: TreeNode, lo: int, hi: int)
    decreases t
  {
    forall i :: 0 <= i < |t.children| ==>
      lo <= t.children[i].cidr.len <= hi && PrefixesIn(t.children[i], lo, hi)
  }

  lemma {:induction false} PrefixesWiden(t: TreeNode, lo: int, hi: int, hi': int)
    requires PrefixesIn(t, lo, hi) && hi <= hi'
    ensures PrefixesIn(t, lo, hi')
    decreases t
  {
    forall i | 0 <= i < |t.children| ensures PrefixesIn(t.children[i], lo, hi') {
      PrefixesWiden(t.children[i], lo, hi, hi');
    }
  }

  /**
   * Inserting entries in nondecreasing prefix order (all prefixes at least 1)
   * keeps siblings disjoint: a block that no sibling contains cannot overlap one.
   */
  lemma {:induction false} InsertDisjoint(t: TreeNode, e: Entry)
    requires SiblingsDisjoint(t) && PrefixesIn(t, 1, e.value.len) && e.value.len >= 1
    ensures SiblingsDisjoint(Insert(t, e)) && PrefixesIn(Insert(t, e), 1, e.value.len)
    decreases t
  {
    var r := Insert(t, e);
    match MostSpecific(t.children, e.value)
    case None =>
      assert r.children == t.children + [Leaf(e)];
      forall j | 0 <= j < |t.children| ensures Disjoint(t.children[j].cidr, e.value) {
        var c := t.children[j].cidr;
        NestedOrDisjoint(c, e.value);
        SignedWithinIsWithin(e.value, c);
      }
      assert SiblingsDisjoint(Leaf(e)) && PrefixesIn(Leaf(e), 1, e.value.len);
    case Some(i) =>
      InsertDisjoint(t.children[i], e);
      assert r.children == t.children[i := Insert(t.children[i], e)];
  }

  // ------------------------------------------------------------- building

  /** The root `{ cidr: supernet, label: 'my_pool', children: [] }`. */
  function Root(supernet: Cidr): TreeNode {
    TreeNode(supernet, NewLabel, None, [])
  }

  /** The entries of `keys` (in that order) that lie inside the supernet. */
  function Chosen(d: Dict, keys: seq<Cidr>, supernet: Cidr): (r: seq<Entry>)
    requires forall k :: k in keys ==> k in d.entries
  {
    if keys == [] then []
    else
      var e := d.entries[keys[|keys| - 1]];
      Chosen(d, keys[..|keys| - 1], supernet) + (if SignedWithin(e.value, supernet) then [e] else [])
  }

  /** `Chosen` keeps an entry exactly when its key is listed and its value lies inside the supernet. */
  lemma {:induction false} ChosenExactly(d: Dict, keys: seq<Cidr>, supernet: Cidr)
    requires forall k :: k in keys ==> k in d.entries
    ensures forall x :: x in Chosen(d, keys, supernet) <==>
      SignedWithin(x.value, supernet) && exists k :: k in keys && d.entries[k] == x
  {
    if keys != [] {
      var init := keys[..|keys| - 1];
      ChosenExactly(d, init, supernet);
      assert keys == init + [keys[|keys| - 1]];
    }
  }

  /** The tree the build loop produces from the root. */
  function InsertAll(t: TreeNode, es: seq<Entry>): (r: TreeNode)
    ensures r.cidr == t.cidr && r.caption == t.caption && r.vuln == t.vuln
  {
    if es == [] then t else Insert(InsertAll(t, es[..|es| - 1]), es[|es| - 1])
  }

  /** Inserting entries that lie inside the root keeps every node inside its parent. */
  lemma {:induction false} InsertAllContained(t: TreeNode, es: seq<Entry>)
    requires Contained(t)
    requires forall i :: 0 <= i < |es| ==> SignedWithin(es[i].value, t.cidr)
    ensures Contained(InsertAll(t, es))
  {
    if es != [] {
      var init := es[..|es| - 1];
      InsertAllContained(t, init);
      InsertContained(InsertAll(t, init), es[|es| - 1]);
    }
  }

  /** The entries below the root are the original ones plus the inserted ones. */
  lemma {:induction false} InsertAllBelow(t: TreeNode, es: seq<Entry>)
    ensures Below(InsertAll(t, es)) == Below(t) + multiset(es)
  {
    if es != [] {
      var init, last := es[..|es| - 1], es[|es| - 1];
      var before := InsertAll(t, init);
      calc {
        Below(InsertAll(t, es));
        Below(Insert(before, last));
        { InsertAddsEntry(before, last); }
        Below(before) + multiset{last};
        { InsertAllBelow(t, init); }
        Below(t) + multiset(init) + multiset{last};
        { assert es == init + [last]; }
        Below(t) + multiset(es);
      }
    }
  }

  lemma {:induction false} InsertAllDisjoint(t: TreeNode, es: seq<Entry>, hi: Prefix)
    requires SiblingsDisjoint(t) && PrefixesIn(t, 1, if es == [] then hi else es[0].value.len)
    requires forall i :: 0 <= i < |es| ==> 1 <= es[i].value.len <= hi
    requires forall i, j :: 0 <= i < j < |es| ==> es[i].value.len <= es[j].value.len
    ensures SiblingsDisjoint(InsertAll(t, es)) && PrefixesIn(InsertAll(t, es), 1, hi)
  {
    if es == [] {
    } else {
      var init, last := es[..|es| - 1], es[|es| - 1];
      if init == [] {
        PrefixesWiden(t, 1, es[0].value.len, last.value.len);
      } else {
        PrefixesWiden(t, 1, es[0].value.len, init[0].value.len);
      }
      InsertAllDisjoint(t, init, last.value.len);
      InsertDisjoint(InsertAll(t, init), last);
      PrefixesWiden(InsertAll(t, es), 1, last.value.len, hi);
    }
  }

  // ------------------------------------------------------------ child order

  /** Every node's children are in comparator order of their CIDRs. */
  ghost predicate ChildrenOrdered(t: TreeNode)
    decreases t
  {
    (forall i, j :: 0 <= i < j < |t.children| ==> KeyLe(t.children[i].cidr, t.children[j].cidr)) &&
    (forall i :: 0 <= i < |t.children| ==> ChildrenOrdered(t.children[i]))
  }

  /** Every node strictly below `t` has a CIDR that compares no greater than `v`. */
  ghost predicate BelowAtMost(t: TreeNode, v: Cidr)
    decreases t
  {
    forall i :: 0 <= i < |t.children| ==> KeyLe(t.children[i].cidr, v) && BelowAtMost(t.children[i], v)
  }

  lemma {:induction false} InsertBelowAtMost(t: TreeNode, e: Entry, v: Cidr)
    requires BelowAtMost(t, v) && KeyLe(e.value, v)
    ensures BelowAtMost(Insert(t, e), v)
    decreases t
  {
    var r := Insert(t, e);
    match MostSpecific(t.children, e.value)
    case None =>
      assert r.children == t.children + [Leaf(e)];
      assert BelowAtMost(Leaf(e), v);
    case Some(i) =>
      InsertBelowAtMost(t.children[i], e, v);
      assert r.children == t.children[i := Insert(t.children[i], e)];
  }

  /** A new entry that compares no smaller than anything in the tree keeps every node's children in order. */
  lemma {:induction false} InsertOrdered(t: TreeNode, e: Entry)
    requires ChildrenOrdered(t) && BelowAtMost(t, e.value)
    ensures ChildrenOrdered(Insert(t, e))
    decreases t
  {
    var r := Insert(t, e);
    match MostSpecific(t.children, e.value)
    case None =>
      assert r.children == t.children + [Leaf(e)];
      assert ChildrenOrdered(Leaf(e));
    case Some(i) =>
      InsertOrdered(t.children[i], e);
      assert r.children == t.children[i := Insert(t.children[i], e)];
  }

  lemma {:induction false} InsertAllBelowAtMost(t: TreeNode, es: seq<Entry>, v: Cidr)
    requires BelowAtMost(t, v)
    requires forall i :: 0 <= i < |es| ==> KeyLe(es[i].value, v)
    ensures BelowAtMost(InsertAll(t, es), v)
  {
    if es != [] {
      var init := es[..|es| - 1];
      InsertAllBelowAtMost(t, init, v);
      InsertBelowAtMost(InsertAll(t, init), es[|es| - 1], v);
    }
  }

  /** Inserting entries in comparator order keeps every node's children in comparator order. */
  lemma {:induction false} InsertAllOrdered(t: TreeNode, es: seq<Entry>)
    requires ChildrenOrdered(t)
    requires forall i :: 0 <= i < |es| ==> BelowAtMost(t, es[i].value)
    requires forall i, j :: 0 <= i < j < |es| ==> KeyLe(es[i].value, es[j].value)
    ensures ChildrenOrdered(InsertAll(t, es))
  {
    if es != [] {
      var init, last := es[..|es| - 1], es[|es| - 1];
      InsertAllOrdered(t, init);
      InsertAllBelowAtMost(t, init, last.value);
      InsertOrdered(InsertAll(t, init), last);
    }
  }

  /**
   * When every entry's value is its key and no key is a /0 block, the chosen
   * entries come in comparator order, all of prefix at least 1.
   */
  lemma {:induction false} ChosenInOrder(d: Dict, keys: seq<Cidr>, supernet: Cidr)
    requires forall k :: k in keys ==> k in d.entries
    requires forall k :: k in d.entries ==> d.entries[k].value == k && k.len >= 1
    requires Sorted(keys)
    ensures forall i :: 0 <= i < |Chosen(d, keys, supernet)| ==>
      Chosen(d, keys, supernet)[i].value in keys && Chosen(d, keys, supernet)[i].value.len >= 1
    ensures forall i, j :: 0 <= i < j < |Chosen(d, keys, supernet)| ==>
      KeyLe(Chosen(d, keys, supernet)[i].value, Chosen(d, keys, supernet)[j].value)
  {
    if keys != [] {
      var init, last := keys[..|keys| - 1], keys[|keys| - 1];
      assert forall k :: k in init ==> k in keys;
      assert Sorted(init);
      ChosenInOrder(d, init, supernet);
      var es0 := Chosen(d, init, supernet);
      assert forall i :: 0 <= i < |es0| ==> es0[i].value in init;
      assert forall i, j :: 0 <= i < j < |es0| ==> KeyLe(es0[i].value, es0[j].value);
      var e := d.entries[last];
      var tail := if SignedWithin(e.value, supernet) then [e] else [];
      var es := es0 + tail;
      assert Chosen(d, keys, supernet) == es;
      forall i | 0 <= i < |es0|
        ensures KeyLe(es0[i].value, last) && es0[i].value in keys
      {
        assert es0[i].value in init;
        var m :| 0 <= m < |init| && init[m] == es0[i].value;
        assert keys[m] == init[m];
        assert keys[|keys| - 1] == last;
      }
      forall i | 0 <= i < |es|
        ensures es[i].value in keys && es[i].value.len >= 1
      {
        if i < |es0| {
          assert es[i] == es0[i];
        } else {
          assert es[i] == e;
        }
      }
      forall i, j | 0 <= i < j < |es|
        ensures KeyLe(es[i].value, es[j].value)
      {
        if j < |es0| {
          assert es[i] == es0[i] && es[j] == es0[j];
        } else {
          assert es[i] == es0[i] && es[j] == e;
        }
      }
    }
  }

  /** The build loop over the sorted entries: entries outside the supernet are skipped. */
  method BuildTree(supernet: Cidr, d: Dict, sorted: seq<Cidr>) returns (root: TreeNode)
    requires forall k :: k in sorted ==> k in d.entries
    ensures root == InsertAll(Root(supernet), Chosen(d, sorted, supernet))
  {
    root := Root(supernet);
    var i := 0;
    while i < |sorted|
      invariant 0 <= i <= |sorted|
      invariant root == InsertAll(Root(supernet), Chosen(d, sorted[..i], supernet))
    {
      var e := d.entries[sorted[i]];
      assert sorted[..i + 1][..i] == sorted[..i];
      var chosen := Chosen(d, sorted[..i], supernet);
      if SignedWithin(e.value, supernet) {
        assert Chosen(d, sorted[..i + 1], supernet) == chosen + [e];
        assert (chosen + [e])[..|chosen|] == chosen;
        root := InsertIntoTree(root, e);
      } else {
        assert Chosen(d, sorted[..i + 1], supernet) == chosen;
      }
      i := i + 1;
    }
    assert sorted[..i] == sorted;
  }

  // ------------------------------------------------------------- promotion

  /** The result object: keys in insertion order, each mapped to a copy of a root child. */
  datatype Forest = Forest(keys: seq<Cidr>, nodes: map<Cidr, TreeNode>)

  function Cidrs(ts: seq<TreeNode>): (r: seq<Cidr>)
    ensures |r| == |ts| && forall i :: 0 <= i < |ts| ==> r[i] == ts[i].cidr
  {
    if ts == [] then [] else Cidrs(ts[..|ts| - 1]) + [ts[|ts| - 1].cidr]
  }

  /**
   * `result[child.cidr] = { ...child }` for every root child: a repeated key
   * keeps its first position and takes the later child.
   */
  method Promote(children: seq<TreeNode>) returns (r: Forest)
    ensures r.keys == Unseen({}, Cidrs(children))
    ensures forall k :: k in r.nodes <==> k in Cidrs(children)
    ensures forall k :: k in r.nodes ==> exists i :: (0 <= i < |children| && r.nodes[k] == children[i] &&
      children[i].cidr == k && forall j :: i < j < |children| ==> children[j].cidr != k)
  {
    r := Forest([], map[]);
    ghost var origin: map<Cidr, nat> := map[];
    var i := 0;
    while i < |children|
      invariant 0 <= i <= |children|
      invariant PromotedUpTo(children, i, r, origin)
    {
      var child := children[i];
      PromoteStep(children, i, r, origin);
      ghost var next := PromoteOne(r, child);
      if child.cidr in r.nodes {
        r := r.(nodes := r.nodes[child.cidr := child]);
      } else {
        r := Forest(r.keys + [child.cidr], r.nodes[child.cidr := child]);
      }
      assert r == next;
      origin := origin[child.cidr := i];
      i := i + 1;
    }
    assert children[..i] == children;
    forall k | k in r.nodes ensures exists p :: (0 <= p < |children| && r.nodes[k] == children[p] &&
      children[p].cidr == k && forall j :: p < j < |children| ==> children[j].cidr != k)
    {
      var p := origin[k];
      assert forall j :: p < j < |children| ==> children[j].cidr != k;
    }
  }

  /** What the promotion loop has built after `i` children; `origin` records where each value came from. */
  ghost predicate PromotedUpTo(children: seq<TreeNode>, i: nat, r: Forest, origin: map<Cidr, nat>)
    requires i <= |children|
  {
    && r.keys == Unseen({}, Cidrs(children[..i]))
    && (forall k :: k in r.nodes <==> k in Cidrs(children[..i]))
    && LastWins(children, i, r.nodes, origin)
  }

  /** Every value in `nodes` is the last of the first `i` children with its CIDR. */
  ghost predicate LastWins(children: seq<TreeNode>, i: nat, nodes: map<Cidr, TreeNode>, origin: map<Cidr, nat>)
    requires i <= |children|
  {
    && (forall k :: k in nodes ==> k in origin && origin[k] < i)
    && (forall k :: k in nodes ==> nodes[k] == children[origin[k]] && children[origin[k]].cidr == k)
    && (forall k, j :: k in nodes && origin[k] < j < i ==> children[j].cidr != k)
  }

  /** The forest after one child: a new CIDR is appended to the keys, a seen one keeps its place. */
  function PromoteOne(r: Forest, child: TreeNode): (r': Forest)
    ensures r'.nodes == r.nodes[child.cidr := child]
    ensures r'.keys == if child.cidr in r.nodes then r.keys else r.keys + [child.cidr]
  {
    if child.cidr in r.nodes then r.(nodes := r.nodes[child.cidr := child])
    else Forest(r.keys + [child.cidr], r.nodes[child.cidr := child])
  }

  /** The keys and the domain after one child follow `Unseen` and `Cidrs` one element further. */
  lemma PromoteKeys(children: seq<TreeNode>, i: nat, r: Forest)
    requires i < |children|
    requires r.keys == Unseen({}, Cidrs(children[..i]))
    requires forall k :: k in r.nodes <==> k in Cidrs(children[..i])
    ensures PromoteOne(r, children[i]).keys == Unseen({}, Cidrs(children[..i + 1]))
    ensures forall k :: k in PromoteOne(r, children[i]).nodes <==> k in Cidrs(children[..i + 1])
  {
    var child := children[i];
    var before, after := children[..i], children[..i + 1];
    assert after[..i] == before;
    assert Cidrs(after) == Cidrs(before) + [child.cidr];
    UnseenExactly({}, Cidrs(before));
    forall k ensures k in PromoteOne(r, child).nodes <==> k in Cidrs(after) {
      assert k in Cidrs(after) <==> k in Cidrs(before) || k == child.cidr;
    }
  }

  /** Overwriting with child `i` keeps every value the last one with its CIDR. */
  lemma LastWinsStep(children: seq<TreeNode>, i: nat, nodes: map<Cidr, TreeNode>, origin: map<Cidr, nat>)
    requires i < |children| && LastWins(children, i, nodes, origin)
    ensures LastWins(children, i + 1, nodes[children[i].cidr := children[i]], origin[children[i].cidr := i])
  {
    var child := children[i];
    var nodes', origin' := nodes[child.cidr := child], origin[child.cidr := i];
    forall k | k in nodes'
      ensures k in origin' && origin'[k] < i + 1
      ensures nodes'[k] == children[origin'[k]] && children[origin'[k]].cidr == k
    {
      if k != child.cidr {
        assert k in nodes;
      }
    }
    forall k, j | k in nodes' && origin'[k] < j < i + 1 ensures children[j].cidr != k {
      if k != child.cidr {
        assert k in nodes;
        assert j == i || origin[k] < j < i;
      }
    }
  }

  /** One pass of the promotion loop keeps `PromotedUpTo`. */
  lemma PromoteStep(children: seq<TreeNode>, i: nat, r: Forest, origin: map<Cidr, nat>)
    requires i < |children| && PromotedUpTo(children, i, r, origin)
    ensures PromotedUpTo(children, i + 1, PromoteOne(r, children[i]), origin[children[i].cidr := i])
  {
    PromoteKeys(children, i, r);
    LastWinsStep(children, i, r.nodes, origin);
  }

  /** With distinct CIDRs the result lists every root child once, in order. */
  lemma {:induction false} UnseenDistinct(s: seq<Cidr>)
    requires Distinct(s)
    ensures Unseen({}, s) == s
  {
    if s != [] {
      var init := s[..|s| - 1];
      UnseenDistinct(init);
      UnseenExactly({}, init);
    }
  }

  // ------------------------------------------------------------- whole

    /**
   * `buildCIDRTreemap(supernet, cidrDict)`. The caller's dictionary is filled
   * and then loses the supernet's own key, in place; `updated` is that
   * dictionary afterwards.
   */
  method BuildCidrTreemap(supernet: Cidr, cidrDict: Dict)
    returns (treemap: Forest, cidrSuffixes: seq<string>, root: TreeNode, updated: Dict)
    requires cidrDict.Valid()
    ensures cidrSuffixes == SuffixStrings(supernet.len, EndSuffix)
    ensures updated.Valid() && supernet !in updated.entries
    ensures forall k :: k in cidrDict.entries && k != supernet ==>
      k in updated.entries && updated.entries[k] == cidrDict.entries[k]
    ensures forall k :: k in updated.entries && k !in cidrDict.entries ==>
      updated.entries[k] == Entry(k, NewLabel, None) && k in Nested(supernet, supernet.len, EndSuffix)
    ensures forall c :: c in Nested(supernet, supernet.len, EndSuffix) && c != supernet ==> c in updated.entries
    ensures root.cidr == supernet && root.caption == NewLabel && root.vuln == None
    ensures Contained(root)
    ensures (forall k :: k in SortKeys(updated.keys) ==> k in updated.entries) &&
      Below(root) == multiset(Chosen(updated, SortKeys(updated.keys), supernet))
    ensures treemap.keys == Unseen({}, Cidrs(root.children))
    ensures forall k :: k in treemap.nodes <==> k in Cidrs(root.children)
    ensures forall k :: k in treemap.nodes ==> treemap.nodes[k] in root.children && treemap.nodes[k].cidr == k
    ensures (forall k :: k in cidrDict.entries ==> cidrDict.entries[k].value == k && k.len >= 1) && supernet.len >= 1 ==>
      SiblingsDisjoint(root) && ChildrenOrdered(root)
  {
    var generated := GenerateNestedSubnets(supernet, supernet.len, EndSuffix);
    var allSubnets: seq<Cidr>;
    if generated.Success? {
      allSubnets, cidrSuffixes := generated.value.0, generated.value.1;
    } else {
      assert false;
    }
    assert allSubnets == Nested(supernet, supernet.len, EndSuffix);
    var filled := Fill(cidrDict, allSubnets);
    updated := Delete(filled, supernet);
    FilledThenDeleted(cidrDict, allSubnets, filled, supernet);
    var sorted := SortKeys(updated.keys);
    SortKeysSortsPermutes(updated.keys);
    forall k | k in sorted ensures k in updated.entries {
      assert k in multiset(sorted);
    }
    root := BuildTree(supernet, updated, sorted);
    BuildContents(supernet, updated, sorted);
    if (forall k :: k in cidrDict.entries ==> cidrDict.entries[k].value == k && k.len >= 1) && supernet.len >= 1 {
      BuildShape(supernet, cidrDict, updated, sorted);
    }
    treemap := Promote(root.children);
  }

  /**
   * When the caller's entries are keyed by their own value and no block is a
   * /0, the built tree keeps siblings disjoint and children in comparator order.
   */
  lemma BuildShape(supernet: Cidr, d: Dict, updated: Dict, sorted: seq<Cidr>)
    requires supernet.len >= 1
    requires forall k :: k in d.entries ==> d.entries[k].value == k && k.len >= 1
    requires forall k :: k in updated.entries && k in d.entries ==> updated.entries[k] == d.entries[k]
    requires forall k :: k in updated.entries && k !in d.entries ==>
      updated.entries[k] == Entry(k, NewLabel, None) && k in Nested(supernet, supernet.len, EndSuffix)
    requires Sorted(sorted) && forall k :: k in sorted ==> k in updated.entries
    ensures SiblingsDisjoint(InsertAll(Root(supernet), Chosen(updated, sorted, supernet)))
    ensures ChildrenOrdered(InsertAll(Root(supernet), Chosen(updated, sorted, supernet)))
  {
    UpdatedKeyed(supernet, d, updated);
    ChosenInOrder(updated, sorted, supernet);
    InsertAllShape(supernet, Chosen(updated, sorted, supernet));
  }

  /** Inserting blocks of prefix 1 or more in comparator order under a fresh root. */
  lemma InsertAllShape(supernet: Cidr, es: seq<Entry>)
    requires supernet.len >= 1
    requires forall i :: 0 <= i < |es| ==> es[i].value.len >= 1
    requires forall i, j :: 0 <= i < j < |es| ==> KeyLe(es[i].value, es[j].value)
    ensures SiblingsDisjoint(InsertAll(Root(supernet), es))
    ensures ChildrenOrdered(InsertAll(Root(supernet), es))
  {
    ChosenPrefixes(es);
    var root := Root(supernet);
    assert SiblingsDisjoint(root) && PrefixesIn(root, 1, if es == [] then 32 else es[0].value.len);
    InsertAllDisjoint(root, es, 32);
    forall i | 0 <= i < |es| ensures BelowAtMost(root, es[i].value) {
      assert root.children == [];
    }
    InsertAllOrdered(root, es);
  }

  /** The fill loop keeps every entry keyed by its own value, and adds no /0 block. */
  lemma UpdatedKeyed(supernet: Cidr, d: Dict, updated: Dict)
    requires supernet.len >= 1
    requires forall k :: k in d.entries ==> d.entries[k].value == k && k.len >= 1
    requires forall k :: k in updated.entries && k in d.entries ==> updated.entries[k] == d.entries[k]
    requires forall k :: k in updated.entries && k !in d.entries ==>
      updated.entries[k] == Entry(k, NewLabel, None) && k in Nested(supernet, supernet.len, EndSuffix)
    ensures forall k :: k in updated.entries ==> updated.entries[k].value == k && k.len >= 1
  {
    NestedInside(supernet, supernet.len, EndSuffix);
    forall k | k in updated.entries
      ensures updated.entries[k].value == k && k.len >= 1
    {
      if k !in d.entries {
        assert k in Nested(supernet, supernet.len, EndSuffix);
      }
    }
  }

  /** Comparator order puts prefixes in nondecreasing order. */
  lemma ChosenPrefixes(es: seq<Entry>)
    requires forall i, j :: 0 <= i < j < |es| ==> KeyLe(es[i].value, es[j].value)
    ensures forall i, j :: 0 <= i < j < |es| ==> es[i].value.len <= es[j].value.len
  {
  }

  /** The dictionary after the fill loop and `delete cidrDict[supernet]`. */
  lemma FilledThenDeleted(d: Dict, subs: seq<Cidr>, filled: Dict, supernet: Cidr)
    requires d.Valid() && filled.Valid()
    requires filled.keys == d.keys + Unseen(d.entries.Keys, subs)
    requires forall k :: k in d.entries ==> k in filled.entries && filled.entries[k] == d.entries[k]
    requires forall k :: k in filled.entries && k !in d.entries ==> filled.entries[k] == Entry(k, NewLabel, None)
    requires forall s :: s in subs ==> s in filled.entries
    ensures var r := Delete(filled, supernet);
      && (forall k :: k in d.entries && k != supernet ==> k in r.entries && r.entries[k] == d.entries[k])
      && (forall k :: k in r.entries && k !in d.entries ==> r.entries[k] == Entry(k, NewLabel, None) && k in subs)
      && (forall c :: c in subs && c != supernet ==> c in r.entries)
  {
    UnseenExactly(d.entries.Keys, subs);
    var r := Delete(filled, supernet);
    forall k | k in r.entries && k !in d.entries ensures k in subs {
      assert k in filled.keys;
      assert k in Unseen(d.entries.Keys, subs);
    }
  }

  /** The tree built from the root holds exactly the chosen entries, each inside its parent. */
  lemma BuildContents(supernet: Cidr, d: Dict, sorted: seq<Cidr>)
    requires forall k :: k in sorted ==> k in d.entries
    ensures Contained(InsertAll(Root(supernet), Chosen(d, sorted, supernet)))
    ensures Below(InsertAll(Root(supernet), Chosen(d, sorted, supernet))) == multiset(Chosen(d, sorted, supernet))
  {
    ChosenExactly(d, sorted, supernet);
    assert Contained(Root(supernet));
    var es := Chosen(d, sorted, supernet);
    assert forall i :: 0 <= i < |es| ==> es[i] in es;
    InsertAllContained(Root(supernet), es);
    InsertAllBelow(Root(supernet), es);
  }
}
