/**
 * The D3 client's side of the treemap: the `cidrDict` it sends to the
 * builder, the label of the supernet, the wrapping of the builder's answer in
 * a root node, the row headings, the widths `computeWidths` assigns, and the
 * labels, "Free" padding and horizontal positions `customTiling` gives.
 *
 * CIDR strings are identified with their parsed (address, prefix) pairs, as
 * in the builder's model; a label the tiling rewrites becomes text.
 */
module TreemapView {
  import opened Wrappers
  import opened Text
  import opened IPv4
  import opened CidrDict
  import opened CidrTree

  /** `initialLabel`: the label of every value read from the database. */
  const InitialLabel: string := "neo4j"

  /** `fixedNodeWidth`. */
  const LeafWidth: int := 30

  // ------------------------------------------------------------ cidrDict

  /** The entry `cidrDict[val]` receives: `vuln` is 1 when `vulns` includes the value, else 0. */
  function ValueEntry(val: Cidr, vulns: seq<Cidr>): Entry {
    Entry(val, InitialLabel, Some(if val in vulns then 1 else 0))
  }

  /**
   * The `values.forEach` loop: one entry per distinct value, in order of first
   * occurrence (a repeated value rewrites its entry in place).
   */
  method BuildCidrDict(values: seq<Cidr>, vulns: seq<Cidr>) returns (cidrDict: Dict)
    ensures cidrDict.Valid()
    ensures cidrDict.keys == Unseen({}, values)
    ensures forall k :: k in cidrDict.entries <==> k in values
    ensures forall k :: k in cidrDict.entries ==> cidrDict.entries[k] == ValueEntry(k, vulns)
  {
    cidrDict := Dict([], map[]);
    var i := 0;
    while i < |values|
      invariant 0 <= i <= |values|
      invariant cidrDict.keys == Unseen({}, values[..i])
      invariant forall k :: k in cidrDict.entries <==> k in cidrDict.keys
      invariant forall k :: k in cidrDict.entries ==> cidrDict.entries[k] == ValueEntry(k, vulns)
    {
      var val := values[i];
      assert values[..i + 1] == values[..i] + [val];
      var before := cidrDict;
      if val in cidrDict.entries {
        cidrDict := cidrDict.(entries := cidrDict.entries[val := ValueEntry(val, vulns)]);
      } else {
        cidrDict := Dict(cidrDict.keys + [val], cidrDict.entries[val := ValueEntry(val, vulns)]);
      }
      StoreValueStep(before, cidrDict, values[..i], val, vulns);
      i := i + 1;
    }
    assert values[..i] == values;
    UnseenExactly({}, values);
  }

  /** One step of the loop: storing `val` keeps the dictionary in step with the values seen. */
  lemma StoreValueStep(d: Dict, d1: Dict, seen: seq<Cidr>, val: Cidr, vulns: seq<Cidr>)
    requires d.keys == Unseen({}, seen)
    requires forall k :: k in d.entries <==> k in d.keys
    requires forall k :: k in d.entries ==> d.entries[k] == ValueEntry(k, vulns)
    requires val in d.entries ==> d1 == d.(entries := d.entries[val := ValueEntry(val, vulns)])
    requires val !in d.entries ==> d1 == Dict(d.keys + [val], d.entries[val := ValueEntry(val, vulns)])
    ensures d1.keys == Unseen({}, seen + [val])
    ensures forall k :: k in d1.entries <==> k in d1.keys
    ensures forall k :: k in d1.entries ==> d1.entries[k] == ValueEntry(k, vulns)
  {
    UnseenStep(seen, val);
  }

  /** `Unseen` grows by a value exactly when the value is new. */
  lemma UnseenStep(seen: seq<Cidr>, val: Cidr)
    ensures Unseen({}, seen + [val]) == if val in Unseen({}, seen) then Unseen({}, seen) else Unseen({}, seen) + [val]
  {
    var s1 := seen + [val];
    assert s1[..|seen|] == seen && s1[|seen|] == val;
  }

  /** Index `i` of the dictionary's keys holds an entry whose value is `supernet`. */
  ghost predicate HoldsValue(d: Dict, i: int, supernet: Cidr) {
    0 <= i < |d.keys| && d.keys[i] in d.entries && d.entries[d.keys[i]].value == supernet
  }

  /** `caption` is the label of the last entry whose value is `supernet`. */
  ghost predicate LastLabel(d: Dict, caption: string, supernet: Cidr) {
    exists i :: HoldsValue(d, i, supernet) && d.entries[d.keys[i]].caption == caption &&
      forall j :: i < j ==> !HoldsValue(d, j, supernet)
  }

  /**
   * `superLabel`: the label of the last entry whose value is the supernet, or
   * `my_pool` when there is none.
   */
  method SuperLabel(cidrDict: Dict, supernet: Cidr) returns (superLabel: string)
    requires cidrDict.Valid()
    ensures (forall i :: !HoldsValue(cidrDict, i, supernet)) ==> superLabel == NewLabel
    ensures (exists i :: HoldsValue(cidrDict, i, supernet)) ==> LastLabel(cidrDict, superLabel, supernet)
  {
    superLabel := NewLabel;
    ghost var found: Option<nat> := None;
    var i := 0;
    while i < |cidrDict.keys|
      invariant 0 <= i <= |cidrDict.keys|
      invariant found.None? ==> superLabel == NewLabel && forall j :: j < i ==> !HoldsValue(cidrDict, j, supernet)
      invariant found.Some? ==> found.value < i && HoldsValue(cidrDict, found.value, supernet)
      invariant found.Some? ==> superLabel == cidrDict.entries[cidrDict.keys[found.value]].caption
      invariant found.Some? ==> forall j :: found.value < j < i ==> !HoldsValue(cidrDict, j, supernet)
    {
      var value := cidrDict.entries[cidrDict.keys[i]];
      if value.value == supernet {
        superLabel := value.caption;
        found := Some(i);
      }
      i := i + 1;
    }
  }

  // ------------------------------------------------------------ wrapAsHierarchy

  /** The builder's answer as an object: distinct keys, each with a value. */
  ghost predicate ForestValid(f: Forest) {
    Distinct(f.keys) &&
    (forall k :: k in f.nodes <==> k in f.keys)
  }

  /** No child of a flat entry has a CIDR that is itself a key of the flat data. */
  ghost predicate Flat(f: Forest) {
    forall k, j :: k in f.nodes && 0 <= j < |f.nodes[k].children| ==> f.nodes[k].children[j].cidr !in f.nodes
  }

  /**
   * `n` is the copy `{ ...v, cidr: k }` of a flat entry, with possibly some
   * more children appended, each of them the copy of a flat entry.
   */
  ghost predicate Extends(n: TreeNode, v: TreeNode, k: Cidr, nodes: map<Cidr, TreeNode>) {
    && n.cidr == k && n.caption == v.caption && n.vuln == v.vuln
    && |v.children| <= |n.children| && n.children[..|v.children|] == v.children
    && forall j :: |v.children| <= j < |n.children| ==> n.children[j].cidr in nodes
  }

  /** Growing a copy by children that are copies of flat entries keeps it an extension of its entry. */
  lemma ExtendsGrow(n: TreeNode, m: TreeNode, v: TreeNode, k: Cidr, nodes: map<Cidr, TreeNode>)
    requires Extends(n, v, k, nodes)
    requires m.cidr == n.cidr && m.caption == n.caption && m.vuln == n.vuln
    requires |n.children| <= |m.children| && m.children[..|n.children|] == n.children
    requires forall j :: |n.children| <= j < |m.children| ==> m.children[j].cidr in nodes
    ensures Extends(m, v, k, nodes)
  {
    assert m.children[..|v.children|] == m.children[..|n.children|][..|v.children|];
    forall j | |v.children| <= j < |m.children|
      ensures m.children[j].cidr in nodes
    {
      if j < |n.children| {
        assert m.children[j] == n.children[j];
      }
    }
  }

  /**
   * The inner loop of the second pass: for each child of the entry at `key`
   * whose CIDR has a copy, that copy is appended to the children of the copy
   * at `key`. Nothing else changes.
   */
  method AdoptChildren(cidrMap: map<Cidr, TreeNode>, key: Cidr, children: seq<TreeNode>)
    returns (adopted: map<Cidr, TreeNode>)
    requires key in cidrMap
    requires forall k :: k in cidrMap ==> cidrMap[k].cidr == k
    ensures adopted.Keys == cidrMap.Keys
    ensures forall k :: k in cidrMap && k != key ==> adopted[k] == cidrMap[k]
    ensures forall k :: k in adopted ==> adopted[k].cidr == k
    ensures adopted[key].caption == cidrMap[key].caption && adopted[key].vuln == cidrMap[key].vuln
    ensures |cidrMap[key].children| <= |adopted[key].children|
    ensures adopted[key].children[..|cidrMap[key].children|] == cidrMap[key].children
    ensures forall j :: |cidrMap[key].children| <= j < |adopted[key].children| ==> adopted[key].children[j].cidr in cidrMap
    ensures (forall j :: 0 <= j < |children| ==> children[j].cidr !in cidrMap) ==> adopted == cidrMap
  {
    adopted := cidrMap;
    var j := 0;
    while j < |children|
      invariant 0 <= j <= |children|
      invariant adopted.Keys == cidrMap.Keys
      invariant forall k :: k in cidrMap && k != key ==> adopted[k] == cidrMap[k]
      invariant forall k :: k in adopted ==> adopted[k].cidr == k
      invariant adopted[key].caption == cidrMap[key].caption && adopted[key].vuln == cidrMap[key].vuln
      invariant |cidrMap[key].children| <= |adopted[key].children|
      invariant adopted[key].children[..|cidrMap[key].children|] == cidrMap[key].children
      invariant forall i :: |cidrMap[key].children| <= i < |adopted[key].children| ==> adopted[key].children[i].cidr in cidrMap
      invariant (forall i :: 0 <= i < j ==> children[i].cidr !in cidrMap) ==> adopted == cidrMap
    {
      var child := children[j];
      if child.cidr in adopted {
        var parent := adopted[key];
        var grown := parent.(children := parent.children + [adopted[child.cidr]]);
        assert grown.children[..|cidrMap[key].children|] == parent.children[..|cidrMap[key].children|];
        adopted := adopted[key := grown];
      }
      j := j + 1;
    }
  }

  /**
   * `wrapAsHierarchy(flatData, rootCidr, rootLabel)`. The builder's nodes carry
   * no `parent` field, so every copy becomes a child of the root, in key
   * order. When the flat data is flat the copies are the entries themselves
   * with `cidr` set to their key.
   */
  method WrapAsHierarchy(flatData: Forest, rootCidr: Cidr, rootLabel: string) returns (rootNode: TreeNode)
    requires ForestValid(flatData)
    ensures rootNode.cidr == rootCidr && rootNode.caption == rootLabel && rootNode.vuln == None
    ensures |rootNode.children| == |flatData.keys|
    ensures forall i :: 0 <= i < |flatData.keys| ==>
      Extends(rootNode.children[i], flatData.nodes[flatData.keys[i]], flatData.keys[i], flatData.nodes)
    ensures Flat(flatData) ==> forall i :: 0 <= i < |flatData.keys| ==>
      rootNode.children[i] == flatData.nodes[flatData.keys[i]].(cidr := flatData.keys[i])
  {
    var cidrMap := CopyEntries(flatData);
    cidrMap := AdoptAll(flatData, cidrMap);
    var keys := flatData.keys;
    assert forall j :: 0 <= j < |keys| ==> keys[j] in cidrMap;
    var children := PushCopies(keys, cidrMap);
    rootNode := TreeNode(rootCidr, rootLabel, None, children);
  }

  /** The last pass: the root's children are the copies of the entries, in key order. */
  method PushCopies(keys: seq<Cidr>, cidrMap: map<Cidr, TreeNode>) returns (children: seq<TreeNode>)
    requires forall j :: 0 <= j < |keys| ==> keys[j] in cidrMap
    ensures |children| == |keys|
    ensures forall j :: 0 <= j < |keys| ==> children[j] == cidrMap[keys[j]]
  {
    children := [];
    var i := 0;
    while i < |keys|
      invariant 0 <= i <= |keys|
      invariant |children| == i
      invariant forall j :: 0 <= j < i ==> children[j] == cidrMap[keys[j]]
    {
      children := children + [cidrMap[keys[i]]];
      i := i + 1;
    }
  }

  /** The first pass: `cidrMap[key]` is the copy `{ ...value, cidr: key }` of every entry. */
  method CopyEntries(flatData: Forest) returns (cidrMap: map<Cidr, TreeNode>)
    requires ForestValid(flatData)
    ensures forall k :: k in cidrMap <==> k in flatData.nodes
    ensures forall k :: k in cidrMap ==> cidrMap[k] == flatData.nodes[k].(cidr := k)
  {
    cidrMap := map[];
    var i := 0;
    while i < |flatData.keys|
      invariant 0 <= i <= |flatData.keys|
      invariant forall k :: k in cidrMap <==> k in flatData.keys[..i]
      invariant forall k :: k in cidrMap ==> cidrMap[k] == flatData.nodes[k].(cidr := k)
    {
      var key := flatData.keys[i];
      assert flatData.keys[..i + 1] == flatData.keys[..i] + [key];
      cidrMap := cidrMap[key := flatData.nodes[key].(cidr := key)];
      i := i + 1;
    }
    assert flatData.keys[..i] == flatData.keys;
  }

  /** The second pass: every copy adopts the copies of its entry's children, and a flat forest's copies stay as they are. */
  method AdoptAll(flatData: Forest, copies: map<Cidr, TreeNode>) returns (cidrMap: map<Cidr, TreeNode>)
    requires ForestValid(flatData)
    requires forall k :: k in copies <==> k in flatData.nodes
    requires forall k :: k in copies ==> copies[k] == flatData.nodes[k].(cidr := k)
    ensures forall k :: k in cidrMap <==> k in flatData.nodes
    ensures forall k :: k in cidrMap ==> Extends(cidrMap[k], flatData.nodes[k], k, flatData.nodes)
    ensures Flat(flatData) ==> cidrMap == copies
  {
    cidrMap := copies;
    var i := 0;
    while i < |flatData.keys|
      invariant 0 <= i <= |flatData.keys|
      invariant forall k :: k in cidrMap <==> k in flatData.nodes
      invariant forall k :: k in cidrMap ==> cidrMap[k].cidr == k
      invariant forall k :: k in cidrMap ==> Extends(cidrMap[k], flatData.nodes[k], k, flatData.nodes)
      invariant Flat(flatData) ==> cidrMap == copies
    {
      var key := flatData.keys[i];
      ghost var before := cidrMap;
      cidrMap := AdoptChildren(cidrMap, key, flatData.nodes[key].children);
      ExtendsGrow(before[key], cidrMap[key], flatData.nodes[key], key, flatData.nodes);
      i := i + 1;
    }
  }

  // ------------------------------------------------------------ row headings

  /** `cidrHeadings`: '/s' for every suffix, in order, then 'Host IP'. */
  method Headings(cidrSuffixes: seq<string>) returns (cidrHeadings: seq<string>)
    ensures |cidrHeadings| == |cidrSuffixes| + 1
    ensures forall i :: 0 <= i < |cidrSuffixes| ==> cidrHeadings[i] == "/" + cidrSuffixes[i]
    ensures cidrHeadings[|cidrSuffixes|] == "Host IP"
  {
    cidrHeadings := [];
    var i := 0;
    while i < |cidrSuffixes|
      invariant 0 <= i <= |cidrSuffixes|
      invariant |cidrHeadings| == i
      invariant forall j :: 0 <= j < i ==> cidrHeadings[j] == "/" + cidrSuffixes[j]
    {
      cidrHeadings := cidrHeadings + ["/" + cidrSuffixes[i]];
      i := i + 1;
    }
    cidrHeadings := cidrHeadings + ["Host IP"];
  }

  // ------------------------------------------------------------ widths

  /** A node of the d3 hierarchy: its data, its depth, and the width `computeWidths` gives it. */
  datatype Cell = Cell(cidr: Cidr, caption: string, vuln: Option<int>, depth: nat, width: int, children: seq<Cell>)

  function SumWidths(cs: seq<Cell>): int {
    if cs == [] then 0 else cs[0].width + SumWidths(cs[1..])
  }

  /** `d3.hierarchy` from depth `depth`, then `computeWidths`: a leaf is 30 wide, an inner node its children's total. */
  function Measure(t: TreeNode, depth: nat): Cell {
    var children := seq(|t.children|, i requires 0 <= i < |t.children| => Measure(t.children[i], depth + 1));
    Cell(t.cidr, t.caption, t.vuln, depth, if children == [] then LeafWidth else SumWidths(children), children)
  }

  function LeafCount(t: TreeNode): nat
    decreases t, |t.children| + 1
  {
    if t.children == [] then 1 else LeavesFrom(t, 0)
  }

  function LeavesFrom(t: TreeNode, i: nat): nat
    requires i <= |t.children|
    decreases t, |t.children| - i
  {
    if i == |t.children| then 0 else LeafCount(t.children[i]) + LeavesFrom(t, i + 1)
  }

  /** d3's `height`: the greatest distance from the node down to a leaf. */
  function Height(t: TreeNode): nat
    decreases t, |t.children| + 1
  {
    if t.children == [] then 0 else 1 + HeightFrom(t, 0)
  }

  function HeightFrom(t: TreeNode, i: nat): nat
    requires i <= |t.children|
    decreases t, |t.children| - i
  {
    if i == |t.children| then 0
    else
      var h := Height(t.children[i]);
      var rest := HeightFrom(t, i + 1);
      if h < rest then rest else h
  }

  /** Every width is 30 for a leaf and the sum of the children's for an inner node; children are one level deeper. */
  ghost predicate Consistent(c: Cell) {
    && c.width == (if c.children == [] then LeafWidth else SumWidths(c.children))
    && forall i :: 0 <= i < |c.children| ==> c.children[i].depth == c.depth + 1 && Consistent(c.children[i])
  }

  ghost predicate DepthsAtMost(c: Cell, h: nat) {
    c.depth <= h && forall i :: 0 <= i < |c.children| ==> DepthsAtMost(c.children[i], h)
  }

  /** `computeWidths` makes a node 30 times as wide as it has leaves below it. */
  lemma {:induction false} MeasureWidth(t: TreeNode, depth: nat)
    decreases t, |t.children| + 1
    ensures Measure(t, depth).width == LeafWidth * LeafCount(t)
  {
    if t.children != [] {
      MeasureWidthFrom(t, depth, 0);
      assert Measure(t, depth).children[0..] == Measure(t, depth).children;
    }
  }

  lemma {:induction false} MeasureWidthFrom(t: TreeNode, depth: nat, i: nat)
    requires i <= |t.children|
    decreases t, |t.children| - i
    ensures SumWidths(Measure(t, depth).children[i..]) == LeafWidth * LeavesFrom(t, i)
  {
    var cs := Measure(t, depth).children;
    if i < |t.children| {
      MeasureWidth(t.children[i], depth + 1);
      MeasureWidthFrom(t, depth, i + 1);
      assert cs[i..][1..] == cs[i + 1..];
    }
  }

  /** The measured hierarchy is consistent and starts at the given depth. */
  lemma {:induction false} MeasureConsistent(t: TreeNode, depth: nat)
    ensures Measure(t, depth).depth == depth && Consistent(Measure(t, depth))
  {
    var c := Measure(t, depth);
    forall i | 0 <= i < |c.children|
      ensures c.children[i].depth == depth + 1 && Consistent(c.children[i])
    {
      MeasureConsistent(t.children[i], depth + 1);
    }
  }

  lemma {:induction false} HeightFromBound(t: TreeNode, i: nat, j: nat)
    requires i <= j < |t.children|
    decreases j - i
    ensures Height(t.children[j]) <= HeightFrom(t, i)
  {
    if i < j {
      HeightFromBound(t, i + 1, j);
    }
  }

  /** No node of the measured hierarchy lies deeper than the root's height below it. */
  lemma {:induction false} MeasureDepths(t: TreeNode, depth: nat, h: nat)
    requires depth + Height(t) <= h
    ensures DepthsAtMost(Measure(t, depth), h)
  {
    var c := Measure(t, depth);
    forall i | 0 <= i < |c.children|
      ensures DepthsAtMost(c.children[i], h)
    {
      HeightFromBound(t, 0, i);
      MeasureDepths(t.children[i], depth + 1, h);
    }
  }

  // ------------------------------------------------------------ customTiling

  datatype Colour = Crimson | Aqua

  /** What a box shows: its CIDR unchanged, or a text the tiling wrote. */
  datatype Shown = AsCidr(cidr: Cidr) | AsText(text: string)

  /** A tiled node: what it shows, its colour, its depth and width, and its horizontal span. */
  datatype Box = Box(shown: Shown, colour: Option<Colour>, depth: nat, width: int, x0: int, x1: int, children: seq<Box>)

  /** A /30 or /31 shows its fourth dot-separated segment (the last octet and the suffix); a /32 shows "IP". */
  function Relabel(c: Cidr): Shown {
    if c.len == 30 || c.len == 31 then AsText(IntString(FourthOctet(c)) + "/" + IntString(c.len))
    else if c.len == 32 then AsText("IP")
    else AsCidr(c)
  }

  /** A /32 with a `vuln` is crimson when it is 1 and aqua otherwise. */
  function Paint(c: Cidr, vuln: Option<int>): Option<Colour> {
    if c.len == 32 && vuln.Some? then Some(if vuln.value == 1 then Crimson else Aqua) else None
  }

  /** The "Free" node added below a leaf at `depth - 1`, itself padded down to `height`. */
  function FreeBox(depth: nat, x0: int, height: nat): Box
    decreases height - depth
  {
    Box(AsText("Free"), None, depth, LeafWidth, x0, x0 + LeafWidth,
      if depth < height then [FreeBox(depth + 1, x0, height)] else [])
  }

  /**
   * `customTiling(node, x0, ·)` with `dataHeight` = `height`: the node is
   * relabelled, a leaf above `height` gets a "Free" child, the node spans
   * [x0, x0 + width), and the children are placed left to right.
   */
  function Tile(c: Cell, x0: int, height: nat): Box
    decreases c, |c.children| + 1
  {
    var kids :=
      if c.children == [] then (if c.depth < height then [FreeBox(c.depth + 1, x0, height)] else [])
      else TileFrom(c, 0, x0, height);
    Box(Relabel(c.cidr), Paint(c.cidr, c.vuln), c.depth, c.width, x0, x0 + c.width, kids)
  }

  /** The children from index `i` on, the first of them placed at `x`. */
  function TileFrom(c: Cell, i: nat, x: int, height: nat): seq<Box>
    requires i <= |c.children|
    decreases c, |c.children| - i
  {
    if i == |c.children| then []
    else [Tile(c.children[i], x, height)] + TileFrom(c, i + 1, x + c.children[i].width, height)
  }

  /** The children of a box abut left to right and exactly fill its span, all the way down. */
  ghost predicate Tiles(b: Box) {
    && b.x1 == b.x0 + b.width
    && (b.children != [] ==> b.children[0].x0 == b.x0 && b.children[|b.children| - 1].x1 == b.x1)
    && (forall i :: 0 <= i < |b.children| - 1 ==> b.children[i].x1 == b.children[i + 1].x0)
    && forall i :: 0 <= i < |b.children| ==> Tiles(b.children[i])
  }

  /** Every leaf of a box lies at depth `h`. */
  ghost predicate LeavesAt(b: Box, h: nat) {
    (b.children == [] ==> b.depth == h) && forall i :: 0 <= i < |b.children| ==> LeavesAt(b.children[i], h)
  }

  lemma {:induction false} FreeBoxShape(depth: nat, x0: int, height: nat)
    requires depth <= height
    decreases height - depth
    ensures Tiles(FreeBox(depth, x0, height)) && LeavesAt(FreeBox(depth, x0, height), height)
  {
    if depth < height {
      FreeBoxShape(depth + 1, x0, height);
    }
  }

  /** Tiling keeps the widths: each box spans its cell's width, and its children fill it exactly. */
  lemma {:induction false} TileTiles(c: Cell, x0: int, height: nat)
    requires Consistent(c)
    decreases c, |c.children| + 1
    ensures Tile(c, x0, height).x0 == x0 && Tile(c, x0, height).width == c.width
    ensures Tiles(Tile(c, x0, height))
  {
    if c.children == [] {
      if c.depth < height {
        FreeBoxShape(c.depth + 1, x0, height);
      }
    } else {
      TileFromTiles(c, 0, x0, height);
      assert c.children[0..] == c.children;
      AbutsIndexed(TileFrom(c, 0, x0, height), x0, x0 + c.width);
    }
  }

  /** Boxes that are each tiled and abut left to right, spanning [x, end). */
  ghost predicate Abuts(bs: seq<Box>, x: int, end: int)
    decreases |bs|
  {
    if bs == [] then x == end
    else Tiles(bs[0]) && bs[0].x0 == x && Abuts(bs[1..], bs[0].x1, end)
  }

  /** `Abuts` spelled out index by index, as `Tiles` states it for a box's children. */
  lemma {:induction false} AbutsIndexed(bs: seq<Box>, x: int, end: int)
    requires Abuts(bs, x, end)
    decreases |bs|
    ensures forall k :: 0 <= k < |bs| ==> Tiles(bs[k])
    ensures bs != [] ==> bs[0].x0 == x && bs[|bs| - 1].x1 == end
    ensures forall k :: 0 <= k < |bs| - 1 ==> bs[k].x1 == bs[k + 1].x0
  {
    if bs != [] {
      var rest := bs[1..];
      AbutsIndexed(rest, bs[0].x1, end);
      forall k | 0 < k < |bs|
        ensures Tiles(bs[k])
      {
        assert bs[k] == rest[k - 1];
      }
      forall k | 0 < k < |bs| - 1
        ensures bs[k].x1 == bs[k + 1].x0
      {
        assert bs[k] == rest[k - 1] && bs[k + 1] == rest[k];
      }
      if rest != [] {
        assert bs[|bs| - 1] == rest[|rest| - 1];
        assert bs[1] == rest[0];
      }
    }
  }

  lemma {:induction false} TileFromTiles(c: Cell, i: nat, x: int, height: nat)
    requires Consistent(c) && i <= |c.children|
    decreases c, |c.children| - i
    ensures |TileFrom(c, i, x, height)| == |c.children| - i
    ensures Abuts(TileFrom(c, i, x, height), x, x + SumWidths(c.children[i..]))
  {
    if i < |c.children| {
      var child := c.children[i];
      var first := Tile(child, x, height);
      var rest := TileFrom(c, i + 1, x + child.width, height);
      TileTiles(child, x, height);
      TileFromTiles(c, i + 1, x + child.width, height);
      var bs := TileFrom(c, i, x, height);
      assert bs == [first] + rest;
      assert bs[0] == first && bs[1..] == rest;
      SumWidthsFrom(c.children, i);
    } else {
      assert c.children[i..] == [];
    }
  }

  lemma SumWidthsFrom(cs: seq<Cell>, i: nat)
    requires i < |cs|
    ensures SumWidths(cs[i..]) == cs[i].width + SumWidths(cs[i + 1..])
  {
    assert cs[i..][1..] == cs[i + 1..];
  }

  /** Tiling pads every leaf above `height` with "Free" nodes down to `height`. */
  lemma {:induction false} TilePadded(c: Cell, x0: int, height: nat)
    requires DepthsAtMost(c, height)
    decreases c, |c.children| + 1
    ensures LeavesAt(Tile(c, x0, height), height)
  {
    if c.children == [] {
      if c.depth < height {
        FreeBoxShape(c.depth + 1, x0, height);
      }
    } else {
      TileFromPadded(c, 0, x0, height);
    }
  }

  lemma {:induction false} TileFromPadded(c: Cell, i: nat, x: int, height: nat)
    requires DepthsAtMost(c, height) && i <= |c.children|
    decreases c, |c.children| - i
    ensures forall k :: 0 <= k < |TileFrom(c, i, x, height)| ==> LeavesAt(TileFrom(c, i, x, height)[k], height)
  {
    if i < |c.children| {
      var child := c.children[i];
      TilePadded(child, x, height);
      TileFromPadded(c, i + 1, x + child.width, height);
    }
  }

  /** Only hosts (/32) show "IP", and only hosts with a `vuln` are coloured: crimson exactly when it is 1. */
  lemma TileLabels(c: Cell, x0: int, height: nat)
    ensures var b := Tile(c, x0, height);
      && (b.shown == AsText("IP") <==> c.cidr.len == 32)
      && (c.cidr.len == 30 || c.cidr.len == 31 ==>
            b.shown == AsText(IntString(FourthOctet(c.cidr)) + "/" + IntString(c.cidr.len)))
      && (c.cidr.len < 30 ==> b.shown == AsCidr(c.cidr))
      && (b.colour.Some? <==> c.cidr.len == 32 && c.vuln.Some?)
      && (b.colour == Some(Crimson) <==> c.cidr.len == 32 && c.vuln == Some(1))
  {
    if c.cidr.len == 30 || c.cidr.len == 31 {
      assert |Relabel(c.cidr).text| >= 4;
    }
  }

  /**
   * The whole layout of a wrapped tree: the root spans 30 units per leaf from
   * x = 0, every box's children fill its span, and every leaf lies at the
   * tree's height.
   */
  lemma Layout(t: TreeNode)
    ensures var b := Tile(Measure(t, 0), 0, Height(t));
      b.x0 == 0 && b.x1 == LeafWidth * LeafCount(t) && Tiles(b) && LeavesAt(b, Height(t))
  {
    MeasureWidth(t, 0);
    MeasureConsistent(t, 0);
    MeasureDepths(t, 0, Height(t));
    TileTiles(Measure(t, 0), 0, Height(t));
    TilePadded(Measure(t, 0), 0, Height(t));
  }
}
