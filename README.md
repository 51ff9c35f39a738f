# NSE virtual-network visualisations, modelled in Dafny

NSE_Repo has two small web applications over a Neo4j graph of network data.

**D3 visualisation (`vnD3Visualization`).** It draws the address plan of a supernet as a treemap.
- The client turns the database's CIDR blocks into a dictionary `cidrDict` and posts it with the supernet.
- The server's `buildCIDRTreemap` fills in every nested subnet from the supernet's prefix down to /31.
- It sorts the dictionary by prefix length, then by third octet, then by fourth octet.
- It inserts every entry that lies inside the supernet below its most specific container.
- It returns the root's children as a flat object, together with the list of suffixes.
- The client then:
  - wraps that answer in a root node;
  - gives every leaf a width of 30 and every inner node the sum of its children's widths;
  - relabels /30, /31 and /32 blocks, and colours hosts by their `vuln` flag;
  - pads short branches with "Free" nodes down to the tree's height;
  - lays the boxes out left to right.

**Cytoscape visualisation (`vnCytoscapeVisualization`).** It browses the graph by expansion and collapse.
- The server keeps a graphlib mirror of what the client shows, `virtualNetwork`.
- `populateVirtualNetwork` adds elements to the mirror and `collapseVirtualNetwork` removes them.
- `getVirtualNetworkData` lists the mirror as Cytoscape elements.
- `populateExpandedData` places the neighbours of an expanded IP node under compound nodes.
- `getNodeData` builds node labels and details from Neo4j properties.
- The client keeps three globals:
  - `displayedNodeIDs`;
  - `neighborSets`, the neighbours each expansion added;
  - `expandedNodes`, in insertion order.
- `expandNodes` grows the graph. `collapseNodesAndRecursiveNodes` tears an expansion down, recursively through the neighbours that were themselves expanded.
- `calculateCVSSSeverity` rates a CVE's base score.

The D3 server keeps the same graphlib mirror, with two more node fields (`hosts`, `vulns`), and de-duplicates query records with `processDuplicates`.

## Modules

- `wrappers.dfy`: `Option`, `Result` and `Distinct`, the no-repetition condition of every ordered collection.
- `text.dfy`: `String(n)` for integers.
- `js_value.dfy`: the JavaScript values the code compares (`undefined`, `null`, strings, numbers, arrays), with truthiness, `||` and `String(v)`.
- `ipv4.dfy`: addresses as unsigned 32-bit numbers and CIDR blocks.
  - Also `ip2long` with JavaScript's signed 32-bit shifts, and `incrementIP` with `>>>`.
  - Also `isInSubnet` as written, and the blocks' start and end as the `ip-cidr` package computes them.
- `subnets.dfy`: `createSubnets` and `generateNestedSubnets`.
- `cidr_dict.dfy`: the insertion-ordered `cidrDict`, its fill loop, `delete`, and the comparator handed to `Array.prototype.sort`.
- `cidr_tree.dfy`: `insertIntoTree`, the build loop, the promotion of the root's children, and `buildCIDRTreemap` as a whole.
- `dedup.dfy`: `processDuplicates`.
- `graph_mirror.dfy`: the graphlib mirror as a class `Mirror`, with populate, collapse and listing.
- `expansion.dfy`: `populateExpandedData` and `getNodeData`. The latter's implicit globals are the class `NodeDataGlobals`.
- `severity.dfy`: `calculateCVSSSeverity` and the `parseFloat(x) || 0.0` feeding it.
- `client_state.dfy`: the Cytoscape client's bookkeeping as a class `Session`. It is proved against a value-level specification: `Expanded` and `TearDown` of `Collapsed`.
- `treemap_view.dfy`: the D3 client's dictionary, labels, wrapping, headings, widths and tiling.

CIDR strings are identified with their parsed (address, prefix) pairs. Operations that rewrite a JavaScript object in place are methods that return the new value. Objects and dictionaries whose methods update fields are classes, or maps and sequences held in fields.

## Model

| member | source | states |
|---|---|---|
| Dedup.ProcessDuplicates | vnD3Visualization/server.js:156-170 | the loop returns the first record of each Neo4j identity, in input order |
| Dedup.FirstOccurrencesIdentities | vnD3Visualization/server.js:156-170 | the result carries exactly the identities of the input |
| Dedup.FirstOccurrencesDistinct | vnD3Visualization/server.js:156-170 | no two results share an identity |
| Dedup.FirstOccurrencesOrigin | vnD3Visualization/server.js:156-170 | every result is an input record whose identity no earlier record has |
| IPv4.Ip2LongSigned | vnD3Visualization/server.js:314-316 | the shift-and-or reduction equals the signed 32-bit reading of the address |
| IPv4.IncrementIPAdds | vnD3Visualization/server.js:247-258 | `incrementIP` adds the increment to the address modulo 2^32 |
| IPv4.IncrementByZero | vnD3Visualization/server.js:247-258 | incrementing by 0 gives back the address |
| IPv4.FromToLong | vnD3Visualization/server.js:248-257 | splitting the packed address into octets restores the dotted quad |
| IPv4.ToFromLong | vnD3Visualization/server.js:248-257 | packing the four octets restores the 32-bit value |
| IPv4.IsInSubnetSigned | vnD3Visualization/server.js:298-311 | `isInSubnet` compares the signed readings of both blocks' first and last addresses |
| IPv4.IsInSubnetIsWithin | vnD3Visualization/server.js:298-311 | for prefixes of at least 1, `isInSubnet` holds iff the child's block lies inside the parent's |
| IPv4.SlashZeroContainsNothing | vnD3Visualization/server.js:298-316 | under `isInSubnet` a /0 parent contains exactly the /0 children: every child of prefix 1 or more is rejected, though every block lies inside it |
| IPv4.StartIndex | vnD3Visualization/server.js:235 | `start()` is the address rounded down to a multiple of the block size, and the block stays inside the 32-bit space |
| Subnets.CreateSubnets | vnD3Visualization/server.js:221-244 | fails with the "Invalid suffix" error iff the suffix is shorter than the mask, otherwise lists the block's sub-blocks of that suffix |
| Subnets.SplitProperties | vnD3Visualization/server.js:234-243 | 2^(suffix-mask) sub-blocks, each of the requested prefix, aligned and inside the block |
| Subnets.IncrementLands | vnD3Visualization/server.js:238-240 | stepping `i * 2^(32-suffix)` from the start lands on the i-th sub-block |
| Subnets.NextLevel | vnD3Visualization/server.js:267-271 | one suffix level: the concatenated splits of the current level, or the error if some block is shorter |
| Subnets.SplitAgain | vnD3Visualization/server.js:266-278 | splitting level s-1 again gives level s of the supernet |
| Subnets.GenerateNestedSubnets | vnD3Visualization/server.js:260-281 | fails iff the supernet is longer than the start suffix; otherwise all levels in order, and their suffix strings |
| Subnets.NestedInside | vnD3Visualization/server.js:260-281 | every generated subnet is an aligned block inside the supernet with a prefix in range |
| Subnets.SuffixStringsDecimal | vnD3Visualization/server.js:275-276 | `cidrSuffixes` holds `String(suffix)` for each level, in order |
| Subnets.NestedOrDisjoint | vnD3Visualization/server.js:323-333 | two blocks are nested, the longer inside the shorter, or disjoint |
| CidrDict.Fill | vnD3Visualization/server.js:287-295 | existing entries are untouched; each missing subnet is appended once, in first-occurrence order, labelled `my_pool` |
| CidrDict.UnseenExactly | vnD3Visualization/server.js:287-295 | the appended keys are exactly the unknown subnets, without repetition |
| CidrDict.Delete | vnD3Visualization/server.js:344 | `delete` removes the key; the others keep their values and order |
| CidrDict.CompareMeansKeyLe | vnD3Visualization/server.js:347-371 | the comparator's sign is the order by prefix, then third octet, then fourth octet; it is antisymmetric |
| CidrDict.CompareIgnoresHighOctets | vnD3Visualization/server.js:347-371 | keys differing only in the first two octets compare equal |
| CidrDict.KeyLeTransitive | vnD3Visualization/server.js:347-371 | the comparator's order is transitive |
| CidrDict.KeyLeTotal | vnD3Visualization/server.js:347-371 | the comparator's order is total |
| CidrDict.SortKeysSortsPermutes | vnD3Visualization/server.js:347-371 | the sorted entries are ordered by the comparator and are a permutation of the dictionary's |
| CidrDict.SortKeysStable | vnD3Visualization/server.js:347-371 | keys the comparator ties keep their dictionary order |
| CidrTree.FindMostSpecificParent | vnD3Visualization/server.js:320-333 | picks the containing child with the longest prefix, the first on ties, or none |
| CidrTree.MostSpecificUpTo | vnD3Visualization/server.js:323-333 | the choice contains the entry, is no shorter than any containing child, and is strictly longer than earlier containing children |
| CidrTree.InsertIntoTree | vnD3Visualization/server.js:319-341 | the recursion produces the tree `Insert` specifies |
| CidrTree.InsertAddsEntry | vnD3Visualization/server.js:319-341 | insertion adds exactly the new entry below the node |
| CidrTree.InsertContained | vnD3Visualization/server.js:319-341 | every node stays inside its parent when the entry lies inside the root |
| CidrTree.InsertDisjoint | vnD3Visualization/server.js:319-341 | inserting prefixes no shorter than those present keeps siblings disjoint |
| CidrTree.BuildTree | vnD3Visualization/server.js:374-379 | the build loop inserts, in sorted order, exactly the entries inside the supernet |
| CidrTree.ChosenExactly | vnD3Visualization/server.js:374-379 | an entry is inserted iff its value lies inside the supernet |
| CidrTree.InsertAllContained | vnD3Visualization/server.js:374-379 | inserting entries that lie inside the root keeps every node inside its parent |
| CidrTree.InsertAllBelow | vnD3Visualization/server.js:374-379 | the built tree holds exactly the original entries plus the inserted ones, as a multiset |
| CidrTree.InsertAllDisjoint | vnD3Visualization/server.js:374-379 | inserting by non-decreasing prefix keeps every node's children disjoint |
| CidrTree.BuildContents | vnD3Visualization/server.js:374-379 | from the root, the tree holds exactly the chosen entries, each inside its parent |
| CidrTree.Promote | vnD3Visualization/server.js:381-388 | one key per distinct child CIDR, in first-occurrence order; each value is the last child with that CIDR |
| CidrTree.UnseenDistinct | vnD3Visualization/server.js:381-388 | with distinct CIDRs every root child is promoted, in order |
| CidrTree.FilledThenDeleted | vnD3Visualization/server.js:287-344 | after the fill and `delete cidrDict[supernet]`, the caller's entries stay and the new ones are `my_pool` subnets |
| CidrTree.BuildCidrTreemap | vnD3Visualization/server.js:203-390 | the suffix strings; the mutated dictionary; a root whose subtree is exactly the sorted entries inside the supernet, each inside its parent; the promoted root children; when every entry is keyed by its own value, no key is a /0 and the supernet is at least a /1, siblings are disjoint and every node's children follow the comparator (prefix, then third octet, then fourth octet) |
| CidrTree.InsertOrdered | vnD3Visualization/server.js:319-341 | inserting an entry no smaller than any block in the tree keeps every node's children in comparator order |
| CidrTree.InsertAllOrdered | vnD3Visualization/server.js:374-379 | inserting entries in comparator order keeps every node's children in that order |
| CidrTree.ChosenInOrder | vnD3Visualization/server.js:347-379 | the entries the build loop inserts come from the sorted keys, in comparator order, and none is a /0 |
| CidrTree.UpdatedKeyed | vnD3Visualization/server.js:283-295 | the fill loop adds only blocks of the supernet keyed by their own value, so a dictionary keyed by value stays so |
| CidrTree.InsertAllShape | vnD3Visualization/server.js:374-379 | inserting blocks of prefix 1 or more in comparator order under a fresh root gives disjoint, ordered siblings |
| CidrTree.BuildShape | vnD3Visualization/server.js:203-379 | the tree the builder grows has disjoint siblings in comparator order |
| JsValue.Or | vnCytoscapeVisualization/server.js:240 | JavaScript's logical or yields its left operand when truthy, else its right one |
| GraphMirror.SetEdge | vnCytoscapeVisualization/server.js:289-296 | sets the edge and creates missing endpoints without a label; other nodes are unchanged |
| GraphMirror.ApplyAllValid | vnCytoscapeVisualization/server.js:284-309 | populating keeps edges between nodes and stores `parent` only when truthy |
| GraphMirror.ApplyAllLastWins | vnCytoscapeVisualization/server.js:284-309 | a node holds the label of the last node element with its id |
| GraphMirror.Mirror.Populate | vnCytoscapeVisualization/server.js:279-314 | an array is applied element by element; anything else leaves the mirror alone |
| GraphMirror.CollapseAllEffect | vnCytoscapeVisualization/server.js:247-268 | the named nodes go with all their edges, and the named edges go; nothing else changes |
| GraphMirror.CollapseAbsent | vnCytoscapeVisualization/server.js:247-268 | naming only elements the mirror lacks changes nothing |
| GraphMirror.Mirror.Collapse | vnCytoscapeVisualization/server.js:247-268 | `collapseVirtualNetwork` applies the removals in order |
| GraphMirror.ListNodes | vnCytoscapeVisualization/server.js:389-403 | fails iff some node has no label; otherwise one element per node, `parent` only when truthy |
| GraphMirror.ListEdges | vnCytoscapeVisualization/server.js:406-415 | one element per edge, its type as `label` |
| GraphMirror.Mirror.GetData | vnCytoscapeVisualization/server.js:384-423 | fails iff a node lacks a label; otherwise nodes, then edges |
| GraphMirror.ListingNodes | vnCytoscapeVisualization/server.js:389-403 | the first part of the listing is the nodes, in graphlib order, never edges |
| GraphMirror.ListingEdges | vnCytoscapeVisualization/server.js:406-415 | the rest is the edges, each an edge element with its type |
| GraphMirror.EnumerationSize | vnCytoscapeVisualization/server.js:389 | a repetition-free enumeration of the nodes has one entry per node |
| GraphMirror.RoundTrip | vnCytoscapeVisualization/server.js:279-423 | populating an empty mirror with a listing restores every edge and every node with a truthy type |
| GraphMirror.RoundTripTyped | vnCytoscapeVisualization/server.js:279-423 | when all nodes are typed, the round trip restores the mirror exactly |
| Expansion.DetectVulnerabilityData | vnCytoscapeVisualization/server.js:326-334 | the flag is set iff some element is a Vulnerability, NetworkService or CVE |
| Expansion.AssignParents | vnCytoscapeVisualization/server.js:337-351 | skipped elements are unchanged; the others get the vulnerability compound iff flagged and vulnerability-related, else the main compound |
| Expansion.PopulateExpandedData | vnCytoscapeVisualization/server.js:316-381 | the mirror receives the grouped elements and the compound nodes for an IP seed, and the answer unchanged otherwise |
| Expansion.CompoundPlacement | vnCytoscapeVisualization/server.js:353-374 | the vulnerability compound (only when flagged, under the main one) comes before the main compound, which has no parent |
| Expansion.ParentsExist | vnCytoscapeVisualization/server.js:341-374 | every parent the second pass writes is a Compound node the pass appends |
| Expansion.SkippedKeepParent | vnCytoscapeVisualization/server.js:341 | the seed, IP nodes and edges keep their parent |
| Expansion.NumericIdsNeverMatchSeed | vnCytoscapeVisualization/server.js:341 | a numeric id never equals the seed string under `===` |
| Expansion.CompoundNodeStored | vnCytoscapeVisualization/server.js:367-380 | after an IP expansion the mirror holds `compound-{seed}` as a Compound without parent |
| Expansion.CompoundIdsDiffer | vnCytoscapeVisualization/server.js:322-323 | main and vulnerability compound ids never clash |
| Expansion.ToFixed | vnCytoscapeVisualization/server.js:240 | `toFixed(1)` succeeds on numbers only, writing the integer with ".0" |
| Expansion.NodeDataFallbacks | vnCytoscapeVisualization/server.js:202-245 | only Node and CVE can throw; labels of types other than Subnet are truthy; details are `null` exactly for IP and Host |
| Expansion.NodeDataGlobals.GetNodeData | vnCytoscapeVisualization/server.js:202-245 | returns the label and details per type, or the error; the implicit globals keep values from earlier calls for unlisted types |
| Severity.CvssSeverity | vnCytoscapeVisualization/public/app.js:591-603 | each rating holds exactly on its score interval |
| Severity.Unrated | vnCytoscapeVisualization/public/app.js:591-603 | no rating iff the score is negative, strictly between 0 and 0.1, or above 10 |
| Severity.Monotone | vnCytoscapeVisualization/public/app.js:591-603 | a higher score never gets a lower rating |
| Severity.OneDecimalScoresRated | vnCytoscapeVisualization/public/app.js:591-603 | every one-decimal score from 0.0 to 10.0 gets a rating |
| Severity.RiskScore | vnCytoscapeVisualization/public/app.js:325 | `NaN` becomes 0, a number stays |
| Severity.UnparsableIsNone | vnCytoscapeVisualization/public/app.js:325 | details that do not parse rate as NONE |
| ClientState.Received | vnCytoscapeVisualization/public/app.js:248-251 | a received element keeps its id and has no `group` |
| ClientState.ListingReceivable | vnCytoscapeVisualization/server.js:384-423 | every element of the mirror's listing has a string id |
| ClientState.Session.constructor | vnCytoscapeVisualization/public/app.js:196-209 | the initial elements are in the graph and every non-empty id is displayed; nothing is expanded |
| ClientState.Session.DoubleTap | vnCytoscapeVisualization/public/app.js:215-235 | nothing for undisplayed nodes; collapse for expanded ones; expansion otherwise |
| ClientState.Session.Expand | vnCytoscapeVisualization/public/app.js:237-446 | a failed fetch changes nothing; otherwise the new state is `Expanded` and stays valid |
| ClientState.Session.GroupUnderCompounds | vnCytoscapeVisualization/public/app.js:278-341 | the IP branch adds the compounds and the seed, and regroups the neighbours by the client's rule |
| ClientState.Session.RecursiveCollapse | vnCytoscapeVisualization/public/app.js:453-517 | an expanded id tears down everything its collapse reaches; any other id changes nothing |
| ClientState.Session.ForgetDisplayed | vnCytoscapeVisualization/public/app.js:511-513 | the neighbours' ids leave `displayedNodeIDs` |
| ClientState.Session.Collapse | vnCytoscapeVisualization/public/app.js:448-570 | both the recursive path and the last-node shortcut tear down what a collapse of the node reaches |
| ClientState.Unshown | vnCytoscapeVisualization/public/app.js:256 | keeps exactly the elements whose id is not displayed |
| ClientState.NeighborsOf | vnCytoscapeVisualization/public/app.js:261 | keeps exactly the elements other than the seed outside the 'edges' group |
| ClientState.LinkingEdges | vnCytoscapeVisualization/public/app.js:266-273 | keeps exactly the edges from the seed to a neighbour or between two neighbours |
| ClientState.ExpandedNeighborIds | vnCytoscapeVisualization/public/app.js:255-273 | the recorded neighbours are exactly the unshown non-edge elements other than the seed |
| ClientState.ClientGrouping | vnCytoscapeVisualization/public/app.js:311-319 | grouping changes only parents, by the client's rule |
| ClientState.ExpandValid | vnCytoscapeVisualization/public/app.js:237-446 | an expansion keeps the bookkeeping valid |
| ClientState.ExpandFacts | vnCytoscapeVisualization/public/app.js:343-349 | the seed is appended to `expandedNodes`; its set is the fresh neighbours; graph ids are displayed; nothing shrinks; other sets stay |
| ClientState.NoGroupNoLinkingEdges | vnCytoscapeVisualization/public/app.js:261-273 | elements without a `group` never count as edges, so edges become neighbours |
| ClientState.ClientRuleStricter | vnCytoscapeVisualization/public/app.js:289-293 | when the client makes a vulnerability compound, the server's rule does too |
| ClientState.RulesDiverge | vnCytoscapeVisualization/public/app.js:289-293 | a lone NetworkService neighbour triggers the server's compound but not the client's |
| ClientState.CollapsedAfter | vnCytoscapeVisualization/public/app.js:453-470 | a collapse reaches only nodes expanded after it, so the recursion terminates |
| ClientState.CollapsedClosed | vnCytoscapeVisualization/public/app.js:461-470 | what a collapse reaches holds every expanded neighbour of its members |
| ClientState.ClosedContains | vnCytoscapeVisualization/public/app.js:461-470 | it is the least such set containing the node |
| ClientState.PruneCollapsed | vnCytoscapeVisualization/public/app.js:461-470 | after an inner collapse, a collapse reaches what it did before, minus the torn-down set |
| ClientState.TearDownCompose | vnCytoscapeVisualization/public/app.js:461-481 | tearing down two sets one after the other equals tearing down their union |
| ClientState.HandleStep | vnCytoscapeVisualization/public/app.js:461-481 | one reverse-loop step (collapse if expanded, then remove) keeps the loop invariant |
| ClientState.HandledFinish | vnCytoscapeVisualization/public/app.js:483-516 | after the loop, the clean-up completes the teardown of the whole collapse |
| ClientState.LastCollapsesAlone | vnCytoscapeVisualization/public/app.js:519-570 | the last expanded node reaches nothing else, so the shortcut is sound |
| ClientState.CollapseValid | vnCytoscapeVisualization/public/app.js:453-517 | a collapse keeps the bookkeeping valid |
| ClientState.CollapseFacts | vnCytoscapeVisualization/public/app.js:453-517 | the node and its expanded neighbours leave `expandedNodes` and `neighborSets`; neighbours leave `displayedNodeIDs`; the node stays displayed |
| ClientState.ExpandThenCollapse | vnCytoscapeVisualization/public/app.js:237-517 | expanding and then collapsing restores `neighborSets` and `expandedNodes` and loses no displayed id |
| ClientState.ListedCompoundForgotten | vnCytoscapeVisualization/public/app.js:255-273 | a `compound-{seed}` the server lists and the client has not displayed is recorded as a neighbour of the seed, so collapsing the seed deletes it from `displayedNodeIDs` |
| TreemapView.BuildCidrDict | vnD3Visualization/public/app.js:71-89 | one entry per distinct value, in first-occurrence order, labelled `neo4j`, `vuln` 1 iff listed in `vulns` |
| TreemapView.SuperLabel | vnD3Visualization/public/app.js:91-98 | the label of the last entry whose value is the supernet, else `my_pool` |
| TreemapView.WrapAsHierarchy | vnD3Visualization/public/app.js:129-171 | a root with one copy per key, in key order; each copy extends its entry; flat answers are copied exactly |
| TreemapView.CopyEntries | vnD3Visualization/public/app.js:147-150 | each key maps to `{...value, cidr: key}` |
| TreemapView.AdoptAll | vnD3Visualization/public/app.js:153-161 | each copy gains only children that are copies of keys; a flat answer is left as it was |
| TreemapView.AdoptChildren | vnD3Visualization/public/app.js:155-159 | only the copy at the key grows, by appending; no matching child means no change |
| TreemapView.PushCopies | vnD3Visualization/public/app.js:163-168 | the root's children are the copies, one per key, in key order |
| TreemapView.ExtendsGrow | vnD3Visualization/public/app.js:139-142 | appending copies of keys keeps a copy an extension of its entry |
| TreemapView.Headings | vnD3Visualization/public/app.js:176-185 | '/s' for each suffix in order, then 'Host IP' |
| TreemapView.MeasureWidth | vnD3Visualization/public/app.js:199-215 | every node is 30 units wide per leaf below it |
| TreemapView.MeasureConsistent | vnD3Visualization/public/app.js:194-215 | leaves are 30 wide, inner nodes the sum of their children, and children one level deeper |
| TreemapView.MeasureDepths | vnD3Visualization/public/app.js:194-197 | no node lies deeper than `root.height` |
| TreemapView.TileTiles | vnD3Visualization/public/app.js:306-321 | each box spans its width from its x0, and its children abut and fill it exactly |
| TreemapView.TileFromTiles | vnD3Visualization/public/app.js:313-320 | the children are placed left to right from the parent's x0, each tiled, abutting, and together as wide as the sum of their widths |
| TreemapView.FreeBoxShape | vnD3Visualization/public/app.js:279-304 | a Free chain fills its slot down to the tree's height |
| TreemapView.TilePadded | vnD3Visualization/public/app.js:279-304 | after padding every leaf lies at the tree's height |
| TreemapView.TileLabels | vnD3Visualization/public/app.js:224-253 | only /32 shows "IP"; /30 and /31 show their last segment; only /32 with a `vuln` is coloured, crimson iff 1 |
| TreemapView.Layout | vnD3Visualization/public/app.js:194-324 | the root spans 30 units per leaf from 0, every box is filled by its children, and all leaves reach the tree's height |

## Left out

- Neo4j queries (`getInitialData`, `getInitialCIDRNotation`, `getNeighborNodes`), HTTP routes, `fetch` and response parsing. Their results are parameters: the client's answer from `/api/virtualNetwork` is an `Option` that is `None` when the fetch fails.
- The un-awaited `POST /api/collapse` of a collapse is not modelled on the client. `/api/collapse` never answers, and the order of concurrent requests is not modelled.
- `saveVirtualNetwork` and `loadVirtualNetwork` (file I/O), the SVG text, tooltips, zoom and Cytoscape layouts are left out.
- `rowHeight` and all y coordinates are floating-point values. Only the integer x coordinates and widths are modelled.
- Parsing and printing dotted-quad strings is left out. `createSubnets`' "Invalid CIDR" error for a malformed address therefore cannot arise.
- graphlib's node and edge enumeration orders are parameters, constrained only to list every key once.
- The client's graph is modelled as a set of element ids. Cytoscape's removal of the edges of a removed node is not modelled, and adding an element whose id is already present is a no-op.
- ClientState.Session.Collapse: removing `compound-{x}` or `vulnerability-compound-{x}` in Cytoscape also removes every node placed under it (app.js:491-501, 544-553). The model removes only the compound's own id. Nodes placed under a compound by a reload or by a non-IP expansion therefore stay in the model's graph.
- ClientState.Session.Expand: Cytoscape does not create an edge whose endpoint is absent, so that edge's id never reaches `displayedNodeIDs` (app.js:437-441). The model adds every received id, so such an edge counts as displayed. A later expansion then records it as a neighbour in the source but not in the model.
- CidrTree.BuildCidrTreemap: sibling disjointness and child order are not promised when some key is a /0 or the supernet is a /0. When the supernet starts at 0.0.0.0, a /0 entry can be chosen, and it then overlaps its siblings.
- The risk value the client writes onto the seed (`cyNode.data('value', …)`) is not part of the client state. The rating itself is `Severity.CvssSeverity`.
- `toFixed(1)` is modelled for integer scores only. Non-integer scores need floating-point rounding.
- `JsValue` has no booleans or objects. The code never compares those values.
- `Array.prototype.sort` is modelled as a stable insertion sort, which the ECMAScript standard requires since 2019.
- The `delete child.cidr` of the promotion loop only touches the discarded tree, so it has no modelled effect.
- The files under `spares/` are not part of this model.
- TreemapView.WrapAsHierarchy: the JavaScript copies share their `children` arrays with the flat answer, so a child appended to one copy is visible through every alias. The model copies by value. Its exact result is stated only for a flat answer (no child CIDR is itself a key). For other answers it states only that each copy extends its entry.
- Not proved: that the builder's answer is flat, which holds whenever every dictionary entry's value is its own key.
- TreemapView.Tile: the source tiles each "Free" node twice, once when it is created and again in its parent's loop. The second pass finds it already padded and writes the same coordinates, so the model tiles it once.
- ClientState.Session.Expand: `displayedNodeIDs` is keyed by `String(id)`. The model keeps ids as strings, so numeric ids are not distinguished from their decimal strings.

## Example

For supernet 10.0.0.0/30 with the single host 10.0.0.1/32, the code builds this tree:

- `generateNestedSubnets` stops at /31, so both /31 blocks become root children.
- The host goes under 10.0.0.0/31.
- The only "Free" node pads the empty 10.0.0.2/31 down to the tree's height.
