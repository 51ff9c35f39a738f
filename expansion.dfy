/**
 * The Cytoscape server's side of expanding a node: `populateExpandedData`
 * groups the adapter's neighbour elements under synthetic compound nodes and
 * writes them into the mirror, and `getNodeData` turns a Neo4j node's type
 * and properties into the label and details the elements carry.
 */
module Expansion {
  import opened Wrappers
  import opened Text
  import opened JsValue
  import opened GraphMirror

  // ------------------------------------------------------------ populateExpandedData

  /** The types whose presence sets `hasVulnerabilityData`. */
  predicate SignalsVulnerability(kind: Value) {
    kind == Str("Vulnerability") || kind == Str("NetworkService") || kind == Str("CVE")
  }

  /** The types placed under the vulnerability compound when there is one. */
  predicate VulnerabilityRelated(kind: Value) {
    SignalsVulnerability(kind) || kind == Str("SoftwareVersion")
  }

  function CompoundId(seed: string): string {
    "compound-" + seed
  }

  function VulnerabilityCompoundId(seed: string): string {
    "vulnerability-compound-" + seed
  }

  lemma CompoundIdsDiffer(a: string, b: string)
    ensures CompoundId(a) != VulnerabilityCompoundId(b)
  {
    assert CompoundId(a)[0] == 'c' && VulnerabilityCompoundId(b)[0] == 'v';
  }

  /** The first pass over the adapter's elements. */
  method DetectVulnerabilityData(expandedData: seq<ElementData>) returns (has: bool)
    ensures has <==> exists i :: 0 <= i < |expandedData| && SignalsVulnerability(expandedData[i].kind)
  {
    has := false;
    var i := 0;
    while i < |expandedData|
      invariant 0 <= i <= |expandedData|
      invariant has <==> exists j :: 0 <= j < i && SignalsVulnerability(expandedData[j].kind)
    {
      if SignalsVulnerability(expandedData[i].kind) {
        has := true;
      }
      i := i + 1;
    }
  }

  /**
   * The elements the second pass leaves alone: the seed (compared strictly
   * with the route's string parameter), IP nodes and edges.
   */
  predicate KeepsParent(e: ElementData, seed: string) {
    StrictEq(e.id, Str(seed)) || e.kind == Str("IP") || e.source != Undefined
  }

  /** The parent the second pass writes into an element it does not skip. */
  function GroupParent(e: ElementData, seed: string, has: bool): Value {
    if has && VulnerabilityRelated(e.kind) then Str(VulnerabilityCompoundId(seed)) else Str(CompoundId(seed))
  }

  /** The second pass, which rewrites `element.data.parent` in place. */
  method AssignParents(expandedData: seq<ElementData>, seed: string, has: bool) returns (r: seq<ElementData>)
    ensures |r| == |expandedData|
    ensures forall i :: 0 <= i < |r| && KeepsParent(expandedData[i], seed) ==> r[i] == expandedData[i]
    ensures forall i :: 0 <= i < |r| && !KeepsParent(expandedData[i], seed) ==>
      r[i] == expandedData[i].(parent := r[i].parent) &&
      (r[i].parent == Str(VulnerabilityCompoundId(seed)) <==> has && VulnerabilityRelated(expandedData[i].kind)) &&
      (r[i].parent == Str(CompoundId(seed)) <==> !(has && VulnerabilityRelated(expandedData[i].kind)))
  {
    r := expandedData;
    var i := 0;
    while i < |r|
      invariant 0 <= i <= |r| == |expandedData|
      invariant forall j :: i <= j < |r| ==> r[j] == expandedData[j]
      invariant forall j :: 0 <= j < i ==>
        r[j] == (if KeepsParent(expandedData[j], seed) then expandedData[j]
                 else expandedData[j].(parent := GroupParent(expandedData[j], seed, has)))
    {
      var element := r[i];
      if !KeepsParent(element, seed) {
        if has && VulnerabilityRelated(element.kind) {
          r := r[i := element.(parent := Str(VulnerabilityCompoundId(seed)))];
        } else {
          r := r[i := element.(parent := Str(CompoundId(seed)))];
        }
      }
      i := i + 1;
    }
    forall i | 0 <= i < |r| && !KeepsParent(expandedData[i], seed)
      ensures r[i].parent == Str(VulnerabilityCompoundId(seed)) <==> has && VulnerabilityRelated(expandedData[i].kind)
    {
      CompoundIdsDiffer(seed, seed);
    }
  }

  /** The Compound nodes appended after the second pass. */
  function Compounds(seed: string, has: bool): seq<ElementData> {
    var main := ElementData(Str(CompoundId(seed)), Undefined, Undefined,
      Str("Compound Node for " + seed), Str("Compound"), Undefined, Null, Undefined, Undefined);
    if has then
      [ElementData(Str(VulnerabilityCompoundId(seed)), Undefined, Undefined,
         Str("Vulnerability Compound for " + seed), Str("Compound"), Str(CompoundId(seed)), Null, Undefined, Undefined),
       main]
    else [main]
  }

  /** The adapter's elements with their parents assigned, as `AssignParents` leaves them. */
  function Grouped(expandedData: seq<ElementData>, seed: string, has: bool): (r: seq<ElementData>)
    ensures |r| == |expandedData|
  {
    if expandedData == [] then []
    else
      var e := expandedData[|expandedData| - 1];
      Grouped(expandedData[..|expandedData| - 1], seed, has)
        + [if KeepsParent(e, seed) then e else e.(parent := GroupParent(e, seed, has))]
  }

  lemma {:induction false} GroupedAt(expandedData: seq<ElementData>, seed: string, has: bool, i: nat)
    requires i < |expandedData|
    ensures Grouped(expandedData, seed, has)[i] ==
      if KeepsParent(expandedData[i], seed) then expandedData[i]
      else expandedData[i].(parent := GroupParent(expandedData[i], seed, has))
  {
    var n := |expandedData|;
    if i < n - 1 {
      GroupedAt(expandedData[..n - 1], seed, has, i);
    }
  }

  /** What `populateExpandedData` hands to `populateVirtualNetwork`. */
  function ExpandedElements(expandedData: seq<ElementData>, seed: string, seedType: Value): seq<ElementData> {
    if seedType == Str("IP") then
      var has := exists i :: 0 <= i < |expandedData| && SignalsVulnerability(expandedData[i].kind);
      Grouped(expandedData, seed, has) + Compounds(seed, has)
    else expandedData
  }

  /**
   * `populateExpandedData(nodeId, nodeType)`, given what `getNeighborNodes`
   * returned for the seed.
   */
  method PopulateExpandedData(m: Mirror, expandedData: seq<ElementData>, seed: string, seedType: Value)
    requires m.Valid()
    modifies m
    ensures m.Valid()
    ensures m.Snapshot() == ApplyAll(old(m.Snapshot()), ExpandedElements(expandedData, seed, seedType), m.hostData)
  {
    var data := expandedData;
    if seedType == Str("IP") {
      var has := DetectVulnerabilityData(expandedData);
      data := AssignParents(expandedData, seed, has);
      forall i | 0 <= i < |data|
        ensures data[i] == Grouped(expandedData, seed, has)[i]
      {
        GroupedAt(expandedData, seed, has, i);
      }
      assert data == Grouped(expandedData, seed, has);
      data := data + Compounds(seed, has);
      assert data == ExpandedElements(expandedData, seed, seedType);
    }
    m.Populate(Elements(data));
  }

  /**
   * For an IP seed: the adapter's elements come first, in order; the
   * vulnerability compound follows only when some element signals
   * vulnerability data; `compound-{seed}` is always last. Other seeds get
   * their elements unchanged.
   */
  lemma CompoundPlacement(expandedData: seq<ElementData>, seed: string, seedType: Value)
    ensures var r := ExpandedElements(expandedData, seed, seedType);
      var has := exists i :: 0 <= i < |expandedData| && SignalsVulnerability(expandedData[i].kind);
      if seedType == Str("IP") then
        |r| == |expandedData| + (if has then 2 else 1) &&
        r[|r| - 1].id == Str(CompoundId(seed)) && r[|r| - 1].parent == Undefined &&
        (has ==> r[|expandedData|].id == Str(VulnerabilityCompoundId(seed)) &&
                 r[|expandedData|].parent == Str(CompoundId(seed)))
      else r == expandedData
  {
  }

  /**
   * Every parent the second pass writes names a Compound node that the same
   * call appends: no element is put under a compound that does not exist.
   */
  lemma {:induction false} ParentsExist(expandedData: seq<ElementData>, seed: string, i: nat)
    requires i < |expandedData| && !KeepsParent(expandedData[i], seed)
    ensures var r := ExpandedElements(expandedData, seed, Str("IP"));
      exists j :: |expandedData| <= j < |r| && r[j].id == r[i].parent && r[j].kind == Str("Compound")
  {
    var has := exists k :: 0 <= k < |expandedData| && SignalsVulnerability(expandedData[k].kind);
    var r := ExpandedElements(expandedData, seed, Str("IP"));
    GroupedAt(expandedData, seed, has, i);
    assert r[i] == Grouped(expandedData, seed, has)[i];
    if has && VulnerabilityRelated(expandedData[i].kind) {
      assert r[|expandedData|].id == r[i].parent;
    } else {
      assert r[|r| - 1].id == r[i].parent;
    }
  }

  /** Elements the second pass skips keep their parent, so edges, IP nodes and the seed are never grouped. */
  lemma SkippedKeepParent(expandedData: seq<ElementData>, seed: string, i: nat)
    requires i < |expandedData| && KeepsParent(expandedData[i], seed)
    ensures ExpandedElements(expandedData, seed, Str("IP"))[i] == expandedData[i]
  {
    var has := exists k :: 0 <= k < |expandedData| && SignalsVulnerability(expandedData[k].kind);
    GroupedAt(expandedData, seed, has, i);
  }

  /**
   * The adapter gives nodes numeric identities and the route gives the seed as
   * a string, so the strict comparison with the seed never skips an adapter
   * node; the seed escapes grouping only through its own type.
   */
  lemma NumericIdsNeverMatchSeed(e: ElementData, seed: string)
    requires e.id.Num? && e.source == Undefined
    ensures KeepsParent(e, seed) <==> e.kind == Str("IP")
  {
  }

  /** After an IP seed is expanded, the mirror holds `compound-{seed}` as a Compound node without a parent. */
  lemma CompoundNodeStored(g: Graph, expandedData: seq<ElementData>, seed: string, hostData: bool)
    ensures var r := ApplyAll(g, ExpandedElements(expandedData, seed, Str("IP")), hostData);
      CompoundId(seed) in r.nodes && r.nodes[CompoundId(seed)].Some? &&
      r.nodes[CompoundId(seed)].value.kind == Str("Compound") &&
      r.nodes[CompoundId(seed)].value.parent == Undefined
  {
    var has := exists i :: 0 <= i < |expandedData| && SignalsVulnerability(expandedData[i].kind);
    var compounds := Compounds(seed, has);
    var main := compounds[|compounds| - 1];
    var init := Grouped(expandedData, seed, has) + compounds[..|compounds| - 1];
    assert ExpandedElements(expandedData, seed, Str("IP")) == init + [main];
    ApplyAllAppend(g, init, main, hostData);
    assert IsNodeElement(main) && ToStr(main.id) == CompoundId(seed);
  }

  // ------------------------------------------------------------ getNodeData

  const NA: Value := Str("N/A")

  /** `nodeProperty.key`. */
  function Prop(props: map<string, Value>, key: string): Value {
    if key in props then props[key] else Undefined
  }

  /**
   * `v.toFixed(1)` for the integral numbers of the model; any other value
   * has no `toFixed` and the call throws.
   */
  function ToFixed(v: Value): (r: Result<Value, string>)
    ensures r.Success? <==> v.Num?
    ensures v.Num? ==> r.value == Str(IntString(v.n) + ".0")
  {
    match v
    case Num(n) => Success(Str(IntString(n) + ".0"))
    case _ => Failure("TypeError: toFixed is not a function")
  }

  /** `impact[0]`: reading an index of `undefined` or `null` throws. */
  function FirstOf(v: Value): Result<Value, string> {
    match v
    case Undefined => Failure("TypeError: cannot read index 0")
    case Null => Failure("TypeError: cannot read index 0")
    case Str(s) => Success(if s == "" then Undefined else Str([s[0]]))
    case Num(_) => Success(Undefined)
    case List(items) => Success(if items == [] then Undefined else items[0])
  }

  /** The types the switch lists. */
  predicate Listed(nodeType: Value) {
    nodeType in {Str("Subnet"), Str("IP"), Str("DomainName"), Str("Node"), Str("Host"),
                 Str("SoftwareVersion"), Str("NetworkService"), Str("Vulnerability"), Str("CVE")}
  }

  /** The label a listed type assigns, or what its computation throws. */
  function LabelFor(nodeType: Value, props: map<string, Value>): Result<Value, string>
    requires Listed(nodeType)
  {
    if nodeType == Str("Subnet") then Success(Prop(props, "range"))
    else if nodeType == Str("IP") then Success(Or(Prop(props, "address"), NA))
    else if nodeType == Str("DomainName") then Success(Or(Prop(props, "domain_name"), NA))
    else if nodeType == Str("Node") then ToFixed(Or(Prop(props, "topology_degree"), Num(0)))
    else if nodeType == Str("Host") then Success(Str("Host"))
    else if nodeType == Str("SoftwareVersion") then Success(Or(Prop(props, "version"), NA))
    else if nodeType == Str("NetworkService") then Success(Or(Prop(props, "protocol"), NA))
    else if nodeType == Str("Vulnerability") then Success(Str("Vulnerability"))
    else
      var first := FirstOf(Prop(props, "impact"));
      if first.Failure? then first else Success(Or(first.value, NA))
  }

  /** The details a listed type assigns, or what their computation throws. */
  function DetailsFor(nodeType: Value, props: map<string, Value>): Result<Value, string>
    requires Listed(nodeType)
  {
    if nodeType == Str("Subnet") then Success(Or(Prop(props, "note"), NA))
    else if nodeType == Str("IP") then Success(Null)
    else if nodeType == Str("DomainName") then Success(Or(Prop(props, "tag"), NA))
    else if nodeType == Str("Node") then ToFixed(Or(Prop(props, "topology_betweenness"), Num(0)))
    else if nodeType == Str("Host") then Success(Null)
    else if nodeType == Str("SoftwareVersion") then Success(Or(Prop(props, "tag"), NA))
    else if nodeType == Str("NetworkService") then Success(Or(Prop(props, "service"), NA))
    else if nodeType == Str("Vulnerability") then Success(Or(Prop(props, "description"), NA))
    else ToFixed(Or(Prop(props, "base_score_v3"), Num(0)))
  }

  /**
   * Only Node and CVE can throw; every other listed type except Subnet gets
   * a truthy label through its 'N/A' fallback, and exactly IP and Host get
   * `null` details.
   */
  lemma NodeDataFallbacks(nodeType: Value, props: map<string, Value>)
    requires Listed(nodeType)
    ensures (LabelFor(nodeType, props).Failure? || DetailsFor(nodeType, props).Failure?) ==>
      nodeType == Str("Node") || nodeType == Str("CVE")
    ensures nodeType != Str("Subnet") && LabelFor(nodeType, props).Success? ==> Truthy(LabelFor(nodeType, props).value)
    ensures DetailsFor(nodeType, props) == Success(Null) <==> nodeType == Str("IP") || nodeType == Str("Host")
  {
    if nodeType == Str("Node") && LabelFor(nodeType, props).Success? {
      assert |LabelFor(nodeType, props).value.s| > 0;
    }
  }

  /** The implicit globals `nodeLabel` and `nodeDetails`; `None` until first assigned. */
  class NodeDataGlobals {
    var nodeLabel: Option<Value>
    var nodeDetails: Option<Value>

    constructor()
      ensures nodeLabel == None && nodeDetails == None
    {
      nodeLabel := None;
      nodeDetails := None;
    }

    /**
     * `getNodeData(nodeType, nodeProperty)`. A listed type assigns the label,
     * then the details, and a throw leaves the assignments made before it.
     * An unlisted type returns whatever the globals hold, and reading one
     * that was never assigned throws a ReferenceError.
     */
    method GetNodeData(nodeType: Value, props: map<string, Value>) returns (r: Result<(Value, Value), string>)
      modifies this
      ensures Listed(nodeType) && LabelFor(nodeType, props).Failure? ==>
        r == Failure(LabelFor(nodeType, props).error) &&
        nodeLabel == old(nodeLabel) && nodeDetails == old(nodeDetails)
      ensures Listed(nodeType) && LabelFor(nodeType, props).Success? && DetailsFor(nodeType, props).Failure? ==>
        r == Failure(DetailsFor(nodeType, props).error) &&
        nodeLabel == Some(LabelFor(nodeType, props).value) && nodeDetails == old(nodeDetails)
      ensures Listed(nodeType) && LabelFor(nodeType, props).Success? && DetailsFor(nodeType, props).Success? ==>
        r == Success((LabelFor(nodeType, props).value, DetailsFor(nodeType, props).value)) &&
        nodeLabel == Some(r.value.0) && nodeDetails == Some(r.value.1)
      ensures !Listed(nodeType) ==>
        nodeLabel == old(nodeLabel) && nodeDetails == old(nodeDetails) &&
        (r.Success? <==> nodeLabel.Some? && nodeDetails.Some?) &&
        (r.Success? ==> r.value == (nodeLabel.value, nodeDetails.value))
    {
      if nodeType == Str("Subnet") {
        nodeLabel := Some(Prop(props, "range"));
        nodeDetails := Some(Or(Prop(props, "note"), NA));
      } else if nodeType == Str("IP") {
        nodeLabel := Some(Or(Prop(props, "address"), NA));
        nodeDetails := Some(Null);
      } else if nodeType == Str("DomainName") {
        nodeLabel := Some(Or(Prop(props, "domain_name"), NA));
        nodeDetails := Some(Or(Prop(props, "tag"), NA));
      } else if nodeType == Str("Node") {
        var caption := ToFixed(Or(Prop(props, "topology_degree"), Num(0)));
        if caption.Failure? {
          return Failure(caption.error);
        }
        nodeLabel := Some(caption.value);
        var details := ToFixed(Or(Prop(props, "topology_betweenness"), Num(0)));
        if details.Failure? {
          return Failure(details.error);
        }
        nodeDetails := Some(details.value);
      } else if nodeType == Str("Host") {
        nodeLabel := Some(Str("Host"));
        nodeDetails := Some(Null);
      } else if nodeType == Str("SoftwareVersion") {
        nodeLabel := Some(Or(Prop(props, "version"), NA));
        nodeDetails := Some(Or(Prop(props, "tag"), NA));
      } else if nodeType == Str("NetworkService") {
        nodeLabel := Some(Or(Prop(props, "protocol"), NA));
        nodeDetails := Some(Or(Prop(props, "service"), NA));
      } else if nodeType == Str("Vulnerability") {
        nodeLabel := Some(Str("Vulnerability"));
        nodeDetails := Some(Or(Prop(props, "description"), NA));
      } else if nodeType == Str("CVE") {
        var first := FirstOf(Prop(props, "impact"));
        if first.Failure? {
          return Failure(first.error);
        }
        nodeLabel := Some(Or(first.value, NA));
        var details := ToFixed(Or(Prop(props, "base_score_v3"), Num(0)));
        if details.Failure? {
          return Failure(details.error);
        }
        nodeDetails := Some(details.value);
      }
      if nodeLabel.None? {
        return Failure("ReferenceError: nodeLabel is not defined");
      }
      if nodeDetails.None? {
        return Failure("ReferenceError: nodeDetails is not defined");
      }
      r := Success((nodeLabel.value, nodeDetails.value));
    }
  }
}
