/**
  `groupByFamily` of src/frontend/src/utils/utils.ts: for a compatibility
  class (a newline-separated list of type names) it finds, category by
  category of the node catalog, the nodes that can feed a connection (a
  visible template field accepts a compatible type) or consume one (a base
  class is compatible). Classifications are memoised per node name in
  `checkedNodes`, which the nodes already placed in a flow may seed.

  The method GroupByFamily follows the source loop for loop (its flow loop
  and its per-category node loop are the methods SeedFromFlow and
  ScanCategory); the functions below say, by recursion on prefixes, what each
  loop has computed so far, and the method is proved to return
  GroupByFamilySpec.
 */
module Families {
  import opened Wrappers
  import opened Text
  import opened Types

  /** APIClassType as far as the classifier reads it. */
  datatype NodeDef = NodeDef(template: map<string, TemplateField>, baseClasses: seq<string>)

  /** A node of a flow: its `data.type` and its `data.node`. */
  datatype FlowNode = FlowNode(typ: string, node: NodeDef)

  /** A `checkedNodes` entry: hasBaseClassInTemplate, hasBaseClassInBaseClasses. */
  datatype Flags = Flags(inTemplate: bool, inBaseClasses: bool)

  /** An element of arrOfPossibleInputs / arrOfPossibleOutputs. */
  datatype Candidate = Candidate(category: string, nodes: seq<string>, full: bool)

  /** groupedObjType: the family and the names shown for it ("" for all of them). */
  datatype Grouped = Grouped(family: string, typ: string)

  /** One category: `Object.entries(nodes)`, node names with their definitions, in enumeration order. */
  type Category = seq<(string, NodeDef)>

  /** The catalog: `Object.entries(data)`, category names with their nodes, in enumeration order. */
  type Catalog = seq<(string, Category)>

  /** Field types that never count by their own type: only through `input_types`. */
  const ExcludeTypes: set<string> := {"str", "bool", "float", "code", "prompt", "file", "int"}

  /** `new Set(baseClasses.split("\n"))`. */
  function CompatibleTypes(baseClasses: string): (s: set<string>)
    ensures forall t :: t in s ==> '\n' !in t
    ensures '\n' !in baseClasses ==> s == {baseClasses}
  {
    if '\n' !in baseClasses then SplitNoSeparator(baseClasses, '\n'); set t | t in Split(baseClasses, '\n')
    else set t | t in Split(baseClasses, '\n')
  }

  /** Each newline separates two lists of names: the set is the union of both sides. */
  lemma CompatibleTypesConcat(a: string, b: string)
    ensures CompatibleTypes(a + "\n" + b) == CompatibleTypes(a) + CompatibleTypes(b)
  {
    assert a + "\n" + b == a + ['\n'] + b;
    SplitConcat(a, b, '\n');
  }

  /**
    `checkBaseClass`: a visible, typed field whose own type or one of whose
    input types is compatible. A hidden or untyped field never counts, and a
    field of an excluded type counts only through its input types.
   */
  predicate CheckBaseClass(field: TemplateField, compatible: set<string>)
    ensures CheckBaseClass(field, compatible) ==> field.show && field.typ != []
    ensures field.typ in ExcludeTypes ==>
      (CheckBaseClass(field, compatible) <==>
        field.show && field.inputTypes.Some? && exists t :: t in field.inputTypes.value && t in compatible)
  {
    && field.typ != []
    && field.show
    && ((field.typ !in ExcludeTypes && field.typ in compatible)
        || (field.inputTypes.Some? && exists t :: t in field.inputTypes.value && t in compatible))
  }

  /**
    The flags of one node definition, as computed on first sight. A node without
    base classes never offers an output, and one without a visible field never
    takes an input.
   */
  function Classify(node: NodeDef, compatible: set<string>): (r: Flags)
    ensures node.baseClasses == [] ==> !r.inBaseClasses
    ensures (forall f :: f in node.template ==> !node.template[f].show) ==> !r.inTemplate
  {
    Flags(
      exists f :: f in node.template && CheckBaseClass(node.template[f], compatible),
      exists b :: b in node.baseClasses && b in compatible)
  }

  /**
    Against `{""}`, the set an empty compatibility string gives, a node
    qualifies only through a base class or an input type that is itself "".
   */
  lemma ClassifyAgainstEmptyName(node: NodeDef)
    ensures "" !in node.baseClasses ==> !Classify(node, {""}).inBaseClasses
    ensures (forall f :: f in node.template && node.template[f].inputTypes.Some? ==> "" !in node.template[f].inputTypes.value)
      ==> !Classify(node, {""}).inTemplate
  {
  }

  /**
    One turn of the flow loop: the node's type is stored with each flag set
    exactly when it was stored set before or the node itself sets it; every
    other type keeps its flags.
   */
  function SeedStep(memo: map<string, Flags>, node: FlowNode, compatible: set<string>): (m: map<string, Flags>)
    ensures m.Keys == memo.Keys + {node.typ}
    ensures forall t :: t in memo && t != node.typ ==> m[t] == memo[t]
    ensures m[node.typ].inTemplate <==>
      (node.typ in memo && memo[node.typ].inTemplate) || Classify(node.node, compatible).inTemplate
    ensures m[node.typ].inBaseClasses <==>
      (node.typ in memo && memo[node.typ].inBaseClasses) || Classify(node.node, compatible).inBaseClasses
  {
    var own := Classify(node.node, compatible);
    var found := if node.typ in memo then memo[node.typ] else Flags(false, false);
    memo[node.typ := Flags(found.inTemplate || own.inTemplate, found.inBaseClasses || own.inBaseClasses)]
  }

  /** `checkedNodes` after the flow loop has seen `flow`. */
  function SeedMemo(flow: seq<FlowNode>, compatible: set<string>): map<string, Flags>
  {
    if flow == [] then map[]
    else SeedStep(SeedMemo(flow[..|flow| - 1], compatible), flow[|flow| - 1], compatible)
  }

  /** `checkedNodes` when the catalog scan starts: seeded only when a flow is given. */
  function SeedOf(flow: Option<seq<FlowNode>>, compatible: set<string>): map<string, Flags>
  {
    if flow.Some? then SeedMemo(flow.value, compatible) else map[]
  }

  /**
    One node of the catalog scan: a stored name keeps its flags and is not
    classified again; a new name is stored with the node's own flags.
   */
  function Remember(memo: map<string, Flags>, name: string, node: NodeDef, compatible: set<string>): (m: map<string, Flags>)
    ensures m.Keys == memo.Keys + {name}
    ensures forall t :: t in memo ==> m[t] == memo[t]
    ensures name !in memo ==> m[name] == Classify(node, compatible)
  {
    if name in memo then memo else memo[name := Classify(node, compatible)]
  }

  /** `checkedNodes` after the scan of `nodes`, starting from `memo`. */
  function MemoAfterNodes(memo: map<string, Flags>, nodes: Category, compatible: set<string>): (m: map<string, Flags>)
    ensures memo.Keys <= m.Keys
    ensures forall j :: 0 <= j < |nodes| ==> nodes[j].0 in m
  {
    if nodes == [] then memo
    else
      var m := MemoAfterNodes(memo, nodes[..|nodes| - 1], compatible);
      assert forall j :: 0 <= j < |nodes| - 1 ==> nodes[j] == nodes[..|nodes| - 1][j];
      Remember(m, nodes[|nodes| - 1].0, nodes[|nodes| - 1].1, compatible)
  }

  /** The list a flag selects: base classes for outputs, template fields for inputs. */
  function Selected(flags: Flags, outputs: bool): bool
  {
    if outputs then flags.inBaseClasses else flags.inTemplate
  }

  /** `tempInputs` (outputs false) or `tempOutputs` (outputs true) after the scan of `nodes`. */
  function Picks(memo: map<string, Flags>, nodes: Category, compatible: set<string>, outputs: bool): seq<string>
  {
    if nodes == [] then []
    else
      var name := nodes[|nodes| - 1].0;
      Picks(memo, nodes[..|nodes| - 1], compatible, outputs)
        + (if Selected(MemoAfterNodes(memo, nodes, compatible)[name], outputs) then [name] else [])
  }

  /** The entry a category contributes: none when no node qualifies. */
  function Entry(category: string, picked: seq<string>, total: nat): seq<Candidate>
  {
    if |picked| > 0 then [Candidate(category, picked, |picked| == total)] else []
  }

  /** `checkedNodes` after the scan of the categories `cats`. */
  function MemoAfterCatalog(memo: map<string, Flags>, cats: Catalog, compatible: set<string>): map<string, Flags>
  {
    if cats == [] then memo
    else MemoAfterNodes(MemoAfterCatalog(memo, cats[..|cats| - 1], compatible), cats[|cats| - 1].1, compatible)
  }

  /** arrOfPossibleInputs (outputs false) or arrOfPossibleOutputs (outputs true) after the scan of `cats`. */
  function Candidates(memo: map<string, Flags>, cats: Catalog, compatible: set<string>, outputs: bool): seq<Candidate>
  {
    if cats == [] then []
    else
      var init := cats[..|cats| - 1];
      var last := cats[|cats| - 1];
      Candidates(memo, init, compatible, outputs)
        + Entry(last.0, Picks(MemoAfterCatalog(memo, init, compatible), last.1, compatible, outputs), |last.1|)
  }

  /**
    The final `map`: an empty `type` for a full category, else the names joined
    by ", ", which starts with the first picked name and so is never mistaken
    for "all of them".
   */
  function ToGrouped(c: Candidate): (g: Grouped)
    ensures g.family == c.category
    ensures c.full ==> g.typ == []
    ensures !c.full && c.nodes != [] ==> |c.nodes[0]| <= |g.typ| && g.typ[..|c.nodes[0]|] == c.nodes[0]
    ensures !c.full && c.nodes != [] && c.nodes[0] != [] ==> g.typ != []
  {
    Grouped(c.category, if c.full then "" else Join(c.nodes, ", "))
  }

  function GroupAll(cs: seq<Candidate>): seq<Grouped>
  {
    seq(|cs|, k requires 0 <= k < |cs| => ToGrouped(cs[k]))
  }

  /** What groupByFamily returns. */
  function GroupByFamilySpec(data: Catalog, baseClasses: string, left: bool, flow: Option<seq<FlowNode>>): seq<Grouped>
  {
    var compatible := CompatibleTypes(baseClasses);
    GroupAll(Candidates(SeedOf(flow, compatible), data, compatible, left))
  }

  /** The flow loop of groupByFamily: OR the flags of every flow node into the entry for its type. */
  method SeedFromFlow(flowNodes: seq<FlowNode>, compatible: set<string>) returns (checkedNodes: map<string, Flags>)
    ensures checkedNodes == SeedMemo(flowNodes, compatible)
  {
    checkedNodes := map[];
    for i := 0 to |flowNodes|
      invariant checkedNodes == SeedMemo(flowNodes[..i], compatible)
    {
      var node := flowNodes[i];
      var own := Classify(node.node, compatible);
      var found: Option<Flags> := if node.typ in checkedNodes then Some(checkedNodes[node.typ]) else None;
      checkedNodes := checkedNodes[node.typ := Flags(
        (found.Some? && found.value.inTemplate) || own.inTemplate,
        (found.Some? && found.value.inBaseClasses) || own.inBaseClasses)];
      assert flowNodes[..i + 1][..i] == flowNodes[..i];
    }
    assert flowNodes[..|flowNodes|] == flowNodes;
  }

  /**
    The node loop of groupByFamily for one category: look each node up in
    `checkedNodes`, classifying and storing it on first sight, and collect
    the names whose flags select them as inputs and as outputs.
   */
  method ScanCategory(memo: map<string, Flags>, nodes: Category, compatible: set<string>)
    returns (checkedNodes: map<string, Flags>, tempInputs: seq<string>, tempOutputs: seq<string>)
    ensures checkedNodes == MemoAfterNodes(memo, nodes, compatible)
    ensures tempInputs == Picks(memo, nodes, compatible, false)
    ensures tempOutputs == Picks(memo, nodes, compatible, true)
  {
    checkedNodes, tempInputs, tempOutputs := memo, [], [];
    for j := 0 to |nodes|
      invariant checkedNodes == MemoAfterNodes(memo, nodes[..j], compatible)
      invariant tempInputs == Picks(memo, nodes[..j], compatible, false)
      invariant tempOutputs == Picks(memo, nodes[..j], compatible, true)
    {
      var name := nodes[j].0;
      var foundNode: Flags;
      if name in checkedNodes {
        foundNode := checkedNodes[name];
      } else {
        foundNode := Classify(nodes[j].1, compatible);
        checkedNodes := checkedNodes[name := foundNode];
      }
      assert nodes[..j + 1][..j] == nodes[..j];
      if foundNode.inTemplate {
        tempInputs := tempInputs + [name];
      }
      if foundNode.inBaseClasses {
        tempOutputs := tempOutputs + [name];
      }
    }
    assert nodes[..|nodes|] == nodes;
  }

  /**
    `groupByFamily`: seed `checkedNodes` from the flow, scan the catalog
    category by category and node by node, collect the qualifying nodes of
    each category, and return the output list when `left` holds, the input
    list otherwise.
   */
  method GroupByFamily(data: Catalog, baseClasses: string, left: bool, flow: Option<seq<FlowNode>>)
    returns (groups: seq<Grouped>)
    ensures groups == GroupByFamilySpec(data, baseClasses, left, flow)
  {
    var compatible := CompatibleTypes(baseClasses);
    var possibleInputs: seq<Candidate> := [];
    var possibleOutputs: seq<Candidate> := [];
    var checkedNodes: map<string, Flags> := map[];

    if flow.Some? {
      checkedNodes := SeedFromFlow(flow.value, compatible);
    }

    ghost var seed := checkedNodes;
    for c := 0 to |data|
      invariant checkedNodes == MemoAfterCatalog(seed, data[..c], compatible)
      invariant possibleInputs == Candidates(seed, data[..c], compatible, false)
      invariant possibleOutputs == Candidates(seed, data[..c], compatible, true)
    {
      var category := data[c].0;
      var nodes := data[c].1;
      var tempInputs, tempOutputs;
      checkedNodes, tempInputs, tempOutputs := ScanCategory(checkedNodes, nodes, compatible);
      assert data[..c + 1][..c] == data[..c] && data[..c + 1][c] == data[c];

      var totalNodes := |nodes|;
      if |tempInputs| > 0 {
        possibleInputs := possibleInputs + [Candidate(category, tempInputs, |tempInputs| == totalNodes)];
      }
      if |tempOutputs| > 0 {
        possibleOutputs := possibleOutputs + [Candidate(category, tempOutputs, |tempOutputs| == totalNodes)];
      }
      assert possibleInputs == Candidates(seed, data[..c], compatible, false) + Entry(category, tempInputs, totalNodes);
      assert possibleOutputs == Candidates(seed, data[..c], compatible, true) + Entry(category, tempOutputs, totalNodes);
    }
    assert data[..|data|] == data;

    if left {
      groups := GroupAll(possibleOutputs);
    } else {
      groups := GroupAll(possibleInputs);
    }
  }
}
