/**
  groupByFamily on small catalogs: a one-node "LLMs" category, a category
  where only some nodes qualify, and flows that seed the memo with flags the
  catalog definitions would not give.
 */
module FamilyScenarios {
  import opened Wrappers
  import opened Text
  import opened Types
  import opened Families

  /** A visible `str` field that accepts a language model through its input types. */
  const ModelField := TemplateField("str", true, Some(["BaseLanguageModel"]), None, None)

  const OpenAI := NodeDef(map["model" := ModelField], ["BaseLLM"])

  /** OpenAI as a flow may hold it after its only field has been hidden. */
  const HiddenOpenAI := NodeDef(map["model" := ModelField.(show := false)], ["BaseLLM"])

  /** A node with a single primitive field and no input types. */
  const Echo := NodeDef(map["text" := TemplateField("str", true, None, None, None)], ["Tool"])

  const Llms: Catalog := [("LLMs", [("OpenAI", OpenAI)])]

  const Mixed: Catalog := [("LLMs", [("OpenAI", OpenAI), ("Echo", Echo)])]

  lemma ClassifyOpenAI(compatible: set<string>)
    ensures Classify(OpenAI, compatible).inTemplate <==> "BaseLanguageModel" in compatible
    ensures Classify(OpenAI, compatible).inBaseClasses <==> "BaseLLM" in compatible
  {
    assert OpenAI.template["model"] == ModelField;
    assert "str" in ExcludeTypes;
    assert ModelField.inputTypes.value[0] == "BaseLanguageModel";
    assert OpenAI.baseClasses[0] == "BaseLLM";
  }

  /** Scanning a one-node category for the input or the output list, from any memo. */
  lemma SingleNodeScan(d: string, n: string, node: NodeDef, seed: map<string, Flags>, compatible: set<string>, left: bool)
    ensures var flags := if n in seed then seed[n] else Classify(node, compatible);
      GroupAll(Candidates(seed, [(d, [(n, node)])], compatible, left))
        == if Selected(flags, left) then [Grouped(d, "")] else []
  {
    var cats: Catalog := [(d, [(n, node)])];
    var nodes := cats[0].1;
    assert cats[..0] == [] && nodes[..0] == [];
    assert MemoAfterCatalog(seed, cats[..0], compatible) == seed;
    assert MemoAfterNodes(seed, nodes, compatible) == Remember(seed, n, node, compatible);
    var flags := if n in seed then seed[n] else Classify(node, compatible);
    assert Picks(seed, nodes, compatible, left) == if Selected(flags, left) then [n] else [];
    assert Candidates(seed, cats, compatible, left) == Entry(d, Picks(seed, nodes, compatible, left), 1);
  }

  /** The same without a flow. */
  lemma SingleNodeCategory(d: string, n: string, node: NodeDef, baseClasses: string, left: bool)
    ensures var compatible := CompatibleTypes(baseClasses);
      GroupByFamilySpec([(d, [(n, node)])], baseClasses, left, None)
        == if Selected(Classify(node, compatible), left) then [Grouped(d, "")] else []
  {
    SingleNodeScan(d, n, node, map[], CompatibleTypes(baseClasses), left);
  }

  /**
    CompatibleTypes for a list of one type, stated for a variable so that the
    scenarios below do not make the verifier evaluate it on a literal.
   */
  lemma SingleType(t: string)
    requires '\n' !in t
    ensures CompatibleTypes(t) == {t}
  {
  }

  /** A model field accepting BaseLanguageModel makes the whole LLMs family an input. */
  lemma OpenAIAsInput()
    ensures GroupByFamilySpec(Llms, "BaseLanguageModel", false, None) == [Grouped("LLMs", "")]
  {
    SingleType("BaseLanguageModel");
    ClassifyOpenAI({"BaseLanguageModel"});
    SingleNodeCategory("LLMs", "OpenAI", OpenAI, "BaseLanguageModel", false);
  }

  /** The BaseLLM base class makes the whole LLMs family an output. */
  lemma OpenAIAsOutput()
    ensures GroupByFamilySpec(Llms, "BaseLLM", true, None) == [Grouped("LLMs", "")]
  {
    SingleNodeCategory("LLMs", "OpenAI", OpenAI, "BaseLLM", true);
    ClassifyOpenAI({"BaseLLM"});
  }

  /** An unknown type matches nothing in either direction. */
  lemma UnknownMatchesNothing(left: bool)
    ensures GroupByFamilySpec(Llms, "Unknown", left, None) == []
  {
    SingleNodeCategory("LLMs", "OpenAI", OpenAI, "Unknown", left);
    ClassifyOpenAI({"Unknown"});
  }

  /** "str" is in the compatibility list, but a `str` field counts only through its input types. */
  lemma PrimitiveOwnTypeDoesNotCount()
    ensures GroupByFamilySpec(Llms, "str", false, None) == []
  {
    SingleNodeCategory("LLMs", "OpenAI", OpenAI, "str", false);
    ClassifyOpenAI({"str"});
  }

  /** Scanning a two-node category: the picks are the qualifying names, in order. */
  lemma TwoNodeScan(d: string, n1: string, a: NodeDef, n2: string, b: NodeDef, compatible: set<string>, left: bool)
    requires n1 != n2
    ensures var picks := (if Selected(Classify(a, compatible), left) then [n1] else [])
                       + (if Selected(Classify(b, compatible), left) then [n2] else []);
      Candidates(map[], [(d, [(n1, a), (n2, b)])], compatible, left) == Entry(d, picks, 2)
  {
    var cats: Catalog := [(d, [(n1, a), (n2, b)])];
    var nodes := cats[0].1;
    var first := nodes[..1];
    assert cats[..0] == [] && first == [(n1, a)] && first[..0] == [] && nodes[..2] == nodes;
    assert MemoAfterNodes(map[], first[..0], compatible) == map[];
    var m1 := MemoAfterNodes(map[], first, compatible);
    assert m1 == Remember(map[], n1, a, compatible);
    assert m1 == map[n1 := Classify(a, compatible)];
    assert MemoAfterNodes(map[], nodes, compatible) == Remember(m1, n2, b, compatible);
    assert Picks(map[], first[..0], compatible, left) == [];
    assert Picks(map[], first, compatible, left) == if Selected(Classify(a, compatible), left) then [n1] else [];
    assert MemoAfterCatalog(map[], cats[..0], compatible) == map[];
    assert Candidates(map[], cats, compatible, left) == Entry(d, Picks(map[], nodes, compatible, left), 2);
  }

  /** A two-node category whose first node alone qualifies is listed under that node's name. */
  lemma FirstOfTwoQualifies(d: string, n1: string, a: NodeDef, n2: string, b: NodeDef, compatible: set<string>, left: bool)
    requires n1 != n2
    requires Selected(Classify(a, compatible), left) && !Selected(Classify(b, compatible), left)
    ensures GroupAll(Candidates(map[], [(d, [(n1, a), (n2, b)])], compatible, left)) == [Grouped(d, n1)]
  {
    TwoNodeScan(d, n1, a, n2, b, compatible, left);
    var cs := Candidates(map[], [(d, [(n1, a), (n2, b)])], compatible, left);
    assert [n1] + [] == [n1];
    assert cs == Entry(d, [n1], 2);
    assert cs == [Candidate(d, [n1], false)];
    assert GroupAll(cs) == [ToGrouped(cs[0])];
  }

  lemma ClassifyEcho(compatible: set<string>)
    ensures !Classify(Echo, compatible).inTemplate
  {
    assert Echo.template["text"].typ in ExcludeTypes;
  }

  /** When only some nodes of a category qualify, the entry names them. */
  lemma PartialCategoryNamesNodes()
    ensures GroupByFamilySpec(Mixed, "BaseLanguageModel", false, None) == [Grouped("LLMs", "OpenAI")]
  {
    SingleType("BaseLanguageModel");
    ClassifyOpenAI({"BaseLanguageModel"});
    ClassifyEcho({"BaseLanguageModel"});
    FirstOfTwoQualifies("LLMs", "OpenAI", OpenAI, "Echo", Echo, {"BaseLanguageModel"}, false);
  }

  lemma ClassifyHiddenOpenAI(compatible: set<string>)
    ensures !Classify(HiddenOpenAI, compatible).inTemplate
  {
    assert HiddenOpenAI.template["model"].show == false;
  }

  /** The memo a one-node flow seeds. */
  lemma SingleFlowNode(node: FlowNode, compatible: set<string>)
    ensures SeedMemo([node], compatible) == map[node.typ := Classify(node.node, compatible)]
  {
    assert [node][..0] == [];
  }

  /**
    A flow holding OpenAI with its field hidden seeds the memo with a false
    flag, so the family the catalog alone would list disappears.
   */
  lemma SeedCanHideFamily()
    ensures GroupByFamilySpec(Llms, "BaseLanguageModel", false, Some([FlowNode("OpenAI", HiddenOpenAI)])) == []
    ensures GroupByFamilySpec(Llms, "BaseLanguageModel", false, None) == [Grouped("LLMs", "")]
  {
    OpenAIAsInput();
    var compatible := CompatibleTypes("BaseLanguageModel");
    ClassifyHiddenOpenAI(compatible);
    SingleFlowNode(FlowNode("OpenAI", HiddenOpenAI), compatible);
    SingleNodeScan("LLMs", "OpenAI", OpenAI, SeedMemo([FlowNode("OpenAI", HiddenOpenAI)], compatible), compatible, false);
  }

  /**
    A flow holding a node whose definition has a compatible base class seeds
    a true flag, so a family the catalog alone would not list appears.
   */
  lemma SeedCanAddFamily()
    ensures GroupByFamilySpec(Llms, "Unknown", true, Some([FlowNode("OpenAI", NodeDef(map[], ["Unknown"]))])) == [Grouped("LLMs", "")]
    ensures GroupByFamilySpec(Llms, "Unknown", true, None) == []
  {
    UnknownMatchesNothing(true);
    SingleType("Unknown");
    var compatible := CompatibleTypes("Unknown");
    var def := NodeDef(map[], ["Unknown"]);
    assert def.baseClasses[0] == "Unknown";
    assert Classify(def, compatible).inBaseClasses;
    SingleFlowNode(FlowNode("OpenAI", def), compatible);
    SingleNodeScan("LLMs", "OpenAI", OpenAI, SeedMemo([FlowNode("OpenAI", def)], compatible), compatible, true);
  }

  /** An empty compatibility string still matches an empty base-class name. */
  lemma EmptyCompatibilityMatchesEmptyName()
    ensures GroupByFamilySpec([("Tools", [("Blank", NodeDef(map[], [""]))])], "", true, None) == [Grouped("Tools", "")]
  {
    var def := NodeDef(map[], [""]);
    SingleNodeCategory("Tools", "Blank", def, "", true);
    assert def.baseClasses[0] == "";
  }
}
