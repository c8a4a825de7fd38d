/**
  What groupByFamily computes, stated without the memo.

  The scan stores a node's flags under its name the first time the name is
  met and never re-evaluates it, so the flags the scan uses for a name are
  the seeded ones when the flow seeded it, and otherwise those of the FIRST
  definition carrying that name in catalog order (`Effective`). With them,
  each category contributes the names of its qualifying nodes in catalog
  order (`PurePicks`), and a category contributes an entry exactly when that
  list is non-empty (`PureCandidates`). `CandidatesAgree` proves the memoised
  scan equal to this reference, and the remaining lemmas state the promised
  properties on top of it.
 */
module FamilyProperties {
  import opened Wrappers
  import opened Text
  import opened Types
  import opened Families

  /** The node names of a category or of a whole catalog. */
  function Names(nodes: Category): set<string>
  {
    set p | p in nodes :: p.0
  }

  /** All nodes of the catalog, category after category, in enumeration order. */
  function CatalogNodes(cats: Catalog): Category
  {
    if cats == [] then [] else CatalogNodes(cats[..|cats| - 1]) + cats[|cats| - 1].1
  }

  /** The definition of the first node called `name`, if any. */
  function FirstDef(nodes: Category, name: string): (r: Option<NodeDef>)
    ensures r.Some? <==> name in Names(nodes)
    ensures r.Some? ==> (name, r.value) in nodes
  {
    if nodes == [] then None
    else
      NamesCons(nodes);
      if nodes[0].0 == name then Some(nodes[0].1) else FirstDef(nodes[1..], name)
  }

  /** The flags the scan uses for `name`: the seeded ones, else those of its first definition. */
  function Effective(seed: map<string, Flags>, all: Category, name: string, compatible: set<string>): Flags
  {
    if name in seed then seed[name]
    else match FirstDef(all, name)
      case Some(d) => Classify(d, compatible)
      case None => Flags(false, false)
  }

  /** The names of `nodes` whose effective flags select them, in order. */
  function PurePicks(seed: map<string, Flags>, all: Category, nodes: Category, compatible: set<string>, outputs: bool): seq<string>
  {
    if nodes == [] then []
    else
      var name := nodes[|nodes| - 1].0;
      PurePicks(seed, all, nodes[..|nodes| - 1], compatible, outputs)
        + (if Selected(Effective(seed, all, name, compatible), outputs) then [name] else [])
  }

  /** One entry per category with a qualifying node, in catalog order. */
  function PureCandidates(seed: map<string, Flags>, all: Category, cats: Catalog, compatible: set<string>, outputs: bool): seq<Candidate>
  {
    if cats == [] then []
    else
      var last := cats[|cats| - 1];
      PureCandidates(seed, all, cats[..|cats| - 1], compatible, outputs)
        + Entry(last.0, PurePicks(seed, all, last.1, compatible, outputs), |last.1|)
  }

  /**
    The memo `m` holds exactly the seeded names and the names met so far in
    `seen`, each with its effective flags.
   */
  ghost predicate Agrees(m: map<string, Flags>, seed: map<string, Flags>, all: Category, seen: Category, compatible: set<string>)
  {
    && (forall k :: k in m <==> k in seed || k in Names(seen))
    && (forall k :: k in m ==> m[k] == Effective(seed, all, k, compatible))
  }

  // ---------------------------------------------------------------------
  // Names and first definitions
  // ---------------------------------------------------------------------

  lemma NamesCons(nodes: Category)
    requires nodes != []
    ensures Names(nodes) == {nodes[0].0} + Names(nodes[1..])
  {
    assert nodes == [nodes[0]] + nodes[1..];
    forall x | x in Names(nodes)
      ensures x == nodes[0].0 || x in Names(nodes[1..])
    {
      var p :| p in nodes && p.0 == x;
    }
  }

  lemma NamesAppend(s: Category, t: Category)
    ensures Names(s + t) == Names(s) + Names(t)
  {
    forall x | x in Names(s + t)
      ensures x in Names(s) || x in Names(t)
    {
      var p :| p in s + t && p.0 == x;
    }
  }

  lemma {:induction false} FirstDefAppend(s: Category, t: Category, name: string)
    ensures FirstDef(s + t, name) == if name in Names(s) then FirstDef(s, name) else FirstDef(t, name)
  {
    if s == [] {
      assert s + t == t;
    } else {
      NamesCons(s);
      assert (s + t)[1..] == s[1..] + t;
      FirstDefAppend(s[1..], t, name);
    }
  }

  // ---------------------------------------------------------------------
  // The memoised scan against the reference
  // ---------------------------------------------------------------------

  lemma RememberAgrees(m: map<string, Flags>, seed: map<string, Flags>, all: Category, seen: Category,
                       n: string, d: NodeDef, compatible: set<string>)
    requires seen + [(n, d)] <= all
    requires Agrees(m, seed, all, seen, compatible)
    ensures Agrees(Remember(m, n, d, compatible), seed, all, seen + [(n, d)], compatible)
  {
    var m' := Remember(m, n, d, compatible);
    assert Names(seen + [(n, d)]) == Names(seen) + {n} by {
      NamesAppend(seen, [(n, d)]);
      assert Names([(n, d)]) == {n};
    }
    if n in m {
      assert m' == m;
    } else {
      assert Effective(seed, all, n, compatible) == Classify(d, compatible) by {
        var rest := all[|seen| + 1..];
        assert all == seen + ([(n, d)] + rest);
        FirstDefAppend(seen, [(n, d)] + rest, n);
      }
      assert m' == m[n := Classify(d, compatible)];
    }
  }

  lemma {:induction false} MemoAfterNodesAgrees(m: map<string, Flags>, seed: map<string, Flags>, all: Category,
                                                seen: Category, nodes: Category, compatible: set<string>)
    requires seen + nodes <= all
    requires Agrees(m, seed, all, seen, compatible)
    ensures Agrees(MemoAfterNodes(m, nodes, compatible), seed, all, seen + nodes, compatible)
  {
    if nodes == [] {
      assert seen + nodes == seen;
    } else {
      var init := nodes[..|nodes| - 1];
      var last := nodes[|nodes| - 1];
      assert seen + nodes == (seen + init) + [(last.0, last.1)];
      MemoAfterNodesAgrees(m, seed, all, seen, init, compatible);
      RememberAgrees(MemoAfterNodes(m, init, compatible), seed, all, seen + init, last.0, last.1, compatible);
    }
  }

  lemma {:induction false} PicksAgree(m: map<string, Flags>, seed: map<string, Flags>, all: Category,
                                      seen: Category, nodes: Category, compatible: set<string>, outputs: bool)
    requires seen + nodes <= all
    requires Agrees(m, seed, all, seen, compatible)
    ensures Picks(m, nodes, compatible, outputs) == PurePicks(seed, all, nodes, compatible, outputs)
  {
    if nodes != [] {
      var init := nodes[..|nodes| - 1];
      assert seen + nodes == (seen + init) + [nodes[|nodes| - 1]];
      PicksAgree(m, seed, all, seen, init, compatible, outputs);
      MemoAfterNodesAgrees(m, seed, all, seen, nodes, compatible);
    }
  }

  lemma {:induction false} MemoAfterCatalogAgrees(seed: map<string, Flags>, all: Category, cats: Catalog, compatible: set<string>)
    requires CatalogNodes(cats) <= all
    ensures Agrees(MemoAfterCatalog(seed, cats, compatible), seed, all, CatalogNodes(cats), compatible)
  {
    if cats == [] {
      assert Names([]) == {};
    } else {
      var init := cats[..|cats| - 1];
      MemoAfterCatalogAgrees(seed, all, init, compatible);
      MemoAfterNodesAgrees(MemoAfterCatalog(seed, init, compatible), seed, all, CatalogNodes(init), cats[|cats| - 1].1, compatible);
    }
  }

  /** The memoised scan of a catalog yields the reference candidates. */
  lemma {:induction false} CandidatesAgree(seed: map<string, Flags>, all: Category, cats: Catalog, compatible: set<string>, outputs: bool)
    requires CatalogNodes(cats) <= all
    ensures Candidates(seed, cats, compatible, outputs) == PureCandidates(seed, all, cats, compatible, outputs)
  {
    if cats != [] {
      var init := cats[..|cats| - 1];
      assert CatalogNodes(init) + cats[|cats| - 1].1 <= all;
      CandidatesAgree(seed, all, init, compatible, outputs);
      MemoAfterCatalogAgrees(seed, all, init, compatible);
      PicksAgree(MemoAfterCatalog(seed, init, compatible), seed, all, CatalogNodes(init), cats[|cats| - 1].1, compatible, outputs);
    }
  }

  /** groupByFamily's result is the reference classification of the whole catalog. */
  lemma GroupByFamilyReference(data: Catalog, baseClasses: string, left: bool, flow: Option<seq<FlowNode>>)
    ensures var compatible := CompatibleTypes(baseClasses);
      GroupByFamilySpec(data, baseClasses, left, flow)
        == GroupAll(PureCandidates(SeedOf(flow, compatible), CatalogNodes(data), data, compatible, left))
  {
    var compatible := CompatibleTypes(baseClasses);
    CandidatesAgree(SeedOf(flow, compatible), CatalogNodes(data), data, compatible, left);
  }

  // ---------------------------------------------------------------------
  // What one category contributes
  // ---------------------------------------------------------------------

  /** The `j`-th node of `nodes` qualifies for the list `outputs` selects. */
  predicate Qualifies(seed: map<string, Flags>, all: Category, nodes: Category, j: int, compatible: set<string>, outputs: bool)
    requires 0 <= j < |nodes|
  {
    Selected(Effective(seed, all, nodes[j].0, compatible), outputs)
  }

  /** The picks are the qualifying names in order: all of them exactly when every node qualifies. */
  lemma PurePicksFacts(seed: map<string, Flags>, all: Category, nodes: Category, compatible: set<string>, outputs: bool)
    ensures |PurePicks(seed, all, nodes, compatible, outputs)| <= |nodes|
    ensures |PurePicks(seed, all, nodes, compatible, outputs)| == |nodes|
      <==> forall j :: 0 <= j < |nodes| ==> Qualifies(seed, all, nodes, j, compatible, outputs)
    ensures PurePicks(seed, all, nodes, compatible, outputs) == []
      <==> forall j :: 0 <= j < |nodes| ==> !Qualifies(seed, all, nodes, j, compatible, outputs)
    ensures forall x :: (x in PurePicks(seed, all, nodes, compatible, outputs)
      <==> exists j :: 0 <= j < |nodes| && nodes[j].0 == x && Qualifies(seed, all, nodes, j, compatible, outputs))
  {
    PurePicksCount(seed, all, nodes, compatible, outputs);
    PurePicksNone(seed, all, nodes, compatible, outputs);
    PurePicksMembers(seed, all, nodes, compatible, outputs);
  }

  /** Dropping the last node leaves the qualification of the others unchanged. */
  lemma QualifiesInit(seed: map<string, Flags>, all: Category, nodes: Category, compatible: set<string>, outputs: bool)
    requires nodes != []
    ensures forall j :: 0 <= j < |nodes| - 1 ==>
      (Qualifies(seed, all, nodes[..|nodes| - 1], j, compatible, outputs) <==> Qualifies(seed, all, nodes, j, compatible, outputs))
  {
    var init := nodes[..|nodes| - 1];
    assert forall j :: 0 <= j < |init| ==> init[j] == nodes[j];
  }

  lemma {:induction false} PurePicksCount(seed: map<string, Flags>, all: Category, nodes: Category, compatible: set<string>, outputs: bool)
    ensures |PurePicks(seed, all, nodes, compatible, outputs)| <= |nodes|
    ensures |PurePicks(seed, all, nodes, compatible, outputs)| == |nodes|
      <==> forall j :: 0 <= j < |nodes| ==> Qualifies(seed, all, nodes, j, compatible, outputs)
  {
    if nodes != [] {
      var init := nodes[..|nodes| - 1];
      var n := |nodes| - 1;
      PurePicksCount(seed, all, init, compatible, outputs);
      QualifiesInit(seed, all, nodes, compatible, outputs);
      assert PurePicks(seed, all, nodes, compatible, outputs) == PurePicks(seed, all, init, compatible, outputs)
        + (if Qualifies(seed, all, nodes, n, compatible, outputs) then [nodes[n].0] else []);
      if forall j :: 0 <= j < |nodes| ==> Qualifies(seed, all, nodes, j, compatible, outputs) {
        forall j | 0 <= j < |init|
          ensures Qualifies(seed, all, init, j, compatible, outputs)
        {
          assert Qualifies(seed, all, nodes, j, compatible, outputs);
        }
      }
      if forall j :: 0 <= j < |init| ==> Qualifies(seed, all, init, j, compatible, outputs) {
        forall j | 0 <= j < |nodes|
          ensures Qualifies(seed, all, nodes, j, compatible, outputs) || j == n
        {
          if j < n {
            assert Qualifies(seed, all, init, j, compatible, outputs);
          }
        }
      }
    }
  }

  lemma {:induction false} PurePicksNone(seed: map<string, Flags>, all: Category, nodes: Category, compatible: set<string>, outputs: bool)
    ensures PurePicks(seed, all, nodes, compatible, outputs) == []
      <==> forall j :: 0 <= j < |nodes| ==> !Qualifies(seed, all, nodes, j, compatible, outputs)
  {
    if nodes != [] {
      var init := nodes[..|nodes| - 1];
      var n := |nodes| - 1;
      PurePicksNone(seed, all, init, compatible, outputs);
      QualifiesInit(seed, all, nodes, compatible, outputs);
      assert PurePicks(seed, all, nodes, compatible, outputs) == PurePicks(seed, all, init, compatible, outputs)
        + (if Qualifies(seed, all, nodes, n, compatible, outputs) then [nodes[n].0] else []);
      if forall j :: 0 <= j < |nodes| ==> !Qualifies(seed, all, nodes, j, compatible, outputs) {
        forall j | 0 <= j < |init|
          ensures !Qualifies(seed, all, init, j, compatible, outputs)
        {
          assert !Qualifies(seed, all, nodes, j, compatible, outputs);
        }
      }
      if forall j :: 0 <= j < |init| ==> !Qualifies(seed, all, init, j, compatible, outputs) {
        forall j | 0 <= j < |nodes|
          ensures !Qualifies(seed, all, nodes, j, compatible, outputs) || j == n
        {
          if j < n {
            assert !Qualifies(seed, all, init, j, compatible, outputs);
          }
        }
      }
    }
  }

  lemma {:induction false} PurePicksMembers(seed: map<string, Flags>, all: Category, nodes: Category, compatible: set<string>, outputs: bool)
    ensures forall x :: (x in PurePicks(seed, all, nodes, compatible, outputs)
      <==> exists j :: 0 <= j < |nodes| && nodes[j].0 == x && Qualifies(seed, all, nodes, j, compatible, outputs))
  {
    if nodes != [] {
      var init := nodes[..|nodes| - 1];
      var n := |nodes| - 1;
      PurePicksMembers(seed, all, init, compatible, outputs);
      QualifiesInit(seed, all, nodes, compatible, outputs);
      var q := PurePicks(seed, all, nodes, compatible, outputs);
      forall x
        ensures x in q <==> exists j :: 0 <= j < |nodes| && nodes[j].0 == x && Qualifies(seed, all, nodes, j, compatible, outputs)
      {
        if exists j :: 0 <= j < |nodes| && nodes[j].0 == x && Qualifies(seed, all, nodes, j, compatible, outputs) {
          var j :| 0 <= j < |nodes| && nodes[j].0 == x && Qualifies(seed, all, nodes, j, compatible, outputs);
          if j < n {
            assert init[j].0 == x && Qualifies(seed, all, init, j, compatible, outputs);
          }
        }
        if x in PurePicks(seed, all, init, compatible, outputs) {
          var j :| 0 <= j < |init| && init[j].0 == x && Qualifies(seed, all, init, j, compatible, outputs);
          assert nodes[j].0 == x && Qualifies(seed, all, nodes, j, compatible, outputs);
        }
      }
    }
  }

  /** The candidate a category yields when some node in it qualifies. */
  function CategoryEntry(seed: map<string, Flags>, all: Category, cat: (string, Category), compatible: set<string>, outputs: bool): Candidate
  {
    var q := PurePicks(seed, all, cat.1, compatible, outputs);
    Candidate(cat.0, q, |q| == |cat.1|)
  }

  /** `e` is the entry of the `c`-th category, which has a qualifying node. */
  predicate EntryAt(seed: map<string, Flags>, all: Category, cats: Catalog, c: int, e: Candidate, compatible: set<string>, outputs: bool)
  {
    && 0 <= c < |cats|
    && PurePicks(seed, all, cats[c].1, compatible, outputs) != []
    && e == CategoryEntry(seed, all, cats[c], compatible, outputs)
  }

  lemma EntryAtPrefix(seed: map<string, Flags>, all: Category, cats: Catalog, k: nat, c: int, e: Candidate, compatible: set<string>, outputs: bool)
    requires k <= |cats|
    requires EntryAt(seed, all, cats[..k], c, e, compatible, outputs)
    ensures EntryAt(seed, all, cats, c, e, compatible, outputs)
  {
    assert cats[..k][c] == cats[c];
  }

  /** A candidate past those of the earlier categories is the last category's entry. */
  lemma LastEntry(seed: map<string, Flags>, all: Category, cats: Catalog, compatible: set<string>, outputs: bool, i: int)
    requires cats != []
    requires |PureCandidates(seed, all, cats[..|cats| - 1], compatible, outputs)| <= i < |PureCandidates(seed, all, cats, compatible, outputs)|
    ensures EntryAt(seed, all, cats, |cats| - 1, PureCandidates(seed, all, cats, compatible, outputs)[i], compatible, outputs)
  {
    var last := cats[|cats| - 1];
    var q := PurePicks(seed, all, last.1, compatible, outputs);
    var r0 := PureCandidates(seed, all, cats[..|cats| - 1], compatible, outputs);
    assert PureCandidates(seed, all, cats, compatible, outputs) == r0 + Entry(last.0, q, |last.1|);
  }

  /**
    Every reference candidate is the entry of a category with a qualifying
    node, and the categories of successive candidates come strictly later in
    the catalog: `idx` names them.
   */
  lemma {:induction false} PureCandidatesSound(seed: map<string, Flags>, all: Category, cats: Catalog, compatible: set<string>, outputs: bool)
    returns (idx: seq<int>)
    ensures |idx| == |PureCandidates(seed, all, cats, compatible, outputs)|
    ensures forall i :: 0 <= i < |idx| ==>
      EntryAt(seed, all, cats, idx[i], PureCandidates(seed, all, cats, compatible, outputs)[i], compatible, outputs)
    ensures forall i, j :: 0 <= i < j < |idx| ==> idx[i] < idx[j]
  {
    if cats == [] {
      idx := [];
    } else {
      var init := cats[..|cats| - 1];
      var last := cats[|cats| - 1];
      var idx0 := PureCandidatesSound(seed, all, init, compatible, outputs);
      var r0 := PureCandidates(seed, all, init, compatible, outputs);
      var r := PureCandidates(seed, all, cats, compatible, outputs);
      assert r == r0 + Entry(last.0, PurePicks(seed, all, last.1, compatible, outputs), |last.1|);
      forall i | 0 <= i < |idx0|
        ensures EntryAt(seed, all, cats, idx0[i], r[i], compatible, outputs)
      {
        EntryAtPrefix(seed, all, cats, |cats| - 1, idx0[i], r0[i], compatible, outputs);
      }
      if |r| == |r0| {
        idx := idx0;
      } else {
        LastEntry(seed, all, cats, compatible, outputs, |r0|);
        idx := idx0 + [|cats| - 1];
      }
    }
  }

  /** Every category with a qualifying node has its entry among the reference candidates. */
  lemma {:induction false} PureCandidatesComplete(seed: map<string, Flags>, all: Category, cats: Catalog, compatible: set<string>, outputs: bool)
    ensures forall c :: 0 <= c < |cats| && PurePicks(seed, all, cats[c].1, compatible, outputs) != [] ==>
      CategoryEntry(seed, all, cats[c], compatible, outputs) in PureCandidates(seed, all, cats, compatible, outputs)
  {
    if cats != [] {
      var init := cats[..|cats| - 1];
      PureCandidatesComplete(seed, all, init, compatible, outputs);
      var r0 := PureCandidates(seed, all, init, compatible, outputs);
      var r := PureCandidates(seed, all, cats, compatible, outputs);
      forall c | 0 <= c < |cats| && PurePicks(seed, all, cats[c].1, compatible, outputs) != []
        ensures CategoryEntry(seed, all, cats[c], compatible, outputs) in r
      {
        if c < |init| {
          assert init[c] == cats[c];
          assert CategoryEntry(seed, all, init[c], compatible, outputs) in r0;
        } else {
          assert r[|r| - 1] == CategoryEntry(seed, all, cats[c], compatible, outputs);
        }
      }
    }
  }

  /** A catalog yields no reference candidate exactly when no category has a qualifying node. */
  lemma PureCandidatesEmpty(seed: map<string, Flags>, all: Category, cats: Catalog, compatible: set<string>, outputs: bool)
    ensures PureCandidates(seed, all, cats, compatible, outputs) == []
      <==> forall c :: 0 <= c < |cats| ==> PurePicks(seed, all, cats[c].1, compatible, outputs) == []
  {
    var idx := PureCandidatesSound(seed, all, cats, compatible, outputs);
    PureCandidatesComplete(seed, all, cats, compatible, outputs);
    var r := PureCandidates(seed, all, cats, compatible, outputs);
    if r != [] {
      assert EntryAt(seed, all, cats, idx[0], r[0], compatible, outputs);
    }
  }

  // ---------------------------------------------------------------------
  // groupByFamily's result
  // ---------------------------------------------------------------------

  predicate AllQualify(seed: map<string, Flags>, all: Category, nodes: Category, compatible: set<string>, outputs: bool)
  {
    forall j :: 0 <= j < |nodes| ==> Qualifies(seed, all, nodes, j, compatible, outputs)
  }

  predicate SomeQualifies(seed: map<string, Flags>, all: Category, nodes: Category, compatible: set<string>, outputs: bool)
  {
    exists j :: 0 <= j < |nodes| && Qualifies(seed, all, nodes, j, compatible, outputs)
  }

  /**
    The entry a category is meant to get: its name, and no node names when
    every node qualifies, else the qualifying names joined with ", ".
   */
  function Expected(seed: map<string, Flags>, all: Category, cat: (string, Category), compatible: set<string>, outputs: bool): Grouped
  {
    Grouped(cat.0,
      if AllQualify(seed, all, cat.1, compatible, outputs) then ""
      else Join(PurePicks(seed, all, cat.1, compatible, outputs), ", "))
  }

  /** The `full` count test agrees with "every node qualifies". */
  lemma ExpectedEntry(seed: map<string, Flags>, all: Category, cat: (string, Category), compatible: set<string>, outputs: bool)
    ensures PurePicks(seed, all, cat.1, compatible, outputs) != [] <==> SomeQualifies(seed, all, cat.1, compatible, outputs)
    ensures ToGrouped(CategoryEntry(seed, all, cat, compatible, outputs)) == Expected(seed, all, cat, compatible, outputs)
  {
    PurePicksFacts(seed, all, cat.1, compatible, outputs);
  }

  /**
    groupByFamily lists, in catalog order, the expected entry of every
    category with a qualifying node and of no other category: `idx` gives the
    category of each entry.
   */
  lemma GroupByFamilyEntries(data: Catalog, baseClasses: string, left: bool, flow: Option<seq<FlowNode>>)
    returns (idx: seq<int>)
    ensures |idx| == |GroupByFamilySpec(data, baseClasses, left, flow)|
    ensures var compatible := CompatibleTypes(baseClasses);
      var r := GroupByFamilySpec(data, baseClasses, left, flow);
      forall i :: 0 <= i < |r| ==>
        && 0 <= idx[i] < |data|
        && SomeQualifies(SeedOf(flow, compatible), CatalogNodes(data), data[idx[i]].1, compatible, left)
        && r[i] == Expected(SeedOf(flow, compatible), CatalogNodes(data), data[idx[i]], compatible, left)
    ensures forall i, j :: 0 <= i < j < |idx| ==> idx[i] < idx[j]
    ensures var compatible := CompatibleTypes(baseClasses);
      forall c :: 0 <= c < |data| && SomeQualifies(SeedOf(flow, compatible), CatalogNodes(data), data[c].1, compatible, left) ==>
        Expected(SeedOf(flow, compatible), CatalogNodes(data), data[c], compatible, left)
          in GroupByFamilySpec(data, baseClasses, left, flow)
  {
    var compatible := CompatibleTypes(baseClasses);
    var seed := SeedOf(flow, compatible);
    var all := CatalogNodes(data);
    GroupByFamilyReference(data, baseClasses, left, flow);
    idx := PureCandidatesSound(seed, all, data, compatible, left);
    PureCandidatesComplete(seed, all, data, compatible, left);
    var cs := PureCandidates(seed, all, data, compatible, left);
    forall c | 0 <= c < |data|
      ensures PurePicks(seed, all, data[c].1, compatible, left) != [] <==> SomeQualifies(seed, all, data[c].1, compatible, left)
      ensures ToGrouped(CategoryEntry(seed, all, data[c], compatible, left)) == Expected(seed, all, data[c], compatible, left)
    {
      ExpectedEntry(seed, all, data[c], compatible, left);
    }
    forall c | 0 <= c < |data| && SomeQualifies(seed, all, data[c].1, compatible, left)
      ensures Expected(seed, all, data[c], compatible, left) in GroupAll(cs)
    {
      var k :| 0 <= k < |cs| && cs[k] == CategoryEntry(seed, all, data[c], compatible, left);
      assert GroupAll(cs)[k] == ToGrouped(cs[k]);
    }
  }

  /** Category names are distinct, as the keys of an object are. */
  predicate DistinctCategories(data: Catalog)
  {
    forall i, j :: 0 <= i < j < |data| ==> data[i].0 != data[j].0
  }

  /** No family is listed twice. */
  lemma FamiliesDistinct(data: Catalog, baseClasses: string, left: bool, flow: Option<seq<FlowNode>>)
    requires DistinctCategories(data)
    ensures var r := GroupByFamilySpec(data, baseClasses, left, flow);
      forall i, j :: 0 <= i < j < |r| ==> r[i].family != r[j].family
  {
    var idx := GroupByFamilyEntries(data, baseClasses, left, flow);
    var r := GroupByFamilySpec(data, baseClasses, left, flow);
    forall i, j | 0 <= i < j < |r|
      ensures r[i].family != r[j].family
    {
      assert r[i].family == data[idx[i]].0 && r[j].family == data[idx[j]].0;
    }
  }

  // ---------------------------------------------------------------------
  // The memo and the flow seed
  // ---------------------------------------------------------------------

  /** A name already in the memo keeps its stored flags through a category scan. */
  lemma {:induction false} MemoAfterNodesKeeps(memo: map<string, Flags>, nodes: Category, compatible: set<string>)
    ensures forall k :: k in memo ==> MemoAfterNodes(memo, nodes, compatible)[k] == memo[k]
  {
    if nodes != [] {
      MemoAfterNodesKeeps(memo, nodes[..|nodes| - 1], compatible);
    }
  }

  /** A name already in the memo keeps its stored flags through the whole catalog scan. */
  lemma {:induction false} MemoAfterCatalogKeeps(memo: map<string, Flags>, cats: Catalog, compatible: set<string>)
    ensures forall k :: k in memo ==> k in MemoAfterCatalog(memo, cats, compatible)
    ensures forall k :: k in memo ==> MemoAfterCatalog(memo, cats, compatible)[k] == memo[k]
  {
    if cats != [] {
      var init := cats[..|cats| - 1];
      MemoAfterCatalogKeeps(memo, init, compatible);
      MemoAfterNodesKeeps(MemoAfterCatalog(memo, init, compatible), cats[|cats| - 1].1, compatible);
    }
  }

  /**
    The flow seeds one entry per node type it contains, and each flag is set
    exactly when some flow node of that type sets it.
   */
  lemma {:induction false} SeedMemoOr(flow: seq<FlowNode>, compatible: set<string>)
    ensures forall k :: k in SeedMemo(flow, compatible) <==> exists i :: 0 <= i < |flow| && flow[i].typ == k
    ensures forall k :: k in SeedMemo(flow, compatible) ==>
      (SeedMemo(flow, compatible)[k].inTemplate <==>
         exists i :: 0 <= i < |flow| && flow[i].typ == k && Classify(flow[i].node, compatible).inTemplate)
    ensures forall k :: k in SeedMemo(flow, compatible) ==>
      (SeedMemo(flow, compatible)[k].inBaseClasses <==>
         exists i :: 0 <= i < |flow| && flow[i].typ == k && Classify(flow[i].node, compatible).inBaseClasses)
  {
    forall k {
      SeedMemoHas(flow, compatible, k);
    }
    forall k {
      SeedMemoTemplate(flow, compatible, k);
    }
    forall k {
      SeedMemoBaseClasses(flow, compatible, k);
    }
  }

  /** The flow seeds exactly the types of its nodes. */
  lemma {:induction false} SeedMemoHas(flow: seq<FlowNode>, compatible: set<string>, k: string)
    ensures k in SeedMemo(flow, compatible) <==> exists i :: 0 <= i < |flow| && flow[i].typ == k
  {
    if flow != [] {
      var n := |flow| - 1;
      var init := flow[..n];
      SeedMemoHas(init, compatible, k);
      assert forall i :: 0 <= i < n ==> init[i] == flow[i];
      assert SeedMemo(flow, compatible) == SeedStep(SeedMemo(init, compatible), flow[n], compatible);
    }
  }

  /** A seeded template flag is the OR over the flow nodes of that type. */
  lemma {:induction false} SeedMemoTemplate(flow: seq<FlowNode>, compatible: set<string>, k: string)
    ensures k in SeedMemo(flow, compatible) ==>
      (SeedMemo(flow, compatible)[k].inTemplate <==>
         exists i :: 0 <= i < |flow| && flow[i].typ == k && Classify(flow[i].node, compatible).inTemplate)
  {
    if flow != [] {
      var n := |flow| - 1;
      var init := flow[..n];
      SeedMemoTemplate(init, compatible, k);
      SeedMemoHas(init, compatible, k);
      assert SeedMemo(flow, compatible) == SeedStep(SeedMemo(init, compatible), flow[n], compatible);
      assert (exists i :: 0 <= i < |flow| && flow[i].typ == k && Classify(flow[i].node, compatible).inTemplate) <==>
        (exists i :: 0 <= i < n && init[i].typ == k && Classify(init[i].node, compatible).inTemplate)
        || (flow[n].typ == k && Classify(flow[n].node, compatible).inTemplate) by {
        assert forall i :: 0 <= i < n ==> init[i] == flow[i];
      }
    }
  }

  /** A seeded base-class flag is the OR over the flow nodes of that type. */
  lemma {:induction false} SeedMemoBaseClasses(flow: seq<FlowNode>, compatible: set<string>, k: string)
    ensures k in SeedMemo(flow, compatible) ==>
      (SeedMemo(flow, compatible)[k].inBaseClasses <==>
         exists i :: 0 <= i < |flow| && flow[i].typ == k && Classify(flow[i].node, compatible).inBaseClasses)
  {
    if flow != [] {
      var n := |flow| - 1;
      var init := flow[..n];
      SeedMemoBaseClasses(init, compatible, k);
      SeedMemoHas(init, compatible, k);
      assert SeedMemo(flow, compatible) == SeedStep(SeedMemo(init, compatible), flow[n], compatible);
      assert (exists i :: 0 <= i < |flow| && flow[i].typ == k && Classify(flow[i].node, compatible).inBaseClasses) <==>
        (exists i :: 0 <= i < n && init[i].typ == k && Classify(init[i].node, compatible).inBaseClasses)
        || (flow[n].typ == k && Classify(flow[n].node, compatible).inBaseClasses) by {
        assert forall i :: 0 <= i < n ==> init[i] == flow[i];
      }
    }
  }

  lemma {:induction false} PurePicksCongruent(seed1: map<string, Flags>, seed2: map<string, Flags>, all: Category,
                                              nodes: Category, compatible: set<string>, outputs: bool)
    requires forall k :: k in Names(nodes) ==> Effective(seed1, all, k, compatible) == Effective(seed2, all, k, compatible)
    ensures PurePicks(seed1, all, nodes, compatible, outputs) == PurePicks(seed2, all, nodes, compatible, outputs)
  {
    if nodes != [] {
      var init := nodes[..|nodes| - 1];
      assert nodes == init + [nodes[|nodes| - 1]];
      NamesAppend(init, [nodes[|nodes| - 1]]);
      PurePicksCongruent(seed1, seed2, all, init, compatible, outputs);
    }
  }

  lemma {:induction false} PureCandidatesCongruent(seed1: map<string, Flags>, seed2: map<string, Flags>, all: Category,
                                                   cats: Catalog, compatible: set<string>, outputs: bool)
    requires forall k :: k in Names(CatalogNodes(cats)) ==> Effective(seed1, all, k, compatible) == Effective(seed2, all, k, compatible)
    ensures PureCandidates(seed1, all, cats, compatible, outputs) == PureCandidates(seed2, all, cats, compatible, outputs)
  {
    if cats != [] {
      var init := cats[..|cats| - 1];
      NamesAppend(CatalogNodes(init), cats[|cats| - 1].1);
      PureCandidatesCongruent(seed1, seed2, all, init, compatible, outputs);
      PurePicksCongruent(seed1, seed2, all, cats[|cats| - 1].1, compatible, outputs);
    }
  }

  /** Every flow node of a type the catalog defines carries the catalog's (first) definition. */
  predicate FlowMatchesCatalog(data: Catalog, flow: seq<FlowNode>)
  {
    forall i :: 0 <= i < |flow| ==>
      FirstDef(CatalogNodes(data), flow[i].typ).None? || FirstDef(CatalogNodes(data), flow[i].typ).value == flow[i].node
  }

  /** Seeding from a flow whose nodes carry the catalog's own definitions changes nothing. */
  lemma FlowWithCatalogDefinitions(data: Catalog, baseClasses: string, left: bool, flow: seq<FlowNode>)
    requires FlowMatchesCatalog(data, flow)
    ensures GroupByFamilySpec(data, baseClasses, left, Some(flow)) == GroupByFamilySpec(data, baseClasses, left, None)
  {
    var compatible := CompatibleTypes(baseClasses);
    var all := CatalogNodes(data);
    var seed := SeedMemo(flow, compatible);
    SeedMemoOr(flow, compatible);
    forall k | k in Names(all)
      ensures Effective(seed, all, k, compatible) == Effective(map[], all, k, compatible)
    {
      if k in seed {
        var d := FirstDef(all, k).value;
        assert forall i :: 0 <= i < |flow| && flow[i].typ == k ==> flow[i].node == d;
        var i :| 0 <= i < |flow| && flow[i].typ == k;
        assert flow[i].node == d;
      }
    }
    PureCandidatesCongruent(seed, map[], all, data, compatible, left);
    GroupByFamilyReference(data, baseClasses, left, Some(flow));
    GroupByFamilyReference(data, baseClasses, left, None);
  }

  // ---------------------------------------------------------------------
  // The field test
  // ---------------------------------------------------------------------

  /**
    No field of `d` can count by its own type: each is hidden, untyped, or of
    an excluded primitive type, and none lists input types.
   */
  predicate NoInputCapableField(d: NodeDef)
  {
    forall f :: f in d.template ==>
      && d.template[f].inputTypes.None?
      && (!d.template[f].show || d.template[f].typ == [] || d.template[f].typ in ExcludeTypes)
  }

  /**
    A node name all of whose catalog definitions have only hidden, untyped or
    primitive-typed fields without input types is never an input candidate,
    whatever the compatibility list holds.
   */
  lemma PrimitiveFieldsNeverInput(data: Catalog, baseClasses: string, name: string)
    requires forall p :: p in CatalogNodes(data) && p.0 == name ==> NoInputCapableField(p.1)
    ensures var cs := Candidates(map[], data, CompatibleTypes(baseClasses), false);
      forall i :: 0 <= i < |cs| ==> name !in cs[i].nodes
  {
    var compatible := CompatibleTypes(baseClasses);
    var all := CatalogNodes(data);
    CandidatesAgree(map[], all, data, compatible, false);
    var idx := PureCandidatesSound(map[], all, data, compatible, false);
    var cs := Candidates(map[], data, compatible, false);
    assert !Effective(map[], all, name, compatible).inTemplate;
    forall i | 0 <= i < |cs|
      ensures name !in cs[i].nodes
    {
      assert EntryAt(map[], all, data, idx[i], cs[i], compatible, false);
      PurePicksFacts(map[], all, data[idx[i]].1, compatible, false);
    }
  }

  /** Neither a base class nor an accepted input type of `d` is the empty name. */
  predicate NoEmptyTypeName(d: NodeDef)
  {
    && "" !in d.baseClasses
    && forall f :: f in d.template && d.template[f].inputTypes.Some? ==> "" !in d.template[f].inputTypes.value
  }

  /**
    An empty compatibility string is the set {""}: it matches nothing as long
    as no base class and no input type in the catalog is the empty name.
   */
  lemma EmptyCompatibility(data: Catalog, left: bool)
    requires forall p :: p in CatalogNodes(data) ==> NoEmptyTypeName(p.1)
    ensures GroupByFamilySpec(data, "", left, None) == []
  {
    var compatible := CompatibleTypes("");
    assert compatible == {""};
    var all := CatalogNodes(data);
    GroupByFamilyReference(data, "", left, None);
    forall c | 0 <= c < |data|
      ensures PurePicks(map[], all, data[c].1, compatible, left) == []
    {
      PurePicksFacts(map[], all, data[c].1, compatible, left);
      forall j | 0 <= j < |data[c].1|
        ensures !Qualifies(map[], all, data[c].1, j, compatible, left)
      {
        var name := data[c].1[j].0;
        if FirstDef(all, name).Some? {
          assert NoEmptyTypeName(FirstDef(all, name).value);
        }
      }
    }
    PureCandidatesEmpty(map[], all, data, compatible, left);
  }
}
