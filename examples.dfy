/** Concrete documents and what the model says about them. */
module Examples {
  import opened Ast
  import opened Dependencies
  import opened Graph

  /** `fragment A on T { ...A }` */
  function SelfSpread(): Document
  {
    Document([FragmentDefinition("A", [FragmentSpread("A")])])
  }

  /** A self-spread is a cycle of length one. */
  lemma SelfSpreadIsCycle()
    ensures FragmentDependencies(SelfSpread().definitions) == map["A" := ["A"]]
    ensures OnCycle(FragmentDependencies(SelfSpread().definitions), "A")
  {
    var defs := SelfSpread().definitions;
    assert defs[..|defs| - 1] == [];
    assert SpreadsOf([FragmentSpread("A")]) == ["A"];
    var deps := FragmentDependencies(defs);
    assert deps == FragmentDependencies(defs[..|defs| - 1])["A" := ["A"]];
    assert deps.Keys == {"A"};
    assert IsCycle(deps, ["A"]);
  }

  /** `fragment A on T { f { ...B } }  fragment B on T { ... on T { ...A } }`,
      with an operation in between. */
  function TwoCycle(): Document
  {
    Document([
      FragmentDefinition("A", [Field(Present([FragmentSpread("B")]))]),
      OtherDefinition,
      FragmentDefinition("B", [InlineFragment([FragmentSpread("A")])])
    ])
  }

  lemma TwoCycleDependencies()
    ensures FragmentDependencies(TwoCycle().definitions) == map["A" := ["B"], "B" := ["A"]]
    ensures OnCycle(FragmentDependencies(TwoCycle().definitions), "A")
  {
    var defs := TwoCycle().definitions;
    assert SpreadsOf([FragmentSpread("B")]) == ["B"];
    assert SpreadsOf([FragmentSpread("A")]) == ["A"];
    assert SpreadsOf([Field(Present([FragmentSpread("B")]))]) == ["B"];
    assert SpreadsOf([InlineFragment([FragmentSpread("A")])]) == ["A"];
    assert defs[..1][..|defs[..1]| - 1] == [];
    assert FragmentDependencies(defs[..1][..|defs[..1]| - 1]) == map[];
    assert FragmentDependencies(defs[..1]) == map["A" := ["B"]];
    assert defs[..2][..|defs[..2]| - 1] == defs[..1];
    assert FragmentDependencies(defs[..2]) == map["A" := ["B"]];
    assert defs[..|defs| - 1] == defs[..2];
    var deps := map["A" := ["B"], "B" := ["A"]];
    assert FragmentDependencies(defs) == deps;
    assert IsCycle(deps, ["A", "B"]);
  }

  /** Every cycle report for the two-cycle names both fragments. */
  lemma TwoCycleReportNamesBoth(x: Name, names: set<Name>)
    requires CycleWithin(FragmentDependencies(TwoCycle().definitions), x, names)
    ensures "A" in names && "B" in names
  {
    TwoCycleDependencies();
    var deps := map["A" := ["B"], "B" := ["A"]];
    var c :| IsCycle(deps, c) && c[0] == x && Elems(c) <= names;
    CycleNamesAreKeys(deps, c, 0);
    var next := if |c| > 1 then c[1] else c[0];
    assert Edge(deps, c[0], next);
    assert c[0] in names && next in names;
  }

  /** `A -> B -> C -> A` beside an unrelated `D -> E`. */
  function LongCycle(): map<Name, seq<Name>>
  {
    map["A" := ["B"], "B" := ["C"], "C" := ["A"], "D" := ["E"], "E" := []]
  }

  /** The long cycle is found; `D` and `E` lie on no cycle. */
  lemma LongCycleOnlyThroughABC()
    ensures OnCycle(LongCycle(), "A")
    ensures !OnCycle(LongCycle(), "D") && !OnCycle(LongCycle(), "E")
  {
    var deps := LongCycle();
    assert IsCycle(deps, ["A", "B", "C"]);
    NotOnCycleWhenRankedBelow(deps, map["E" := 0, "D" := 1], "D");
    NotOnCycleWhenRankedBelow(deps, map["E" := 0, "D" := 1], "E");
  }

  /** `fragment A on T { ...Missing }  fragment B on T { ...A }`: a dangling spread. */
  function Dangling(): map<Name, seq<Name>>
  {
    map["A" := ["Missing"], "B" := ["A"]]
  }

  lemma DanglingSpreadAcyclic()
    ensures !HasCycle(Dangling())
  {
    var deps := Dangling();
    var rank := map["Missing" := 0, "A" := 1, "B" := 2];
    RankedCoverAcyclic(deps, rank.Keys, rank);
  }
}
