/** The dependency extractor: for every fragment definition, the names of the
    fragments it spreads anywhere in its selection tree. */
module Dependencies {
  import opened Ast

  /** The dependency map: fragment name to the spread names found in its body, in order. */
  type DependencyMap = map<Name, seq<Name>>

  /** The spread names of a selection set, left to right and depth first. */
  function SpreadsOf(ss: seq<Selection>): seq<Name>
    decreases ss
  {
    if ss == [] then [] else SelectionSpreads(ss[0]) + SpreadsOf(ss[1..])
  }

  /** A spread contributes its own name and nothing else; a field or an inline
      fragment contributes the spreads of its selection set. */
  function SelectionSpreads(s: Selection): seq<Name>
    decreases s
  {
    match s
    case FragmentSpread(n) => [n]
    case InlineFragment(sub) => SpreadsOf(sub)
    case Field(Absent) => []
    case Field(Present(sub)) => SpreadsOf(sub)
  }

  /** The names of the spread nodes of a flat node list, in list order. */
  function SpreadNames(nodes: seq<Selection>): seq<Name>
  {
    if nodes == [] then []
    else (if nodes[0].FragmentSpread? then [nodes[0].name] else []) + SpreadNames(nodes[1..])
  }

  lemma {:induction false} SpreadsOfAppend(a: seq<Selection>, b: seq<Selection>)
    ensures SpreadsOf(a + b) == SpreadsOf(a) + SpreadsOf(b)
    decreases |a|
  {
    if a == [] {
      assert a + b == b;
    } else {
      assert (a + b)[1..] == a[1..] + b;
      SpreadsOfAppend(a[1..], b);
    }
  }

  lemma {:induction false} SpreadNamesAppend(a: seq<Selection>, b: seq<Selection>)
    ensures SpreadNames(a + b) == SpreadNames(a) + SpreadNames(b)
    decreases |a|
  {
    if a == [] {
      assert a + b == b;
    } else {
      assert (a + b)[1..] == a[1..] + b;
      SpreadNamesAppend(a[1..], b);
    }
  }

  /** A name is listed exactly when a spread of that name is among the nodes. */
  lemma {:induction false} SpreadNamesMembership(nodes: seq<Selection>, n: Name)
    ensures n in SpreadNames(nodes) <==> FragmentSpread(n) in nodes
    decreases |nodes|
  {
    if nodes != [] {
      SpreadNamesMembership(nodes[1..], n);
      assert nodes == [nodes[0]] + nodes[1..];
    }
  }

  /** The spreads of a selection set are exactly the spread nodes met in a
      depth-first, left-to-right walk of the whole tree, in that order: the
      walk enters every selection that carries a selection set. */
  lemma {:induction false} SpreadsInPreorder(ss: seq<Selection>)
    ensures SpreadsOf(ss) == SpreadNames(Preorder(ss))
    decreases ss
  {
    if ss != [] {
      NodeSpreadsInPreorder(ss[0]);
      SpreadsInPreorder(ss[1..]);
      SpreadNamesAppend(NodePreorder(ss[0]), Preorder(ss[1..]));
    }
  }

  lemma {:induction false} NodeSpreadsInPreorder(s: Selection)
    ensures SelectionSpreads(s) == SpreadNames(NodePreorder(s))
    decreases s
  {
    match s
    case FragmentSpread(n) =>
      assert SpreadNames([s]) == [n] + SpreadNames([]);
    case Field(Absent) =>
      assert SpreadNames([s]) == [] + SpreadNames([]);
    case Field(Present(sub)) =>
      SpreadsInPreorder(sub);
      SpreadNamesAppend([s], Preorder(sub));
      assert SpreadNames([s]) == [] + SpreadNames([]);
    case InlineFragment(sub) =>
      SpreadsInPreorder(sub);
      SpreadNamesAppend([s], Preorder(sub));
      assert SpreadNames([s]) == [] + SpreadNames([]);
  }

  /** A name is a dependency of a selection set exactly when a spread of that
      name occurs somewhere in its tree. */
  lemma SpreadMembership(ss: seq<Selection>, n: Name)
    ensures n in SpreadsOf(ss) <==> FragmentSpread(n) in Preorder(ss)
  {
    SpreadsInPreorder(ss);
    SpreadNamesMembership(Preorder(ss), n);
  }

  /** Collects the spread names of a possibly missing selection set: a spread adds
      its name, a field or inline fragment adds what its own selection set holds. */
  method CollectSpreads(selectionSet: SelectionSet) returns (spreads: seq<Name>)
    ensures spreads == SpreadsOf(Items(selectionSet))
    ensures selectionSet.Absent? || selectionSet.selections == [] ==> spreads == []
    decreases |Preorder(Items(selectionSet))|
  {
    spreads := [];
    if selectionSet.Absent? {
      return;
    }
    var ss := selectionSet.selections;
    var i := 0;
    while i < |ss|
      invariant 0 <= i <= |ss|
      invariant spreads == SpreadsOf(ss[..i])
    {
      var sel := ss[i];
      assert ss[..i + 1] == ss[..i] + [sel];
      SpreadsOfAppend(ss[..i], [sel]);
      assert SpreadsOf([sel]) == SelectionSpreads(sel) + SpreadsOf([]);
      if sel.FragmentSpread? {
        spreads := spreads + [sel.name];
      } else {
        NestedSetSmaller(ss, i);
        var nested := CollectSpreads(SelectionSetOf(sel));
        spreads := spreads + nested;
      }
      i := i + 1;
    }
    assert ss[..i] == ss;
  }

  /** The map the extractor builds from a list of definitions, one definition at a
      time: a fragment definition (re)binds its name to its spreads, any other
      definition leaves the map alone. */
  function FragmentDependencies(defs: seq<Definition>): DependencyMap
  {
    if defs == [] then map[]
    else
      var earlier := FragmentDependencies(defs[..|defs| - 1]);
      match defs[|defs| - 1]
      case FragmentDefinition(n, body) => earlier[n := SpreadsOf(body)]
      case OtherDefinition => earlier
  }

  /** The names of the fragment definitions among `defs`. */
  function FragmentNames(defs: seq<Definition>): set<Name>
  {
    set i | 0 <= i < |defs| && defs[i].FragmentDefinition? :: defs[i].name
  }

  /** The map's keys are exactly the names of the fragment definitions. */
  lemma {:induction false} DependencyKeys(defs: seq<Definition>)
    ensures FragmentDependencies(defs).Keys == FragmentNames(defs)
    decreases |defs|
  {
    if defs != [] {
      var init := defs[..|defs| - 1];
      DependencyKeys(init);
      var last := |defs| - 1;
      forall n ensures n in FragmentNames(defs) <==> n in FragmentNames(init) || (defs[last].FragmentDefinition? && n == defs[last].name) {
        if n in FragmentNames(defs) {
          var i :| 0 <= i < |defs| && defs[i].FragmentDefinition? && defs[i].name == n;
          if i < last {
            assert init[i] == defs[i];
          }
        }
        if n in FragmentNames(init) {
          var i :| 0 <= i < |init| && init[i].FragmentDefinition? && init[i].name == n;
          assert defs[i] == init[i];
        }
      }
    }
  }

  /** A name defined by several fragment definitions maps to the spreads of the
      last of them. */
  lemma {:induction false} LastDefinitionWins(defs: seq<Definition>, j: nat)
    requires j < |defs| && defs[j].FragmentDefinition?
    requires forall k :: j < k < |defs| ==> !(defs[k].FragmentDefinition? && defs[k].name == defs[j].name)
    ensures defs[j].name in FragmentDependencies(defs)
    ensures FragmentDependencies(defs)[defs[j].name] == SpreadsOf(defs[j].selectionSet)
    decreases |defs|
  {
    if j < |defs| - 1 {
      var init := defs[..|defs| - 1];
      assert init[j] == defs[j];
      LastDefinitionWins(init, j);
    }
  }

  /** Walks the document's definitions and records, for every fragment definition,
      the spreads of its selection set. */
  method BuildFragmentDependencies(doc: Document) returns (fragDeps: DependencyMap)
    ensures fragDeps == FragmentDependencies(doc.definitions)
  {
    var defs := doc.definitions;
    fragDeps := map[];
    var i := 0;
    while i < |defs|
      invariant 0 <= i <= |defs|
      invariant fragDeps == FragmentDependencies(defs[..i])
    {
      assert defs[..i + 1][..i] == defs[..i];
      var d := defs[i];
      if d.FragmentDefinition? {
        var spreads := CollectSpreads(Present(d.selectionSet));
        fragDeps := fragDeps[d.name := spreads];
      }
      i := i + 1;
    }
    assert defs[..i] == defs;
  }
}
