/** The parsed query document, as far as the circular-fragment validator looks at it. */
module Ast {

  type Name = string

  /** One selection of a selection set. */
  datatype Selection =
      /** A field; a leaf field carries no selection set. */
    | Field(fieldSet: SelectionSet)
      /** An inline fragment always carries a selection set, but no name. */
    | InlineFragment(inlineSelections: seq<Selection>)
      /** A spread `...name` of a named fragment; it has no body of its own. */
    | FragmentSpread(name: Name)

  /** A selection set that may be missing: `Absent` is the parser's `None`. */
  datatype SelectionSet = Absent | Present(selections: seq<Selection>)

  /** A top-level definition: a named fragment, or anything else (an operation, say). */
  datatype Definition =
    | FragmentDefinition(name: Name, selectionSet: seq<Selection>)
    | OtherDefinition

  datatype Document = Document(definitions: seq<Definition>)

  /** The selections of a possibly missing selection set; a missing one has none. */
  function Items(selectionSet: SelectionSet): seq<Selection>
  {
    if selectionSet.Present? then selectionSet.selections else []
  }

  /** The selection set a selection carries, `Absent` for a spread. */
  function SelectionSetOf(s: Selection): SelectionSet
  {
    match s
    case Field(sub) => sub
    case InlineFragment(sub) => Present(sub)
    case FragmentSpread(_) => Absent
  }

  /** Every selection node of a selection set, left to right, each node
      followed by the nodes below it (a depth-first pre-order listing). */
  function Preorder(ss: seq<Selection>): seq<Selection>
    decreases ss
  {
    if ss == [] then [] else NodePreorder(ss[0]) + Preorder(ss[1..])
  }

  /** The node `s` followed by every node below it. */
  function NodePreorder(s: Selection): seq<Selection>
    decreases s
  {
    match s
    case Field(Absent) => [s]
    case Field(Present(sub)) => [s] + Preorder(sub)
    case InlineFragment(sub) => [s] + Preorder(sub)
    case FragmentSpread(_) => [s]
  }

  lemma {:induction false} PreorderAppend(a: seq<Selection>, b: seq<Selection>)
    ensures Preorder(a + b) == Preorder(a) + Preorder(b)
    decreases |a|
  {
    if a == [] {
      assert a + b == b;
    } else {
      assert (a + b)[1..] == a[1..] + b;
      PreorderAppend(a[1..], b);
    }
  }

  /** A node lists itself, then the pre-order of the selection set it carries. */
  lemma NodePreorderUnfolds(s: Selection)
    ensures NodePreorder(s) == [s] + Preorder(Items(SelectionSetOf(s)))
  {
  }

  /** The selection set under the `i`-th selection of `ss` has fewer nodes than
      `ss` itself: this is what bounds the recursion of the spread collector. */
  lemma {:induction false} NestedSetSmaller(ss: seq<Selection>, i: nat)
    requires i < |ss|
    ensures |Preorder(Items(SelectionSetOf(ss[i])))| < |Preorder(ss)|
  {
    var left, mid, right := ss[..i], [ss[i]], ss[i + 1..];
    assert ss == left + mid + right;
    PreorderAppend(left + mid, right);
    PreorderAppend(left, mid);
    assert mid[1..] == [];
    assert Preorder(mid) == NodePreorder(ss[i]) + Preorder([]);
    NodePreorderUnfolds(ss[i]);
  }
}
