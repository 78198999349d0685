/** The cycle detector: a depth-first search over the dependency map that keeps a
    "visited" set of fully explored names and a "stack" set of the names on the
    current search path, and fails on the first name it meets again on the stack. */
module CycleDetector {
  import opened Wrappers
  import opened Errors
  import opened Ast
  import opened Dependencies
  import opened Graph

  /** Lists the members of a set in some order, each once (the source's `list(stack)`,
      whose order is not specified). */
  method ListNames(s: set<Name>) returns (names: seq<Name>)
    ensures Elems(names) == s
    ensures |names| == |s|
  {
    names := [];
    var rest := s;
    while rest != {}
      invariant rest !! Elems(names)
      invariant Elems(names) + rest == s
      invariant |names| + |rest| == |s|
      decreases rest
    {
      var x :| x in rest;
      assert Elems(names + [x]) == Elems(names) + {x};
      names := names + [x];
      rest := rest - {x};
    }
  }

  /** `stack` holds exactly the names of `path`, and `path` follows edges of the graph. */
  ghost predicate StackIsPath(deps: DependencyMap, stack: set<Name>, path: seq<Name>)
  {
    stack == Elems(path) && IsPath(deps, path)
  }

  /** Every dependency of a visited name is visited and was finished before it;
      every finish time is below `clock`. */
  ghost predicate FinishedInOrder(deps: DependencyMap, visited: set<Name>, finish: map<Name, nat>, clock: nat)
  {
    && visited <= finish.Keys
    && (forall v :: v in visited ==> finish[v] < clock)
    && (forall v, w :: v in visited && w in Succ(deps, v) ==> w in visited && finish[w] < finish[v])
  }

  lemma PushKeepsPath(deps: DependencyMap, stack: set<Name>, path: seq<Name>, f: Name)
    requires StackIsPath(deps, stack, path)
    requires path != [] ==> Edge(deps, path[|path| - 1], f)
    ensures StackIsPath(deps, stack + {f}, path + [f])
  {
  }

  /** Finishing a name all of whose dependencies are finished keeps the order. */
  lemma FinishKeepsOrder(deps: DependencyMap, visited: set<Name>, finish: map<Name, nat>, clock: nat, f: Name)
    requires FinishedInOrder(deps, visited, finish, clock)
    requires f !in visited
    requires forall j :: 0 <= j < |Succ(deps, f)| ==> Succ(deps, f)[j] in visited
    ensures FinishedInOrder(deps, visited + {f}, finish[f := clock], clock + 1)
  {
  }

  /** The search state that the source threads through its recursive calls. */
  class DfsState {
    /** Names whose dependencies have all been explored without finding a cycle. */
    var visited: set<Name>
    /** Names whose exploration is under way. */
    var stack: set<Name>
    /** The names of `stack` in the order they were entered: the current search path. */
    ghost var path: seq<Name>
    /** The finish time of each visited name, and the next finish time to hand out. */
    ghost var finish: map<Name, nat>
    ghost var clock: nat

    /** The search invariant: the two sets are disjoint; the stack is a path of the
        graph; every dependency of a visited name is visited, and was visited earlier. */
    ghost predicate Valid(deps: DependencyMap)
      reads this
    {
      && stack !! visited
      && StackIsPath(deps, stack, path)
      && FinishedInOrder(deps, visited, finish, clock)
    }

    constructor ()
      ensures forall deps :: Valid(deps)
      ensures visited == {} && stack == {} && path == []
    {
      visited := {};
      stack := {};
      path := [];
      finish := map[];
      clock := 0;
    }

    /** The report for a name met again on the stack: the stack's names, then the name. */
    method ReportCycle(f: Name, ghost deps: DependencyMap) returns (r: Outcome<ValidationError>)
      requires StackIsPath(deps, stack, path) && f in stack
      requires Edge(deps, path[|path| - 1], f)
      ensures r.Fail? && r.error.CircularFragment? && |r.error.path| > 0
      ensures
        var p := r.error.path;
        var repeated := p[|p| - 1];
        && repeated == f
        && Elems(p[..|p| - 1]) == stack
        && |p| == |stack| + 1
        && CycleWithin(deps, repeated, stack)
    {
      ghost var k :| 0 <= k < |path| && path[k] == f;
      SuffixIsCycle(deps, path, k, f);
      var listed := ListNames(stack);
      var p := listed + [f];
      assert p[..|p| - 1] == listed;
      r := Fail(CircularFragment(p));
    }

    /** Pushes `f` on the stack. */
    method Enter(f: Name, ghost deps: DependencyMap)
      requires Valid(deps) && f !in stack && f !in visited
      requires path != [] ==> Edge(deps, path[|path| - 1], f)
      modifies this
      ensures Valid(deps)
      ensures stack == old(stack) + {f} && path == old(path) + [f]
      ensures visited == old(visited)
    {
      PushKeepsPath(deps, stack, path, f);
      stack := stack + {f};
      path := path + [f];
    }

    /** Pops `f` off the stack and marks it visited, once every dependency of `f`
        is visited; `stack0` and `path0` are the stack and path `f` was pushed on. */
    method Leave(f: Name, deps: DependencyMap, ghost stack0: set<Name>, ghost path0: seq<Name>)
      requires Valid(deps) && StackIsPath(deps, stack0, path0) && f !in stack0
      requires stack == stack0 + {f} && path == path0 + [f]
      requires forall j :: 0 <= j < |Succ(deps, f)| ==> Succ(deps, f)[j] in visited
      modifies this
      ensures Valid(deps)
      ensures stack == stack0 && path == path0
      ensures visited == old(visited) + {f}
      ensures forall b :: Reachable(deps, f, b) ==> b in visited
    {
      FinishKeepsOrder(deps, visited, finish, clock, f);
      stack := stack - {f};
      assert stack == stack0;
      path := path0;
      finish := finish[f := clock];
      clock := clock + 1;
      visited := visited + {f};
      ClosedContainsReachable(deps, visited, finish, f);
    }

    /** Explores `f`: fails if `f` is on the stack, returns at once if it is visited,
        and otherwise pushes it, explores its dependencies in order, pops it and
        marks it visited. */
    method Dfs(f: Name, deps: DependencyMap) returns (r: Outcome<ValidationError>)
      requires Valid(deps)
      requires path != [] ==> Edge(deps, path[|path| - 1], f)
      modifies this
      ensures r.Pass? ==> Valid(deps) && stack == old(stack) && path == old(path)
      ensures r.Pass? ==> old(visited) <= visited && f in visited
      ensures r.Pass? ==> forall b :: Reachable(deps, f, b) ==> b in visited
      ensures old(f in visited) ==> r.Pass? && visited == old(visited) && stack == old(stack)
      ensures r.Fail? ==> ReportsCycle(deps, r.error, old(stack))
      decreases |Names(deps) + {f} - stack - visited|
    {
      if f in stack {
        r := ReportCycle(f, deps);
        return;
      }
      if f in visited {
        ClosedContainsReachable(deps, visited, finish, f);
        return Pass;
      }
      Enter(f, deps);
      var dependencies := Succ(deps, f);
      var i := 0;
      while i < |dependencies|
        invariant 0 <= i <= |dependencies|
        invariant Valid(deps)
        invariant stack == old(stack) + {f} && path == old(path) + [f]
        invariant old(visited) <= visited
        invariant forall j :: 0 <= j < i ==> dependencies[j] in visited
      {
        var dep := dependencies[i];
        SuccInNames(deps, f, dep);
        MeasureDrops(Names(deps) + {f}, Names(deps) + {dep}, old(stack), old(visited), stack, visited, f);
        ghost var before := visited;
        var res := Dfs(dep, deps);
        if res.Fail? {
          return res;
        }
        PrefixStaysVisited(dependencies, i, before, visited);
        i := i + 1;
      }
      Leave(f, deps, old(stack), old(path));
      r := Pass;
    }
  }

  /** A circular-fragment report whose path lists at least the names of `onStack`
      and ends with a name that occurs earlier in it and lies on a cycle made of
      names of the report. */
  ghost predicate ReportsCycle(deps: DependencyMap, e: ValidationError, onStack: set<Name>)
  {
    && e.CircularFragment?
    && |e.path| > 0
    && var listed := e.path[..|e.path| - 1];
    && var repeated := e.path[|e.path| - 1];
    && onStack <= Elems(listed)
    && repeated in listed
    && CycleWithin(deps, repeated, Elems(listed))
  }

  /** Visiting more names keeps the explored prefix of a dependency list visited. */
  lemma PrefixStaysVisited(ds: seq<Name>, i: nat, before: set<Name>, after: set<Name>)
    requires i < |ds| && before <= after && ds[i] in after
    requires forall j :: 0 <= j < i ==> ds[j] in before
    ensures forall j :: 0 <= j < i + 1 ==> ds[j] in after
  {
  }

  /** Pushing a fresh name and visiting more names shrinks the set of unexplored
      names, also when the names counted shrink from `names0` to `names1`. */
  lemma MeasureDrops(names0: set<Name>, names1: set<Name>, stack0: set<Name>, visited0: set<Name>, stack1: set<Name>, visited1: set<Name>, f: Name)
    requires names1 <= names0
    requires f in names0 && f !in stack0 && f !in visited0
    requires stack1 == stack0 + {f} && visited0 <= visited1
    ensures |names1 - stack1 - visited1| < |names0 - stack0 - visited0|
  {
    var before := names0 - stack0 - visited0;
    var after := names1 - stack1 - visited1;
    assert after <= before - {f};
    assert |before - {f}| == |before| - 1;
    SubsetCard(after, before - {f});
  }

  lemma {:induction false} SubsetCard<T>(a: set<T>, b: set<T>)
    requires a <= b
    ensures |a| <= |b|
    decreases b
  {
    if a != {} {
      var x :| x in a;
      SubsetCard(a - {x}, b - {x});
    }
  }

  /** Runs the search from every key of the map that is not yet visited, each time
      from an empty stack; fails exactly when the graph has a cycle. */
  method DetectCycles(deps: DependencyMap) returns (r: Outcome<ValidationError>)
    ensures r.Pass? <==> !HasCycle(deps)
    ensures r.Fail? ==> ReportsCycle(deps, r.error, {})
  {
    var state := new DfsState();
    var pending := deps.Keys;
    while pending != {}
      invariant state.Valid(deps) && state.stack == {} && state.path == []
      invariant forall k :: k in deps && k !in pending ==> k in state.visited
      decreases pending
    {
      var name :| name in pending;
      pending := pending - {name};
      if name !in state.visited {
        state.stack := {};
        state.path := [];
        r := state.Dfs(name, deps);
        if r.Fail? {
          CycleWithinHasCycle(deps, r.error.path[|r.error.path| - 1], Elems(r.error.path[..|r.error.path| - 1]));
          return;
        }
      }
    }
    RankedCoverAcyclic(deps, state.visited, state.finish);
    r := Pass;
  }
}
