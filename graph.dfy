/** The fragment dependency graph: a name's successors are the names it spreads;
    a name that is not a key of the map (a dangling spread) has none. */
module Graph {
  import opened Ast
  import opened Dependencies

  /** The dependencies of `v`; the empty list when `v` is not a key. */
  function Succ(deps: DependencyMap, v: Name): seq<Name>
  {
    if v in deps then deps[v] else []
  }

  predicate Edge(deps: DependencyMap, a: Name, b: Name)
  {
    b in Succ(deps, a)
  }

  /** The elements of a sequence, as a set. */
  function Elems<T>(s: seq<T>): set<T>
  {
    set x | x in s
  }

  /** Every name the graph mentions: the keys and every dependency of a key. */
  function Names(deps: DependencyMap): set<Name>
  {
    deps.Keys + (set k, n | k in deps && n in deps[k] :: n)
  }

  /** Each name of `p` spreads the next one. */
  ghost predicate IsPath(deps: DependencyMap, p: seq<Name>)
  {
    forall i :: 0 <= i < |p| - 1 ==> Edge(deps, p[i], p[i + 1])
  }

  /** A non-empty path whose last name spreads its first one (a self-spread is a cycle of length 1). */
  ghost predicate IsCycle(deps: DependencyMap, c: seq<Name>)
  {
    |c| > 0 && IsPath(deps, c) && Edge(deps, c[|c| - 1], c[0])
  }

  ghost predicate HasCycle(deps: DependencyMap)
  {
    exists c :: IsCycle(deps, c)
  }

  ghost predicate OnCycle(deps: DependencyMap, x: Name)
  {
    exists c :: IsCycle(deps, c) && c[0] == x
  }

  /** `x` lies on a cycle all of whose names are among `names`. */
  ghost predicate CycleWithin(deps: DependencyMap, x: Name, names: set<Name>)
  {
    exists c :: IsCycle(deps, c) && c[0] == x && Elems(c) <= names
  }

  ghost predicate Reachable(deps: DependencyMap, a: Name, b: Name)
  {
    exists p :: IsPath(deps, p) && |p| > 0 && p[0] == a && p[|p| - 1] == b
  }

  lemma CycleWithinHasCycle(deps: DependencyMap, x: Name, names: set<Name>)
    requires CycleWithin(deps, x, names)
    ensures OnCycle(deps, x) && HasCycle(deps)
  {
  }

  /** Every successor of every name of the graph is again a name of the graph. */
  lemma SuccInNames(deps: DependencyMap, v: Name, w: Name)
    requires Edge(deps, v, w)
    ensures v in deps && w in Names(deps)
  {
  }

  /** Every name on a cycle is a key: a dangling spread has no edges, so it is on no cycle. */
  lemma CycleNamesAreKeys(deps: DependencyMap, c: seq<Name>, i: nat)
    requires IsCycle(deps, c) && i < |c|
    ensures c[i] in deps
  {
    if i < |c| - 1 {
      assert Edge(deps, c[i], c[i + 1]);
    }
  }

  /** A name that is not a key is on no cycle. */
  lemma DanglingNotOnCycle(deps: DependencyMap, x: Name)
    requires x !in deps
    ensures !OnCycle(deps, x)
  {
    if OnCycle(deps, x) {
      var c :| IsCycle(deps, c) && c[0] == x;
      CycleNamesAreKeys(deps, c, 0);
    }
  }

  /** Closing a path back onto one of its own names makes a cycle from that name on. */
  lemma SuffixIsCycle(deps: DependencyMap, p: seq<Name>, k: nat, x: Name)
    requires IsPath(deps, p) && k < |p| && p[k] == x && Edge(deps, p[|p| - 1], x)
    ensures IsCycle(deps, p[k..]) && p[k..][0] == x && Elems(p[k..]) <= Elems(p)
  {
  }

  /** Along a path that starts in a successor-closed set whose ranks strictly
      decrease along every edge, the path stays in the set and the rank of the
      `i`-th name is at least `i` below the first one's. */
  lemma {:induction false} RankDecreasesAlongPath(deps: DependencyMap, s: set<Name>, rank: map<Name, nat>, p: seq<Name>, i: nat)
    requires s <= rank.Keys
    requires forall v, w :: v in s && w in Succ(deps, v) ==> w in s && rank[w] < rank[v]
    requires IsPath(deps, p) && |p| > 0 && p[0] in s && i < |p|
    ensures p[i] in s && rank[p[i]] + i <= rank[p[0]]
  {
    if i > 0 {
      RankDecreasesAlongPath(deps, s, rank, p, i - 1);
      assert Edge(deps, p[i - 1], p[i]);
    }
  }

  /** Everything reachable from a member of a successor-closed ranked set is in the set. */
  lemma ClosedContainsReachable(deps: DependencyMap, s: set<Name>, rank: map<Name, nat>, a: Name)
    requires s <= rank.Keys
    requires forall v, w :: v in s && w in Succ(deps, v) ==> w in s && rank[w] < rank[v]
    requires a in s
    ensures forall b :: Reachable(deps, a, b) ==> b in s
  {
    forall b | Reachable(deps, a, b) ensures b in s {
      var p :| IsPath(deps, p) && |p| > 0 && p[0] == a && p[|p| - 1] == b;
      RankDecreasesAlongPath(deps, s, rank, p, |p| - 1);
    }
  }

  /** A successor-closed set covering every key, with ranks that strictly decrease
      along every edge, leaves no room for a cycle. */
  lemma RankedCoverAcyclic(deps: DependencyMap, s: set<Name>, rank: map<Name, nat>)
    requires deps.Keys <= s <= rank.Keys
    requires forall v, w :: v in s && w in Succ(deps, v) ==> w in s && rank[w] < rank[v]
    ensures !HasCycle(deps)
  {
    if HasCycle(deps) {
      var c :| IsCycle(deps, c);
      CycleNamesAreKeys(deps, c, 0);
      RankDecreasesAlongPath(deps, s, rank, c, |c| - 1);
    }
  }

  /** An empty map has no cycle. */
  lemma EmptyAcyclic(deps: DependencyMap)
    requires deps == map[]
    ensures !HasCycle(deps)
  {
  }

  /** A name from which only a ranked, successor-closed set is reachable lies on no cycle. */
  lemma NotOnCycleWhenRankedBelow(deps: DependencyMap, rank: map<Name, nat>, x: Name)
    requires x in rank
    requires forall v, w :: v in rank && w in Succ(deps, v) ==> w in rank && rank[w] < rank[v]
    ensures !OnCycle(deps, x)
  {
    if OnCycle(deps, x) {
      var c :| IsCycle(deps, c) && c[0] == x;
      RankDecreasesAlongPath(deps, rank.Keys, rank, c, |c| - 1);
    }
  }
}
