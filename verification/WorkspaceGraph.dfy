/** The workspace dependency graph, and the search that collects what an image is built from. */
module WorkspaceGraph {
  import opened Options

  /** One workspace package: its name, its directory, its binaries and its non-dev workspace dependencies. */
  datatype Package = Package(name: string, dir: string, bins: seq<string>, deps: seq<string>)

  datatype Workspace = Workspace(packages: seq<Package>, spaRoots: seq<string>)

  const FRONTEND := "frontend"

  function ByName(packages: seq<Package>, name: string): (r: Option<Package>)
    ensures r.Some? ==> r.value in packages && r.value.name == name
    ensures r.None? ==> forall p | p in packages :: p.name != name
  {
    if packages == [] then None
    else if packages[0].name == name then Some(packages[0])
    else
      assert packages == [packages[0]] + packages[1..];
      ByName(packages[1..], name)
  }

  function OwningBin(packages: seq<Package>, bin: string): (r: Option<Package>)
    ensures r.Some? ==> r.value in packages && bin in r.value.bins
    ensures r.None? ==> forall p | p in packages :: bin !in p.bins
  {
    if packages == [] then None
    else if bin in packages[0].bins then Some(packages[0])
    else
      assert packages == [packages[0]] + packages[1..];
      OwningBin(packages[1..], bin)
  }

  /** The dependencies of a name; a name without a package has none. */
  function Deps(packages: seq<Package>, name: string): seq<string> {
    match ByName(packages, name)
    case Some(p) => p.deps
    case None => []
  }

  // ---------------------------------------------------------------------------------------
  // Reachability
  // ---------------------------------------------------------------------------------------

  ghost predicate ReachableIn(packages: seq<Package>, from: string, to: string, steps: nat)
    decreases steps
  {
    if steps == 0 then from == to
    else exists d :: d in Deps(packages, from) && ReachableIn(packages, d, to, steps - 1)
  }

  /** Whether a chain of dependencies leads from one name to the other. */
  ghost predicate Reachable(packages: seq<Package>, from: string, to: string) {
    exists steps: nat :: ReachableIn(packages, from, to, steps)
  }

  lemma ReachesItself(packages: seq<Package>, n: string)
    ensures Reachable(packages, n, n)
  {
    assert ReachableIn(packages, n, n, 0);
  }

  lemma ReachesThrough(packages: seq<Package>, from: string, dep: string, to: string)
    requires dep in Deps(packages, from) && Reachable(packages, dep, to)
    ensures Reachable(packages, from, to)
  {
    var steps: nat :| ReachableIn(packages, dep, to, steps);
    assert ReachableIn(packages, from, to, steps + 1);
  }

  ghost predicate DepsClosed(packages: seq<Package>, names: set<string>) {
    forall n, d | n in names && d in Deps(packages, n) :: d in names
  }

  lemma {:induction false} ClosedHoldsReach(packages: seq<Package>, names: set<string>, from: string, to: string, steps: nat)
    requires DepsClosed(packages, names) && from in names && ReachableIn(packages, from, to, steps)
    ensures to in names
    decreases steps
  {
    if steps > 0 {
      var d :| d in Deps(packages, from) && ReachableIn(packages, d, to, steps - 1);
      ClosedHoldsReach(packages, names, d, to, steps - 1);
    }
  }

  /** Two graphs that agree on every name a closed set holds reach the same names from inside it. */
  lemma {:induction false} AgreeingReachIn(a: seq<Package>, b: seq<Package>, names: iset<string>, from: string, to: string, steps: nat)
    requires forall n, d | n in names && d in Deps(a, n) :: d in names
    requires from in names && forall n | n in names :: Deps(a, n) == Deps(b, n)
    ensures ReachableIn(a, from, to, steps) <==> ReachableIn(b, from, to, steps)
    decreases steps
  {
    if steps > 0 {
      forall d | d in Deps(a, from)
        ensures ReachableIn(a, d, to, steps - 1) <==> ReachableIn(b, d, to, steps - 1)
      {
        AgreeingReachIn(a, b, names, d, to, steps - 1);
      }
    }
  }

  lemma AgreeingReach(a: seq<Package>, b: seq<Package>, names: iset<string>, from: string, to: string)
    requires forall n, d | n in names && d in Deps(a, n) :: d in names
    requires from in names && forall n | n in names :: Deps(a, n) == Deps(b, n)
    ensures Reachable(a, from, to) <==> Reachable(b, from, to)
  {
    forall steps: nat { AgreeingReachIn(a, b, names, from, to, steps); }
  }

  lemma {:induction false} ReachesFurtherIn(packages: seq<Package>, from: string, n: string, d: string, steps: nat)
    requires ReachableIn(packages, from, n, steps) && d in Deps(packages, n)
    ensures ReachableIn(packages, from, d, steps + 1)
    decreases steps
  {
    if steps == 0 {
      assert ReachableIn(packages, d, d, 0);
    } else {
      var e :| e in Deps(packages, from) && ReachableIn(packages, e, n, steps - 1);
      ReachesFurtherIn(packages, e, n, d, steps - 1);
    }
  }

  lemma ReachesFurther(packages: seq<Package>, from: string, n: string, d: string)
    requires Reachable(packages, from, n) && d in Deps(packages, n)
    ensures Reachable(packages, from, d)
  {
    var steps: nat :| ReachableIn(packages, from, n, steps);
    ReachesFurtherIn(packages, from, n, d, steps);
  }

  /** A name reached from a package, where every dependency is a package, is a package. */
  lemma {:induction false} ReachedHasPackage(packages: seq<Package>, from: string, to: string, steps: nat)
    requires ByName(packages, from).Some? && ReachableIn(packages, from, to, steps)
    requires forall p, d | p in packages && d in p.deps :: ByName(packages, d).Some?
    ensures ByName(packages, to).Some?
    decreases steps
  {
    if steps > 0 {
      var d :| d in Deps(packages, from) && ReachableIn(packages, d, to, steps - 1);
      ReachedHasPackage(packages, d, to, steps - 1);
    }
  }

  // ---------------------------------------------------------------------------------------
  // The search
  // ---------------------------------------------------------------------------------------

  /** The visited names, grown in place. */
  class NameSet {
    var names: set<string>

    constructor ()
      ensures names == {}
    {
      names := {};
    }
  }

  /** Every name the search can meet. */
  ghost function Universe(packages: seq<Package>): set<string> {
    if packages == [] then {}
    else {packages[0].name} + (set d | d in packages[0].deps) + Universe(packages[1..])
  }

  lemma {:induction false} UniverseHolds(packages: seq<Package>, n: string)
    ensures forall d | d in Deps(packages, n) :: d in Universe(packages)
  {
    if packages != [] && packages[0].name != n {
      UniverseHolds(packages[1..], n);
    }
  }

  /** What one search from `start` does to the visited set: it grows by reachable names and leaves nothing half done. */
  ghost predicate Searched(packages: seq<Package>, start: string, before: set<string>, after: set<string>) {
    && before <= after && start in after
    && (forall n | n in after - before :: Reachable(packages, start, n))
    && (forall n, d | n in after - before && d in Deps(packages, n) :: d in after)
  }

  /** `dependency_closure`: depth first, stopping at names already visited. */
  method DependencyClosure(packages: seq<Package>, start: string, into: NameSet, ghost universe: set<string>)
    requires start in universe && Universe(packages) <= universe
    modifies into
    ensures Searched(packages, start, old(into.names), into.names)
    decreases universe - into.names
  {
    if start in into.names {
      return;
    }
    into.names := into.names + {start};
    ReachesItself(packages, start);
    var package := ByName(packages, start);
    if package.None? {
      return;
    }
    var deps := package.value.deps;
    UniverseHolds(packages, start);
    for i := 0 to |deps|
      invariant old(into.names) + {start} <= into.names
      invariant forall n | n in into.names - old(into.names) :: Reachable(packages, start, n)
      invariant forall n, d | n in into.names - old(into.names) && n != start && d in Deps(packages, n) :: d in into.names
      invariant forall j | 0 <= j < i :: deps[j] in into.names
    {
      ghost var mid := into.names;
      assert deps[i] in Deps(packages, start);
      DependencyClosure(packages, deps[i], into, universe);
      forall n | n in into.names - mid ensures Reachable(packages, start, n) {
        ReachesThrough(packages, start, deps[i], n);
      }
    }
  }

  /** Started on a closed set, the search adds exactly what is reachable, and leaves the set closed. */
  lemma SearchIsReach(packages: seq<Package>, start: string, before: set<string>, after: set<string>)
    requires Searched(packages, start, before, after) && DepsClosed(packages, before)
    ensures DepsClosed(packages, after)
    ensures forall n :: n in after <==> n in before || Reachable(packages, start, n)
  {
    assert DepsClosed(packages, after);
    forall n | Reachable(packages, start, n) ensures n in after {
      var steps: nat :| ReachableIn(packages, start, n, steps);
      ClosedHoldsReach(packages, after, start, n, steps);
    }
  }

  /** The packages one image is built from: its binary's, and for the frontend the SPA's as well. */
  ghost predicate BuiltFrom(ws: Workspace, bin: string, n: string) {
    || (OwningBin(ws.packages, bin).Some? && Reachable(ws.packages, OwningBin(ws.packages, bin).value.name, n))
    || (bin == FRONTEND && exists root | root in ws.spaRoots :: Reachable(ws.packages, root, n))
  }

  /** `reach`: one search from the binary's package, then for the frontend one from each SPA root. */
  method Reach(ws: Workspace, bin: string) returns (reach: set<string>)
    ensures forall n :: n in reach <==> BuiltFrom(ws, bin, n)
    ensures DepsClosed(ws.packages, reach)
  {
    var visited := new NameSet();
    var owner := OwningBin(ws.packages, bin);
    if owner.Some? {
      var start := owner.value.name;
      DependencyClosure(ws.packages, start, visited, Universe(ws.packages) + {start});
      SearchIsReach(ws.packages, start, {}, visited.names);
    }
    if bin == FRONTEND {
      for i := 0 to |ws.spaRoots|
        invariant DepsClosed(ws.packages, visited.names)
        invariant forall n :: n in visited.names <==>
          || (owner.Some? && Reachable(ws.packages, owner.value.name, n))
          || exists j | 0 <= j < i :: Reachable(ws.packages, ws.spaRoots[j], n)
      {
        ghost var before := visited.names;
        var root := ws.spaRoots[i];
        DependencyClosure(ws.packages, root, visited, Universe(ws.packages) + {root});
        SearchIsReach(ws.packages, root, before, visited.names);
      }
    }
    reach := visited.names;
  }
}
