/**
 Why HEAD's dependency graph is enough: where the manifests an image reaches at HEAD are unchanged,
 the graph of the older revision gives the image the same reach and every path the same relevance.
 */
module HeadGraph {
  import opened Options
  import opened WorkspaceGraph
  import opened PathRules

  function InDirectory(packages: seq<Package>, dir: string): (r: Option<Package>)
    ensures r.Some? ==> r.value in packages && r.value.dir == dir
    ensures r.None? ==> forall p | p in packages :: p.dir != dir
  {
    if packages == [] then None
    else if packages[0].dir == dir then Some(packages[0])
    else
      assert packages == [packages[0]] + packages[1..];
      InDirectory(packages[1..], dir)
  }

  /** The host packages the SPA path-depends on; a directory that holds none is passed over. */
  function SpaNames(packages: seq<Package>, dirs: seq<string>): seq<string> {
    if dirs == [] then []
    else
      (match InDirectory(packages, dirs[0])
       case Some(p) => [p.name]
       case None => []) + SpaNames(packages, dirs[1..])
  }

  /** Directories, names and binaries are each used once. */
  ghost predicate Unique(packages: seq<Package>) {
    && (forall i, j | 0 <= i < j < |packages| :: packages[i].dir != packages[j].dir)
    && (forall i, j | 0 <= i < j < |packages| :: packages[i].name != packages[j].name)
    && (forall i, j, bin | 0 <= i < j < |packages| && bin in packages[i].bins :: bin !in packages[j].bins)
  }

  /** The SPA's roots are the names of the packages in the directories it depends on, and no others. */
  lemma {:induction false} SpaNamesIff(packages: seq<Package>, dirs: seq<string>, n: string)
    requires Unique(packages)
    ensures n in SpaNames(packages, dirs) <==> exists p | p in packages :: p.dir in dirs && p.name == n
  {
    if dirs != [] {
      SpaNamesIff(packages, dirs[1..], n);
      assert forall d :: d in dirs <==> d == dirs[0] || d in dirs[1..];
      forall i | 0 <= i < |packages| && packages[i].dir == dirs[0] ensures InDirectory(packages, dirs[0]) == Some(packages[i]) {
        InDirectoryAt(packages, i);
      }
    }
  }

  ghost predicate DepsArePackages(packages: seq<Package>) {
    forall p, d | p in packages && d in p.deps :: ByName(packages, d).Some?
  }

  /** The same member directories, in the same order. */
  ghost predicate SameDirectories(a: seq<Package>, b: seq<Package>) {
    |a| == |b| && forall i | 0 <= i < |a| :: a[i].dir == b[i].dir
  }

  /** Every package that `bin` reaches at `head` is the same at `base`. */
  ghost predicate Agree(base: seq<Package>, head: Workspace, bin: string) {
    && SameDirectories(base, head.packages)
    && forall i | 0 <= i < |base| && BuiltFrom(head, bin, head.packages[i].name) :: base[i] == head.packages[i]
  }

  ghost predicate SpaRootsArePackages(ws: Workspace) {
    forall root | root in ws.spaRoots :: ByName(ws.packages, root).Some?
  }

  lemma InDirectoryAt(packages: seq<Package>, i: nat)
    requires Unique(packages) && i < |packages|
    ensures InDirectory(packages, packages[i].dir) == Some(packages[i])
  {
    assert packages[i] in packages;
    var j :| 0 <= j < |packages| && packages[j] == InDirectory(packages, packages[i].dir).value;
  }

  lemma ByNameAt(packages: seq<Package>, i: nat)
    requires Unique(packages) && i < |packages|
    ensures ByName(packages, packages[i].name) == Some(packages[i])
  {
    assert packages[i] in packages;
    var j :| 0 <= j < |packages| && packages[j] == ByName(packages, packages[i].name).value;
  }

  lemma OwnerIsReached(ws: Workspace, bin: string)
    requires OwningBin(ws.packages, bin).Some?
    ensures BuiltFrom(ws, bin, OwningBin(ws.packages, bin).value.name)
  {
    ReachesItself(ws.packages, OwningBin(ws.packages, bin).value.name);
  }

  lemma SpaRootIsReached(ws: Workspace, n: string)
    requires n in ws.spaRoots
    ensures BuiltFrom(ws, FRONTEND, n)
  {
    ReachesItself(ws.packages, n);
  }

  lemma BuiltFromClosed(ws: Workspace, bin: string, n: string, d: string)
    requires BuiltFrom(ws, bin, n) && d in Deps(ws.packages, n)
    ensures BuiltFrom(ws, bin, d)
  {
    if OwningBin(ws.packages, bin).Some? && Reachable(ws.packages, OwningBin(ws.packages, bin).value.name, n) {
      ReachesFurther(ws.packages, OwningBin(ws.packages, bin).value.name, n, d);
    } else {
      var root :| root in ws.spaRoots && Reachable(ws.packages, root, n);
      ReachesFurther(ws.packages, root, n, d);
    }
  }

  // ---------------------------------------------------------------------------------------
  // What an image is built from, as chains of packages
  // ---------------------------------------------------------------------------------------

  predicate DependsOn(packages: seq<Package>, n: string, d: string) {
    exists p | p in packages :: p.name == n && d in p.deps
  }

  /** Names each of which is a package that depends on the next. */
  predicate IsChain(packages: seq<Package>, chain: seq<string>) {
    chain != [] && forall i | 0 <= i < |chain| - 1 :: DependsOn(packages, chain[i], chain[i + 1])
  }

  lemma DepsIff(packages: seq<Package>, n: string, d: string)
    requires Unique(packages)
    ensures d in Deps(packages, n) <==> DependsOn(packages, n, d)
  {
    forall i | 0 <= i < |packages| && packages[i].name == n ensures ByName(packages, n) == Some(packages[i]) {
      ByNameAt(packages, i);
    }
  }

  lemma {:induction false} ReachIsChain(packages: seq<Package>, from: string, to: string, steps: nat) returns (chain: seq<string>)
    requires Unique(packages) && ReachableIn(packages, from, to, steps)
    ensures IsChain(packages, chain) && chain[0] == from && chain[|chain| - 1] == to
    decreases steps
  {
    if steps == 0 {
      chain := [from];
    } else {
      var d :| d in Deps(packages, from) && ReachableIn(packages, d, to, steps - 1);
      DepsIff(packages, from, d);
      var rest := ReachIsChain(packages, d, to, steps - 1);
      chain := [from] + rest;
      assert forall i | 0 < i < |chain| - 1 :: chain[i] == rest[i - 1] && chain[i + 1] == rest[i];
    }
  }

  lemma {:induction false} ChainReaches(packages: seq<Package>, chain: seq<string>)
    requires Unique(packages) && IsChain(packages, chain)
    ensures Reachable(packages, chain[0], chain[|chain| - 1])
  {
    if |chain| == 1 {
      ReachesItself(packages, chain[0]);
    } else {
      var rest := chain[1..];
      forall i | 0 <= i < |rest| - 1 ensures DependsOn(packages, rest[i], rest[i + 1]) {
        var k := i + 1;
        assert DependsOn(packages, chain[k], chain[k + 1]);
      }
      ChainReaches(packages, rest);
      assert DependsOn(packages, chain[0], chain[0 + 1]);
      DepsIff(packages, chain[0], rest[0]);
      ReachesThrough(packages, chain[0], rest[0], chain[|chain| - 1]);
    }
  }

  /** Where an image's chains start: the package that builds the binary, and for the frontend the SPA's roots. */
  predicate StartsImage(ws: Workspace, bin: string, start: string) {
    || (exists p | p in ws.packages :: bin in p.bins && p.name == start)
    || (bin == "frontend" && start in ws.spaRoots)
  }

  lemma OwningBinIff(packages: seq<Package>, bin: string, start: string)
    requires Unique(packages)
    ensures OwningBin(packages, bin).Some? && OwningBin(packages, bin).value.name == start
       <==> exists p | p in packages :: bin in p.bins && p.name == start
  {
    if p :| p in packages && bin in p.bins && p.name == start {
      var i :| 0 <= i < |packages| && packages[i] == p;
      var j :| 0 <= j < |packages| && packages[j] == OwningBin(packages, bin).value;
    }
  }

  /** An image is built from exactly the names that a chain leads to from where the image starts. */
  lemma BuiltFromIff(ws: Workspace, bin: string, n: string)
    requires Unique(ws.packages)
    ensures BuiltFrom(ws, bin, n) <==>
              exists chain :: IsChain(ws.packages, chain) && StartsImage(ws, bin, chain[0]) && chain[|chain| - 1] == n
  {
    if BuiltFrom(ws, bin, n) {
      BuiltFromStart(ws, bin, n);
      var start :| StartsImage(ws, bin, start) && Reachable(ws.packages, start, n);
      var steps: nat :| ReachableIn(ws.packages, start, n, steps);
      var chain := ReachIsChain(ws.packages, start, n, steps);
    }
    if chain :| IsChain(ws.packages, chain) && StartsImage(ws, bin, chain[0]) && chain[|chain| - 1] == n {
      ChainReaches(ws.packages, chain);
      OwningBinIff(ws.packages, bin, chain[0]);
    }
  }

  lemma BuiltFromStart(ws: Workspace, bin: string, n: string)
    requires Unique(ws.packages) && BuiltFrom(ws, bin, n)
    ensures exists start :: StartsImage(ws, bin, start) && Reachable(ws.packages, start, n)
  {
    if OwningBin(ws.packages, bin).Some? && Reachable(ws.packages, OwningBin(ws.packages, bin).value.name, n) {
      OwningBinIff(ws.packages, bin, OwningBin(ws.packages, bin).value.name);
    } else {
      var root :| root in ws.spaRoots && Reachable(ws.packages, root, n);
      assert StartsImage(ws, bin, root);
    }
  }

  /** At HEAD everything an image reaches is a package. */
  lemma ReachIsPackages(ws: Workspace, bin: string, n: string)
    requires DepsArePackages(ws.packages) && SpaRootsArePackages(ws) && BuiltFrom(ws, bin, n)
    ensures ByName(ws.packages, n).Some?
  {
    if OwningBin(ws.packages, bin).Some? && Reachable(ws.packages, OwningBin(ws.packages, bin).value.name, n) {
      var start := OwningBin(ws.packages, bin).value;
      assert ByName(ws.packages, start.name).Some?;
      var steps: nat :| ReachableIn(ws.packages, start.name, n, steps);
      ReachedHasPackage(ws.packages, start.name, n, steps);
    } else {
      var root :| root in ws.spaRoots && Reachable(ws.packages, root, n);
      var steps: nat :| ReachableIn(ws.packages, root, n, steps);
      ReachedHasPackage(ws.packages, root, n, steps);
    }
  }

  /** What the planner knows of the two revisions. */
  ghost predicate Comparable(base: seq<Package>, head: Workspace, bin: string) {
    && Unique(base) && Unique(head.packages)
    && DepsArePackages(head.packages) && SpaRootsArePackages(head)
    && Agree(base, head, bin)
  }

  /** A name the image reaches at HEAD stands in the same place at the base. */
  lemma SameByName(base: seq<Package>, head: Workspace, bin: string, n: string) returns (i: nat)
    requires Comparable(base, head, bin) && BuiltFrom(head, bin, n)
    ensures i < |base| == |head.packages| && base[i] == head.packages[i] && base[i].name == n
    ensures ByName(base, n) == ByName(head.packages, n) == Some(base[i])
  {
    ReachIsPackages(head, bin, n);
    var p := ByName(head.packages, n).value;
    i :| 0 <= i < |head.packages| && head.packages[i] == p;
    assert base[i] == p;
    ByNameAt(base, i);
  }

  /** From a name the image reaches at HEAD, both revisions reach the same names. */
  lemma SameReach(base: seq<Package>, head: Workspace, bin: string, from: string, to: string)
    requires Comparable(base, head, bin) && BuiltFrom(head, bin, from)
    ensures Reachable(base, from, to) <==> Reachable(head.packages, from, to)
  {
    var names := iset n | BuiltFrom(head, bin, n);
    forall n, d | n in names && d in Deps(head.packages, n) ensures d in names { BuiltFromClosed(head, bin, n, d); }
    forall n | n in names ensures Deps(head.packages, n) == Deps(base, n) {
      var i := SameByName(base, head, bin, n);
    }
    AgreeingReach(head.packages, base, names, from, to);
  }

  lemma SameOwner(base: seq<Package>, head: Workspace, bin: string)
    requires Comparable(base, head, bin) && OwningBin(head.packages, bin).Some?
    ensures OwningBin(base, bin) == OwningBin(head.packages, bin)
  {
    OwnerIsReached(head, bin);
    var i :| 0 <= i < |head.packages| && head.packages[i] == OwningBin(head.packages, bin).value;
  }

  /** The SPA's roots are the same, as long as each of them is reached at HEAD. */
  lemma {:induction false} SameSpaNames(base: seq<Package>, head: Workspace, bin: string, dirs: seq<string>)
    requires Comparable(base, head, bin)
    requires forall n | n in SpaNames(head.packages, dirs) :: BuiltFrom(head, bin, n)
    ensures SpaNames(base, dirs) == SpaNames(head.packages, dirs)
  {
    if dirs != [] {
      SameSpaNames(base, head, bin, dirs[1..]);
      var found := InDirectory(head.packages, dirs[0]);
      if found.Some? {
        assert found.value.name in SpaNames(head.packages, dirs);
        var i :| 0 <= i < |head.packages| && head.packages[i] == found.value;
        InDirectoryAt(base, i);
      } else if InDirectory(base, dirs[0]).Some? {
        var i :| 0 <= i < |base| && base[i] == InDirectory(base, dirs[0]).value;
        InDirectoryAt(head.packages, i);
      }
    }
  }

  lemma {:induction false} SpaNamesArePackages(packages: seq<Package>, dirs: seq<string>, n: string)
    requires n in SpaNames(packages, dirs)
    ensures ByName(packages, n).Some?
  {
    if n in SpaNames(packages, dirs[1..]) { SpaNamesArePackages(packages, dirs[1..], n); }
  }

  /** The image's reach at the base is its reach at HEAD. */
  lemma SameBuiltFrom(base: Workspace, head: Workspace, bin: string, n: string)
    requires Comparable(base.packages, head, bin) && OwningBin(head.packages, bin).Some?
    requires bin == FRONTEND ==> base.spaRoots == head.spaRoots
    ensures BuiltFrom(base, bin, n) <==> BuiltFrom(head, bin, n)
  {
    SameOwner(base.packages, head, bin);
    OwnerIsReached(head, bin);
    SameReach(base.packages, head, bin, OwningBin(head.packages, bin).value.name, n);
    if bin == FRONTEND {
      forall root | root in head.spaRoots
        ensures Reachable(base.packages, root, n) <==> Reachable(head.packages, root, n)
      {
        SpaRootIsReached(head, root);
        SameReach(base.packages, head, bin, root, n);
      }
    }
  }

  /** A path lies in the same member directory at both revisions. */
  lemma {:induction false} SameOwnerIndex(a: seq<Package>, b: seq<Package>, path: string) returns (i: nat)
    requires SameDirectories(a, b)
    ensures Owner(a, path).None? <==> Owner(b, path).None?
    ensures Owner(a, path).Some? ==> i < |a| && Owner(a, path) == Some(a[i]) && Owner(b, path) == Some(b[i])
  {
    i := 0;
    if a != [] {
      var last := |a| - 1;
      i := SameOwnerIndex(a[..last], b[..last], path);
      if Owner(a, path) == Some(a[last]) && Owner(b, path) == Some(b[last]) { i := last; }
    }
  }

  lemma SameRelevanceOfOwned(base: Workspace, head: Workspace, bin: string, i: nat)
    requires Comparable(base.packages, head, bin) && OwningBin(head.packages, bin).Some?
    requires bin == FRONTEND ==> base.spaRoots == head.spaRoots
    requires i < |head.packages|
    ensures BuiltFrom(base, bin, base.packages[i].name) <==> BuiltFrom(head, bin, head.packages[i].name)
  {
    var n := base.packages[i].name;
    SameBuiltFrom(base, head, bin, n);
    if BuiltFrom(head, bin, n) {
      var j := SameByName(base.packages, head, bin, n);
      assert i == j;
    }
  }

  ghost predicate Relevant(ws: Workspace, bin: string, path: string) {
    Touches(ws, bin, Classify(path, ws.packages))
  }

  lemma TouchesAlike(base: Workspace, head: Workspace, bin: string, impact: Impact)
    requires Comparable(base.packages, head, bin) && OwningBin(head.packages, bin).Some?
    requires bin == FRONTEND ==> base.spaRoots == head.spaRoots
    ensures Touches(base, bin, impact) <==> Touches(head, bin, impact)
  {
    if impact.OfPackage? { SameBuiltFrom(base, head, bin, impact.name); }
  }

  lemma OwnedAlike(base: Workspace, head: Workspace, bin: string, path: string)
    requires Comparable(base.packages, head, bin) && OwningBin(head.packages, bin).Some?
    requires bin == FRONTEND ==> base.spaRoots == head.spaRoots
    ensures Touches(base, bin, ByOwner(base.packages, path)) <==> Touches(head, bin, ByOwner(head.packages, path))
  {
    var i := SameOwnerIndex(base.packages, head.packages, path);
    if Owner(head.packages, path).Some? { SameRelevanceOfOwned(base, head, bin, i); }
  }

  /** A path matters to the image at the base exactly when it does at HEAD. */
  lemma SameRelevance(base: Workspace, head: Workspace, bin: string, path: string)
    requires Comparable(base.packages, head, bin) && OwningBin(head.packages, bin).Some?
    requires bin == FRONTEND ==> base.spaRoots == head.spaRoots
    ensures Relevant(base, bin, path) <==> Relevant(head, bin, path)
  {
    TouchesAlike(base, head, bin, Classify(path, base.packages));
    OwnedAlike(base, head, bin, path);
  }
}
