/**
 What an image is compiled from, by the dependency graph of the revision itself and the files its build
 copies, without any rule of the planner's: the planner covers it, and an image left alone was compiled
 from the same.
 */
module ReleaseCompile {
  import opened WorkspaceGraph
  import opened PathRules
  import opened PathVerdicts
  import opened HeadGraph
  import opened ReleasePlan
  import opened ReleaseSafety
  import opened ReleaseBuild

  /** Whether the package that holds a path is one the image is built from. */
  ghost predicate LiesInReach(ws: Workspace, bin: string, path: string) {
    Owner(ws.packages, path).Some? && BuiltFrom(ws, bin, Owner(ws.packages, path).value.name)
  }

  /**
   What compiling an image from a revision reads: the root manifest and the lockfile, what every image's
   build takes from the root, the SPA's own workspace, the files of the packages the image is built from,
   and the migrations and prepared queries if the database package is one of them. Documents are kept
   out of every build.
   */
  ghost predicate Compiles(cargo: Cargo, tree: Tree, bin: string, path: string) {
    && Loadable(cargo, tree) && !IsMarkdown(path)
    && var ws := Load(cargo, tree);
       || path == ROOT_MANIFEST || path == LOCKFILE || IsShared(path)
       || (bin == FRONTEND && "web/" <= path)
       || LiesInReach(ws, bin, path)
       || (IsDbData(path) && BuiltFrom(ws, bin, DB_PACKAGE))
  }

  ghost function Compiling(cargo: Cargo): Uses {
    (tree: Tree, bin: string, path: string) => Compiles(cargo, tree, bin, path)
  }

  /** The workspace keeps its members under `crates/`, `services/` and `xtask`. */
  ghost predicate UsualLayout(cargo: Cargo, tree: Tree) {
    Loadable(cargo, tree) && forall p | p in Packages(cargo, tree) :: UsualDirectory(p.dir)
  }

  // ---------------------------------------------------------------------------------------
  // The planner counts it
  // ---------------------------------------------------------------------------------------

  /** No rule takes a file in the usual directories away from the package it lies in, but to give it to every image. */
  lemma OwnedIsCharged(packages: seq<Package>, path: string)
    requires Owner(packages, path).Some? && UsualDirectory(Owner(packages, path).value.dir) && !IsMarkdown(path)
    ensures Classify(path, packages) in {Every, OfPackage(Owner(packages, path).value.name)}
  {
    OwnerIs(packages, path);
    var dir := Owner(packages, path).value.dir;
    assert dir + "/" <= path;
    if "crates/" <= dir {
      OnlyEveryUnderCrates(path);
    } else {
      assert path[0] == dir[0] && (dir[0] == "services/"[0] || dir[0] == "xtask"[0]);
      NoRuleUnderServices(path);
    }
  }

  lemma CompiledIsRelevant(cargo: Cargo, tree: Tree, bin: string, path: string)
    requires UsualLayout(cargo, tree) && Compiles(cargo, tree, bin, path)
    ensures Relevant(Load(cargo, tree), bin, path)
  {
    var ws := Load(cargo, tree);
    if path == ROOT_MANIFEST {
      RootManifestReachesAll(ws.packages);
    } else if path == LOCKFILE {
      LockfileReachesAll(ws.packages);
    } else if IsShared(path) {
      SharedReachesAll(ws.packages, path);
    } else if bin == FRONTEND && "web/" <= path {
      OnlySpaUnderWeb(path);
    } else if LiesInReach(ws, bin, path) {
      OwnerIs(ws.packages, path);
      OwnedIsCharged(ws.packages, path);
    } else {
      DbDataBelongsToDb(ws.packages, path);
    }
  }

  /** The planner counts everything an image is compiled from. */
  lemma CompilesCovered(cargo: Cargo, head: Tree, bin: string)
    requires UsualLayout(cargo, head)
    ensures Covers(cargo, Compiling(cargo), head, bin)
  {
    forall path | Compiles(cargo, head, bin, path) ensures Relevant(Load(cargo, head), bin, path) {
      CompiledIsRelevant(cargo, head, bin, path);
    }
  }

  /**
   What is merely opened is another matter: cargo opens every member's manifest to make out the workspace,
   and the planner does not count one outside the image's reach.
   */
  lemma OpenedManifestIsNotCounted(cargo: Cargo, uses: Uses, head: Tree, bin: string, p: Package)
    requires Sound(cargo, head) && p in Packages(cargo, head) && ("services/" <= p.dir || "xtask" <= p.dir)
    requires uses(head, bin, ManifestPath(p.dir)) && !BuiltFrom(Load(cargo, head), bin, p.name)
    ensures !Covers(cargo, uses, head, bin)
  {
    var path := ManifestPath(p.dir);
    ManifestIsOwned(Packages(cargo, head), p);
    assert path[|path| - 1] == "/Cargo.toml"[10] && path[0] == p.dir[0];
    assert p.dir[0] == "services/"[0] || p.dir[0] == "xtask"[0];
    NotMarkdown(path);
    NoRuleUnderServices(path);
    assert !Relevant(Load(cargo, head), bin, path);
  }

  // ---------------------------------------------------------------------------------------
  // It is decided by what is read
  // ---------------------------------------------------------------------------------------

  /** Everything compiling the image at `head` reads is the same at the base. */
  ghost predicate ReadsSame(cargo: Cargo, base: Tree, head: Tree, bin: string)
    requires Loadable(cargo, head)
  {
    forall path | Compiles(cargo, head, bin, path) :: SameAt(base, head, path, Members(cargo, head))
  }

  lemma ManifestIsCompiled(cargo: Cargo, head: Tree, bin: string, p: Package)
    requires Sound(cargo, head) && p in Packages(cargo, head) && BuiltFrom(Load(cargo, head), bin, p.name)
    ensures Compiles(cargo, head, bin, ManifestPath(p.dir))
  {
    var path := ManifestPath(p.dir);
    ManifestIsOwned(Packages(cargo, head), p);
    assert path[|path| - 1] == "/Cargo.toml"[10];
    NotMarkdown(path);
  }

  lemma RootIsCompiled(cargo: Cargo, head: Tree, bin: string)
    requires Loadable(cargo, head)
    ensures Compiles(cargo, head, bin, ROOT_MANIFEST)
  {
    NotMarkdown(ROOT_MANIFEST);
  }

  lemma SpaManifestIsCompiled(cargo: Cargo, head: Tree)
    requires Loadable(cargo, head)
    ensures Compiles(cargo, head, FRONTEND, SPA_MANIFEST)
  {
    NotMarkdown(SPA_MANIFEST);
  }

  /** The manifests that decide the image's reach are among what is read. */
  lemma SameReadsMeanSameManifests(cargo: Cargo, base: Tree, head: Tree, bin: string)
    requires Sound(cargo, base) && SoundHead(cargo, head) && ReadsSame(cargo, base, head, bin)
    ensures SameManifests(cargo, base, head, bin)
  {
    RootIsCompiled(cargo, head, bin);
    assert SameAt(base, head, ROOT_MANIFEST, Members(cargo, head));
    forall p | p in Packages(cargo, head) && BuiltFrom(Load(cargo, head), bin, p.name)
      ensures Get(base, ManifestPath(p.dir)) == Get(head, ManifestPath(p.dir))
    {
      ManifestIsCompiled(cargo, head, bin, p);
      assert SameAt(base, head, ManifestPath(p.dir), Members(cargo, head));
      NotRootFile(p.dir);
    }
    if bin == FRONTEND {
      SpaManifestIsCompiled(cargo, head);
      assert SameAt(base, head, SPA_MANIFEST, Members(cargo, head));
      NotRootFile("x");
    }
  }

  lemma SameLiesInReach(base: Workspace, head: Workspace, bin: string, path: string)
    requires Comparable(base.packages, head, bin) && OwningBin(head.packages, bin).Some?
    requires bin == FRONTEND ==> base.spaRoots == head.spaRoots
    ensures LiesInReach(base, bin, path) <==> LiesInReach(head, bin, path)
  {
    var i := SameOwnerIndex(base.packages, head.packages, path);
    if Owner(head.packages, path).Some? { SameRelevanceOfOwned(base, head, bin, i); }
  }

  /**
   Where everything read at HEAD is the same at the base, the base's own graph gives the image the same
   packages, so compiling it there reads no other path.
   */
  lemma CompilesDetermined(cargo: Cargo, base: Tree, head: Tree, bin: string)
    requires Sound(cargo, base) && SoundHead(cargo, head) && OwningBin(Packages(cargo, head), bin).Some?
    ensures Determined(Compiling(cargo), bin, base, head, Members(cargo, head))
  {
    if ReadsSame(cargo, base, head, bin) {
      SameReadsMeanSameManifests(cargo, base, head, bin);
      ManifestsMakeComparable(cargo, base, head, bin);
      var before, after := Load(cargo, base), Load(cargo, head);
      SameBuiltFrom(before, after, bin, DB_PACKAGE);
      forall path ensures Compiles(cargo, base, bin, path) <==> Compiles(cargo, head, bin, path) {
        SameLiesInReach(before, after, bin, path);
      }
    }
  }
}
