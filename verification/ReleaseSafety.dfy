/** Why the planner may read HEAD's dependency graph alone, and what exactly it compares. */
module ReleaseSafety {
  import opened Options
  import opened WorkspaceGraph
  import opened VersionMask
  import opened MaskedText
  import opened PathRules
  import opened PathVerdicts
  import opened HeadGraph
  import opened ReleasePlan

  // ---------------------------------------------------------------------------------------
  // The workspace a revision holds
  // ---------------------------------------------------------------------------------------

  /** What a package's own manifest declares. */
  datatype Declared = Declared(name: string, bins: seq<string>, deps: seq<string>)

  /**
   How `cargo metadata` and the SPA scan read a revision: the member directories from the root
   manifest, a package from its own manifest, both blind to the workspace version, and the
   directories the SPA depends on from the SPA's manifest.
   */
  datatype Cargo = Cargo(members: string -> seq<string>, declared: (string, string) -> Declared, spaDirs: string -> seq<string>)

  /** Whether `cargo metadata` finds every manifest it needs. */
  predicate Loadable(cargo: Cargo, tree: Tree) {
    && ROOT_MANIFEST in tree
    && forall dir | dir in Dirs(cargo, tree) :: ManifestPath(dir) in tree
  }

  function MaskedRoot(tree: Tree): string {
    if ROOT_MANIFEST in tree then Masked(Manifest, tree[ROOT_MANIFEST]) else ""
  }

  function Dirs(cargo: Cargo, tree: Tree): seq<string> { cargo.members(MaskedRoot(tree)) }

  function PackageAt(cargo: Cargo, tree: Tree, dir: string): Package
    requires ManifestPath(dir) in tree
  {
    var d := cargo.declared(MaskedRoot(tree), tree[ManifestPath(dir)]);
    Package(d.name, dir, d.bins, d.deps)
  }

  function Packages(cargo: Cargo, tree: Tree): (r: seq<Package>)
    requires Loadable(cargo, tree)
    ensures |r| == |Dirs(cargo, tree)|
    ensures forall i | 0 <= i < |r| :: r[i] == PackageAt(cargo, tree, Dirs(cargo, tree)[i])
  {
    seq(|Dirs(cargo, tree)|, i requires 0 <= i < |Dirs(cargo, tree)| => PackageAt(cargo, tree, Dirs(cargo, tree)[i]))
  }

  function SpaDirs(cargo: Cargo, tree: Tree): seq<string> {
    if SPA_MANIFEST in tree then cargo.spaDirs(tree[SPA_MANIFEST]) else []
  }

  function Load(cargo: Cargo, tree: Tree): Workspace
    requires Loadable(cargo, tree)
  {
    Workspace(Packages(cargo, tree), SpaNames(Packages(cargo, tree), SpaDirs(cargo, tree)))
  }

  /**
   Directories and names are each used once, as cargo enforces, and so are the names of binaries, which is
   assumed of this workspace: cargo only warns where two of its packages build one.
   */
  ghost predicate Sound(cargo: Cargo, tree: Tree) {
    && Loadable(cargo, tree)
    && var packages := Packages(cargo, tree);
    && (forall p | p in packages :: p.dir != [])
    && Unique(packages)
  }

  /** What a revision offers the planner as HEAD: every dependency is a member, and no rule hides a manifest. */
  ghost predicate SoundHead(cargo: Cargo, tree: Tree) {
    && Sound(cargo, tree)
    && var packages := Packages(cargo, tree);
    && DepsArePackages(packages)
    && (forall p | p in packages :: Classify(ManifestPath(p.dir), packages) in {Every, OfPackage(p.name)})
  }

  /** A workspace that keeps its members under `crates/`, `services/` and `xtask` hides no manifest. */
  lemma UsualWorkspaceIsSoundHead(cargo: Cargo, tree: Tree)
    requires Sound(cargo, tree)
    requires forall p | p in Packages(cargo, tree) :: UsualDirectory(p.dir)
    requires DepsArePackages(Packages(cargo, tree))
    ensures SoundHead(cargo, tree)
  {
    forall p | p in Packages(cargo, tree)
      ensures Classify(ManifestPath(p.dir), Packages(cargo, tree)) in {Every, OfPackage(p.name)}
    {
      UsualManifestIsSeen(Packages(cargo, tree), p);
    }
  }

  // ---------------------------------------------------------------------------------------
  // What the planner counts as an input
  // ---------------------------------------------------------------------------------------

  /** A file as a build sees it: the workspace version does not count. */
  function Seen(tree: Tree, path: string, members: set<string>): Option<string> {
    if path !in tree then None
    else match MaskFor(path, members)
      case Some(mask) => Some(Masked(mask, tree[path]))
      case None => Some(tree[path])
  }

  /** Every file that the planner's rules call relevant to an image, by the revision's own graph. */
  ghost function RelevantFiles(cargo: Cargo, tree: Tree, bin: string, members: set<string>): map<string, string>
    requires Loadable(cargo, tree)
  {
    map p | p in tree && Relevant(Load(cargo, tree), bin, p) :: Seen(tree, p, members).value
  }

  /** A release commit: nothing differs but the versions of the workspace package and of its members. */
  ghost predicate VersionBump(base: Tree, head: Tree, members: set<string>) {
    && (forall path | path != "Cargo.toml" && path != "Cargo.lock" :: Get(base, path) == Get(head, path))
    && "Cargo.toml" in base && "Cargo.toml" in head && OnlyVersionsDiffer(Manifest, base["Cargo.toml"], head["Cargo.toml"])
    && "Cargo.lock" in base && "Cargo.lock" in head && OnlyVersionsDiffer(Lockfile(members), base["Cargo.lock"], head["Cargo.lock"])
  }

  /** The names of the workspace's own packages. */
  ghost predicate AreMembers(packages: seq<Package>, members: set<string>) {
    forall n :: n in members <==> exists p | p in packages :: p.name == n
  }

  lemma MemberNamesAre(packages: seq<Package>, members: set<string>)
    requires AreMembers(packages, members)
    ensures members == MemberNames(packages)
  {
    forall n ensures n in members <==> n in MemberNames(packages) {
      if n in MemberNames(packages) {
        var i :| 0 <= i < |packages| && packages[i].name == n;
        assert packages[i] in packages;
      }
    }
  }

  /** It selects no image that is published, whatever the image. */
  lemma VersionBumpIsNoHit(ws: Workspace, bin: string, base: Tree, head: Tree, members: set<string>)
    requires AreMembers(ws.packages, members) && VersionBump(base, head, members)
    ensures !HitSince(ws, bin, base, head)
  {
    MemberNamesAre(ws.packages, members);
    MaskedTextIff(Manifest, base["Cargo.toml"], head["Cargo.toml"]);
    MaskedTextIff(Lockfile(members), base["Cargo.lock"], head["Cargo.lock"]);
    forall path | Differs(base, head, path) ensures VersionOnly(base, head, path, members) {
      assert path == ROOT_MANIFEST || path == LOCKFILE;
    }
  }

  /** Any other difference in those two files, a third party's version included, selects every image. */
  lemma RealChangeIsHit(ws: Workspace, bin: string, base: Tree, head: Tree, members: set<string>, path: string)
    requires AreMembers(ws.packages, members) && (path == "Cargo.toml" || path == "Cargo.lock")
    requires Get(base, path) != Get(head, path)
    requires path in base && path in head ==>
      !OnlyVersionsDiffer(if path == "Cargo.lock" then Lockfile(members) else Manifest, base[path], head[path])
    ensures HitSince(ws, bin, base, head)
  {
    MemberNamesAre(ws.packages, members);
    RootManifestReachesAll(ws.packages);
    LockfileReachesAll(ws.packages);
    if path in base && path in head {
      MaskedTextIff(MaskFor(path, members).value, base[path], head[path]);
    }
    assert Differs(base, head, path) && !VersionOnly(base, head, path, members);
    assert Touches(ws, bin, ImpactOf(ws.packages, base, head, path));
  }

  // ---------------------------------------------------------------------------------------
  // Selection is exact
  // ---------------------------------------------------------------------------------------

  /** The manifests that decide an image's reach at HEAD are the same at the base. */
  ghost predicate SameManifests(cargo: Cargo, base: Tree, head: Tree, bin: string)
    requires Loadable(cargo, base) && Loadable(cargo, head)
  {
    && MaskedRoot(base) == MaskedRoot(head)
    && (forall p | p in Packages(cargo, head) && BuiltFrom(Load(cargo, head), bin, p.name) ::
          Get(base, ManifestPath(p.dir)) == Get(head, ManifestPath(p.dir)))
    && (bin == FRONTEND ==> Get(base, SPA_MANIFEST) == Get(head, SPA_MANIFEST))
  }

  lemma LoadedSpaRoots(cargo: Cargo, tree: Tree)
    requires Loadable(cargo, tree)
    ensures SpaRootsArePackages(Load(cargo, tree))
  {
    var ws := Load(cargo, tree);
    forall root | root in ws.spaRoots { SpaNamesArePackages(ws.packages, SpaDirs(cargo, tree), root); }
  }

  lemma ManifestsMakeComparable(cargo: Cargo, base: Tree, head: Tree, bin: string)
    requires Sound(cargo, base) && SoundHead(cargo, head) && SameManifests(cargo, base, head, bin)
    ensures Comparable(Packages(cargo, base), Load(cargo, head), bin)
    ensures bin == FRONTEND ==> Load(cargo, base).spaRoots == Load(cargo, head).spaRoots
  {
    var ws := Load(cargo, head);
    assert Dirs(cargo, base) == Dirs(cargo, head);
    LoadedSpaRoots(cargo, head);
    forall i | 0 <= i < |ws.packages| && BuiltFrom(ws, bin, ws.packages[i].name)
      ensures Packages(cargo, base)[i] == ws.packages[i]
    {
      assert ws.packages[i] in Packages(cargo, head);
      assert Get(base, ManifestPath(ws.packages[i].dir)) == Get(head, ManifestPath(ws.packages[i].dir));
    }
    if bin == FRONTEND {
      forall n | n in ws.spaRoots { SpaRootIsReached(ws, n); }
      SameSpaNames(Packages(cargo, base), ws, bin, SpaDirs(cargo, head));
    }
  }

  lemma ManifestsMakeRelevanceSame(cargo: Cargo, base: Tree, head: Tree, bin: string, path: string)
    requires Sound(cargo, base) && SoundHead(cargo, head) && SameManifests(cargo, base, head, bin)
    requires OwningBin(Packages(cargo, head), bin).Some?
    ensures Relevant(Load(cargo, base), bin, path) <==> Relevant(Load(cargo, head), bin, path)
  {
    ManifestsMakeComparable(cargo, base, head, bin);
    SameRelevance(Load(cargo, base), Load(cargo, head), bin, path);
  }

  ghost function Members(cargo: Cargo, head: Tree): set<string>
    requires Loadable(cargo, head)
  {
    MemberNames(Packages(cargo, head))
  }

  lemma RootIsRelevant(ws: Workspace, bin: string)
    ensures Relevant(ws, bin, ROOT_MANIFEST)
  {
    RootManifestReachesAll(ws.packages);
  }

  lemma SpaManifestIsRelevant(ws: Workspace)
    ensures Relevant(ws, FRONTEND, SPA_MANIFEST)
  {
    SpaManifestReachesFrontend(ws.packages);
  }

  lemma ManifestIsRelevant(cargo: Cargo, head: Tree, bin: string, p: Package)
    requires SoundHead(cargo, head) && p in Packages(cargo, head) && BuiltFrom(Load(cargo, head), bin, p.name)
    ensures Relevant(Load(cargo, head), bin, ManifestPath(p.dir))
  {
    assert Classify(ManifestPath(p.dir), Packages(cargo, head)) in {Every, OfPackage(p.name)};
  }

  lemma NotRootFile(dir: string)
    requires dir != []
    ensures ManifestPath(dir) != ROOT_MANIFEST && ManifestPath(dir) != LOCKFILE
    ensures SPA_MANIFEST != ROOT_MANIFEST && SPA_MANIFEST != LOCKFILE
  {
    assert |ManifestPath(dir)| > |ROOT_MANIFEST| && |SPA_MANIFEST| > |ROOT_MANIFEST|;
  }

  /** A relevant path that changed in more than a version is a hit. */
  lemma ChangeIsHit(cargo: Cargo, base: Tree, head: Tree, bin: string, path: string)
    requires Loadable(cargo, head)
    requires Relevant(Load(cargo, head), bin, path)
    requires Seen(base, path, Members(cargo, head)) != Seen(head, path, Members(cargo, head))
    ensures HitSince(Load(cargo, head), bin, base, head)
  {
    assert Differs(base, head, path);
    assert !VersionOnly(base, head, path, Members(cargo, head));
    assert Touches(Load(cargo, head), bin, ImpactOf(Packages(cargo, head), base, head, path));
  }

  /** A change that reaches the image is a relevant path that changed in more than a version. */
  lemma HitIsChange(cargo: Cargo, base: Tree, head: Tree, bin: string)
    requires Loadable(cargo, head) && HitSince(Load(cargo, head), bin, base, head)
    ensures exists path :: Relevant(Load(cargo, head), bin, path)
                        && Seen(base, path, Members(cargo, head)) != Seen(head, path, Members(cargo, head))
  {
    var path :| Differs(base, head, path) && Touches(Load(cargo, head), bin, ImpactOf(Packages(cargo, head), base, head, path));
    assert !VersionOnly(base, head, path, Members(cargo, head));
    assert Relevant(Load(cargo, head), bin, path);
    assert Seen(base, path, Members(cargo, head)) != Seen(head, path, Members(cargo, head));
  }

  lemma UnhitMeansSameManifests(cargo: Cargo, base: Tree, head: Tree, bin: string)
    requires Sound(cargo, base) && SoundHead(cargo, head)
    requires !HitSince(Load(cargo, head), bin, base, head)
    ensures SameManifests(cargo, base, head, bin)
  {
    var members := Members(cargo, head);
    RootIsRelevant(Load(cargo, head), bin);
    if Seen(base, ROOT_MANIFEST, members) != Seen(head, ROOT_MANIFEST, members) {
      ChangeIsHit(cargo, base, head, bin, ROOT_MANIFEST);
    }
    forall p | p in Packages(cargo, head) && BuiltFrom(Load(cargo, head), bin, p.name)
      ensures Get(base, ManifestPath(p.dir)) == Get(head, ManifestPath(p.dir))
    {
      ManifestIsRelevant(cargo, head, bin, p);
      NotRootFile(p.dir);
      if Seen(base, ManifestPath(p.dir), members) != Seen(head, ManifestPath(p.dir), members) {
        ChangeIsHit(cargo, base, head, bin, ManifestPath(p.dir));
      }
    }
    if bin == FRONTEND {
      SpaManifestIsRelevant(Load(cargo, head));
      NotRootFile("x");
      if Seen(base, SPA_MANIFEST, members) != Seen(head, SPA_MANIFEST, members) {
        ChangeIsHit(cargo, base, head, bin, SPA_MANIFEST);
      }
    }
  }

  lemma RelevantFileAt(cargo: Cargo, tree: Tree, bin: string, members: set<string>, path: string)
    requires Loadable(cargo, tree)
    ensures path in RelevantFiles(cargo, tree, bin, members) <==> path in tree && Relevant(Load(cargo, tree), bin, path)
    ensures path in RelevantFiles(cargo, tree, bin, members) ==>
              Some(RelevantFiles(cargo, tree, bin, members)[path]) == Seen(tree, path, members)
  {
  }

  /** A file the image sees alike at both revisions, through no mask, is the same file. */
  lemma SameFileIfRelevant(cargo: Cargo, base: Tree, head: Tree, bin: string, path: string)
    requires Loadable(cargo, base) && Loadable(cargo, head)
    requires RelevantFiles(cargo, base, bin, Members(cargo, head)) == RelevantFiles(cargo, head, bin, Members(cargo, head))
    requires Relevant(Load(cargo, head), bin, path) && path in head && path != ROOT_MANIFEST && path != LOCKFILE
    ensures Get(base, path) == Get(head, path)
  {
    RelevantFileAt(cargo, head, bin, Members(cargo, head), path);
    RelevantFileAt(cargo, base, bin, Members(cargo, head), path);
  }

  lemma SameSpaManifest(cargo: Cargo, base: Tree, head: Tree)
    requires Loadable(cargo, base) && Loadable(cargo, head)
    requires RelevantFiles(cargo, base, FRONTEND, Members(cargo, head)) == RelevantFiles(cargo, head, FRONTEND, Members(cargo, head))
    ensures Get(base, SPA_MANIFEST) == Get(head, SPA_MANIFEST)
  {
    SpaManifestIsRelevant(Load(cargo, head));
    SpaManifestIsRelevant(Load(cargo, base));
    NotRootFile("x");
    RelevantFileAt(cargo, head, FRONTEND, Members(cargo, head), SPA_MANIFEST);
    RelevantFileAt(cargo, base, FRONTEND, Members(cargo, head), SPA_MANIFEST);
  }

  lemma SameFilesMeanSameManifests(cargo: Cargo, base: Tree, head: Tree, bin: string)
    requires Sound(cargo, base) && SoundHead(cargo, head)
    requires RelevantFiles(cargo, base, bin, Members(cargo, head)) == RelevantFiles(cargo, head, bin, Members(cargo, head))
    ensures SameManifests(cargo, base, head, bin)
  {
    var members := Members(cargo, head);
    RootIsRelevant(Load(cargo, head), bin);
    RelevantFileAt(cargo, head, bin, members, ROOT_MANIFEST);
    RelevantFileAt(cargo, base, bin, members, ROOT_MANIFEST);
    forall p | p in Packages(cargo, head) && BuiltFrom(Load(cargo, head), bin, p.name)
      ensures Get(base, ManifestPath(p.dir)) == Get(head, ManifestPath(p.dir))
    {
      ManifestIsRelevant(cargo, head, bin, p);
      NotRootFile(p.dir);
      SameFileIfRelevant(cargo, base, head, bin, ManifestPath(p.dir));
    }
    if bin == FRONTEND {
      SameSpaManifest(cargo, base, head);
    }
  }

  lemma SeenSameIsSameFile(cargo: Cargo, base: Tree, head: Tree, bin: string, path: string)
    requires Sound(cargo, base) && SoundHead(cargo, head) && SameManifests(cargo, base, head, bin)
    requires OwningBin(Packages(cargo, head), bin).Some?
    requires Relevant(Load(cargo, head), bin, path) ==> Seen(base, path, Members(cargo, head)) == Seen(head, path, Members(cargo, head))
    ensures var before := RelevantFiles(cargo, base, bin, Members(cargo, head));
            var after := RelevantFiles(cargo, head, bin, Members(cargo, head));
            (path in before <==> path in after) && (path in before ==> before[path] == after[path])
  {
    ManifestsMakeRelevanceSame(cargo, base, head, bin, path);
    RelevantFileAt(cargo, base, bin, Members(cargo, head), path);
    RelevantFileAt(cargo, head, bin, Members(cargo, head), path);
  }

  lemma UnhitMeansSameFiles(cargo: Cargo, base: Tree, head: Tree, bin: string)
    requires Sound(cargo, base) && SoundHead(cargo, head)
    requires OwningBin(Packages(cargo, head), bin).Some? && !HitSince(Load(cargo, head), bin, base, head)
    ensures RelevantFiles(cargo, base, bin, Members(cargo, head)) == RelevantFiles(cargo, head, bin, Members(cargo, head))
  {
    var members := Members(cargo, head);
    var before, after := RelevantFiles(cargo, base, bin, members), RelevantFiles(cargo, head, bin, members);
    UnhitMeansSameManifests(cargo, base, head, bin);
    forall path ensures (path in before <==> path in after) && (path in before ==> before[path] == after[path]) {
      if Relevant(Load(cargo, head), bin, path) && Seen(base, path, members) != Seen(head, path, members) {
        ChangeIsHit(cargo, base, head, bin, path);
      }
      SeenSameIsSameFile(cargo, base, head, bin, path);
    }
  }

  lemma SameFileIsSeenSame(cargo: Cargo, base: Tree, head: Tree, bin: string, path: string)
    requires Sound(cargo, base) && SoundHead(cargo, head) && SameManifests(cargo, base, head, bin)
    requires RelevantFiles(cargo, base, bin, Members(cargo, head)) == RelevantFiles(cargo, head, bin, Members(cargo, head))
    requires OwningBin(Packages(cargo, head), bin).Some? && Relevant(Load(cargo, head), bin, path)
    ensures Seen(base, path, Members(cargo, head)) == Seen(head, path, Members(cargo, head))
  {
    var members := Members(cargo, head);
    ManifestsMakeRelevanceSame(cargo, base, head, bin, path);
    RelevantFileAt(cargo, base, bin, members, path);
    RelevantFileAt(cargo, head, bin, members, path);
  }

  lemma SameFilesMeanUnhit(cargo: Cargo, base: Tree, head: Tree, bin: string)
    requires Sound(cargo, base) && SoundHead(cargo, head)
    requires OwningBin(Packages(cargo, head), bin).Some?
    requires RelevantFiles(cargo, base, bin, Members(cargo, head)) == RelevantFiles(cargo, head, bin, Members(cargo, head))
    ensures !HitSince(Load(cargo, head), bin, base, head)
  {
    SameFilesMeanSameManifests(cargo, base, head, bin);
    forall path | Relevant(Load(cargo, head), bin, path)
      ensures Seen(base, path, Members(cargo, head)) == Seen(head, path, Members(cargo, head))
    {
      SameFileIsSeenSame(cargo, base, head, bin, path);
    }
    if HitSince(Load(cargo, head), bin, base, head) {
      HitIsChange(cargo, base, head, bin);
    }
  }

  /**
   The planner leaves an image alone exactly when the files it counts as the image's inputs, at each
   revision by that revision's own graph, are the same, with the same content but for the workspace
   version. What a build reads beyond them it cannot see; `ReleaseBuild` says when that matters.
   */
  lemma SelectionExact(cargo: Cargo, base: Tree, head: Tree, bin: string)
    requires Sound(cargo, base) && SoundHead(cargo, head)
    requires OwningBin(Packages(cargo, head), bin).Some?
    ensures HitSince(Load(cargo, head), bin, base, head) <==>
            RelevantFiles(cargo, base, bin, Members(cargo, head)) != RelevantFiles(cargo, head, bin, Members(cargo, head))
  {
    if !HitSince(Load(cargo, head), bin, base, head) {
      UnhitMeansSameFiles(cargo, base, head, bin);
    } else if RelevantFiles(cargo, base, bin, Members(cargo, head)) == RelevantFiles(cargo, head, bin, Members(cargo, head)) {
      SameFilesMeanUnhit(cargo, base, head, bin);
    }
  }

  /** HEAD's graph is enough: an image left alone had the same reach at its base. */
  lemma UnhitMeansSameReach(cargo: Cargo, base: Tree, head: Tree, bin: string, n: string)
    requires Sound(cargo, base) && SoundHead(cargo, head)
    requires OwningBin(Packages(cargo, head), bin).Some? && !HitSince(Load(cargo, head), bin, base, head)
    ensures BuiltFrom(Load(cargo, base), bin, n) <==> BuiltFrom(Load(cargo, head), bin, n)
  {
    UnhitMeansSameManifests(cargo, base, head, bin);
    ManifestsMakeComparable(cargo, base, head, bin);
    SameBuiltFrom(Load(cargo, base), Load(cargo, head), bin, n);
  }
}
