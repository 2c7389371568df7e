/**
 What a build reads, as opposed to what the planner counts as its input, and the exact condition under
 which the planner misses nothing.
 */
module ReleaseBuild {
  import opened WorkspaceGraph
  import opened PathRules
  import opened PathVerdicts
  import opened HeadGraph
  import opened ReleasePlan
  import opened ReleaseSafety

  /** Whether building an image from a revision reads a path. */
  type Uses = (Tree, string, string) -> bool

  /** A path as a build sees it is the same at both revisions, the workspace version aside. */
  predicate SameAt(base: Tree, head: Tree, path: string, members: set<string>) {
    Seen(base, path, members) == Seen(head, path, members)
  }

  /** Both builds read the same paths and find the same there. */
  ghost predicate SameBuild(uses: Uses, bin: string, base: Tree, head: Tree, members: set<string>) {
    forall path :: (uses(base, bin, path) <==> uses(head, bin, path)) && (uses(head, bin, path) ==> SameAt(base, head, path, members))
  }

  /** Where everything the build at `head` reads is the same, the build at `base` reads no other path. */
  ghost predicate Determined(uses: Uses, bin: string, base: Tree, head: Tree, members: set<string>) {
    (forall path | uses(head, bin, path) :: SameAt(base, head, path, members)) ==>
      forall path :: uses(base, bin, path) <==> uses(head, bin, path)
  }

  /** Every path that building the image at `head` reads is one the planner counts as relevant. */
  ghost predicate Covers(cargo: Cargo, uses: Uses, head: Tree, bin: string)
    requires Loadable(cargo, head)
  {
    forall path | uses(head, bin, path) :: Relevant(Load(cargo, head), bin, path)
  }

  lemma UnhitMeansSameBuild(cargo: Cargo, uses: Uses, base: Tree, head: Tree, bin: string)
    requires Loadable(cargo, head) && Covers(cargo, uses, head, bin)
    requires Determined(uses, bin, base, head, Members(cargo, head))
    requires !HitSince(Load(cargo, head), bin, base, head)
    ensures SameBuild(uses, bin, base, head, Members(cargo, head))
  {
    var members := Members(cargo, head);
    forall path | uses(head, bin, path) ensures SameAt(base, head, path, members) {
      if !SameAt(base, head, path, members) {
        ChangeIsHit(cargo, base, head, bin, path);
      }
    }
  }

  /** The two files that the planner compares through a mask are relevant to every image. */
  lemma MaskedIsRelevant(ws: Workspace, bin: string, path: string, members: set<string>)
    requires MaskFor(path, members).Some?
    ensures Relevant(ws, bin, path)
  {
    RootManifestReachesAll(ws.packages);
    LockfileReachesAll(ws.packages);
  }

  /** The revision `head` was before the one file `path` was changed. */
  function Before(head: Tree, path: string): Tree {
    head[path := if path in head then head[path] + "x" else []]
  }

  /** A path the build reads and the planner does not count: a change to it alone ships a stale image. */
  lemma UncoveredGoesStale(cargo: Cargo, uses: Uses, head: Tree, bin: string, path: string)
    requires Loadable(cargo, head) && uses(head, bin, path) && !Relevant(Load(cargo, head), bin, path)
    ensures !HitSince(Load(cargo, head), bin, Before(head, path), head)
    ensures Determined(uses, bin, Before(head, path), head, Members(cargo, head))
    ensures !SameBuild(uses, bin, Before(head, path), head, Members(cargo, head))
  {
    var ws, base, members := Load(cargo, head), Before(head, path), Members(cargo, head);
    if MaskFor(path, members).Some? {
      MaskedIsRelevant(ws, bin, path, members);
    }
    assert path in head ==> |base[path]| != |head[path]|;
    assert !SameAt(base, head, path, members);
    forall p | Differs(base, head, p) ensures !Touches(ws, bin, ImpactOf(ws.packages, base, head, p)) {
      assert p == path;
    }
  }

  /**
   The planner never leaves a stale image alone if and only if it covers what the build at HEAD reads;
   whatever the base, as long as what the build reads decides what else it reads.
   */
  lemma NothingMissedIff(cargo: Cargo, uses: Uses, head: Tree, bin: string)
    requires Loadable(cargo, head)
    ensures (forall base | Determined(uses, bin, base, head, Members(cargo, head)) && !HitSince(Load(cargo, head), bin, base, head) ::
               SameBuild(uses, bin, base, head, Members(cargo, head)))
       <==> Covers(cargo, uses, head, bin)
  {
    if Covers(cargo, uses, head, bin) {
      forall base | Determined(uses, bin, base, head, Members(cargo, head)) && !HitSince(Load(cargo, head), bin, base, head)
        ensures SameBuild(uses, bin, base, head, Members(cargo, head))
      {
        UnhitMeansSameBuild(cargo, uses, base, head, bin);
      }
    } else {
      var path :| uses(head, bin, path) && !Relevant(Load(cargo, head), bin, path);
      UncoveredGoesStale(cargo, uses, head, bin, path);
    }
  }

  // ---------------------------------------------------------------------------------------
  // Where the condition fails
  // ---------------------------------------------------------------------------------------

  /**
   The frontend image's build runs the generator of the licence notices. It lies in a package that the
   frontend is not built from, so a change to it leaves the image as it was.
   */
  lemma GeneratorIsMissed(cargo: Cargo, uses: Uses, head: Tree, p: Package)
    requires Loadable(cargo, head) && uses(head, FRONTEND, NOTICES_GENERATOR)
    requires p in Packages(cargo, head) && p.dir == "xtask"
    requires forall q | q in Packages(cargo, head) && q.dir + "/" <= NOTICES_GENERATOR :: q == p
    requires !BuiltFrom(Load(cargo, head), FRONTEND, p.name)
    ensures !Covers(cargo, uses, head, FRONTEND)
    ensures var base := Before(head, NOTICES_GENERATOR);
      && !HitSince(Load(cargo, head), FRONTEND, base, head)
      && !SameBuild(uses, FRONTEND, base, head, Members(cargo, head))
  {
    GeneratorIsOwned(Packages(cargo, head), p, NOTICES_GENERATOR);
    UncoveredGoesStale(cargo, uses, head, FRONTEND, NOTICES_GENERATOR);
  }

  /** The generator's settings reach no image by the rules, whatever the packages. */
  lemma SettingsAreMissed(cargo: Cargo, uses: Uses, head: Tree, bin: string)
    requires Loadable(cargo, head) && uses(head, bin, NOTICES_SETTINGS)
    ensures !Covers(cargo, uses, head, bin)
    ensures var base := Before(head, NOTICES_SETTINGS);
      && !HitSince(Load(cargo, head), bin, base, head)
      && !SameBuild(uses, bin, base, head, Members(cargo, head))
  {
    SettingsAreInert(Packages(cargo, head));
    UncoveredGoesStale(cargo, uses, head, bin, NOTICES_SETTINGS);
  }
}
