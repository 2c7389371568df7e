/** The release planner: from each image's base revision to the set of images a release rebuilds. */
module ReleasePlan {
  import opened Options
  import opened WorkspaceGraph
  import opened VersionMask
  import opened PathRules

  /** A revision: the text of each file. */
  type Tree = map<string, string>

  function Get(tree: Tree, path: string): Option<string> {
    if path in tree then Some(tree[path]) else None
  }

  predicate Differs(base: Tree, head: Tree, path: string) { Get(base, path) != Get(head, path) }

  function MemberNames(packages: seq<Package>): set<string> { set i | 0 <= i < |packages| :: packages[i].name }

  /** The mask the planner compares a file through, if it is one of the two that carry the workspace version. */
  function MaskFor(path: string, members: set<string>): Option<Mask> {
    if path == LOCKFILE then Some(Lockfile(members)) else if path == ROOT_MANIFEST then Some(Manifest) else None
  }

  /** Whether a file differs only in the versions a release rewrites. */
  predicate VersionOnly(base: Tree, head: Tree, path: string, members: set<string>) {
    && path in base && path in head
    && MaskFor(path, members).Some?
    && Masked(MaskFor(path, members).value, base[path]) == Masked(MaskFor(path, members).value, head[path])
  }

  /** What one changed path can reach. */
  function ImpactOf(packages: seq<Package>, base: Tree, head: Tree, path: string): Impact {
    if VersionOnly(base, head, path, MemberNames(packages)) then Inert else Classify(path, packages)
  }

  /** Whether some path that changed since `base` reaches the image. */
  ghost predicate HitSince(ws: Workspace, bin: string, base: Tree, head: Tree) {
    exists path :: Differs(base, head, path) && Touches(ws, bin, ImpactOf(ws.packages, base, head, path))
  }

  // ---------------------------------------------------------------------------------------
  // The planner
  // ---------------------------------------------------------------------------------------

  /** `git diff --name-only --no-renames`: the paths that differ. */
  method ChangedPaths(base: Tree, head: Tree) returns (paths: seq<string>)
    ensures forall p :: p in paths <==> Differs(base, head, p)
  {
    paths := [];
    var todo := base.Keys + head.Keys;
    while todo != {}
      invariant todo <= base.Keys + head.Keys
      invariant forall p :: p in paths <==> Differs(base, head, p) && p !in todo
      decreases todo
    {
      var p :| p in todo;
      if Differs(base, head, p) {
        paths := paths + [p];
      }
      todo := todo - {p};
    }
  }

  method VersionOnlyChange(base: Tree, head: Tree, path: string, members: set<string>) returns (only: bool)
    requires path == ROOT_MANIFEST || path == LOCKFILE
    ensures only == VersionOnly(base, head, path, members)
  {
    if path !in base || path !in head {
      return false;
    }
    if path == LOCKFILE {
      var before := MaskLockfileVersions(base[path], members);
      var after := MaskLockfileVersions(head[path], members);
      only := before == after;
    } else {
      var before := MaskWorkspaceVersion(base[path]);
      var after := MaskWorkspaceVersion(head[path]);
      only := before == after;
    }
  }

  datatype Change = Change(path: string, impact: Impact)

  method ImpactOfPath(packages: seq<Package>, base: Tree, head: Tree, path: string) returns (impact: Impact)
    ensures impact == ImpactOf(packages, base, head, path)
  {
    impact := Classify(path, packages);
    if path == ROOT_MANIFEST || path == LOCKFILE {
      var only := VersionOnlyChange(base, head, path, MemberNames(packages));
      if only {
        impact := Inert;
      }
    }
  }

  ghost predicate IsChange(packages: seq<Package>, base: Tree, head: Tree, c: Change) {
    Differs(base, head, c.path) && c.impact == ImpactOf(packages, base, head, c.path)
  }

  lemma ChangesAre(packages: seq<Package>, base: Tree, head: Tree, paths: seq<string>, impacts: seq<Change>)
    requires forall p :: p in paths <==> Differs(base, head, p)
    requires |impacts| == |paths|
    requires forall j | 0 <= j < |paths| :: impacts[j] == Change(paths[j], ImpactOf(packages, base, head, paths[j]))
    ensures forall c :: c in impacts <==> IsChange(packages, base, head, c)
  {
    forall c | IsChange(packages, base, head, c) ensures c in impacts {
      var j :| 0 <= j < |paths| && paths[j] == c.path;
      assert impacts[j] == c;
    }
    forall c | c in impacts ensures IsChange(packages, base, head, c) {
      var j :| 0 <= j < |impacts| && impacts[j] == c;
      assert paths[j] in paths;
    }
  }

  method ImpactsSince(ws: Workspace, base: Tree, head: Tree) returns (impacts: seq<Change>)
    ensures forall c :: c in impacts <==>
              Differs(base, head, c.path) && c.impact == ImpactOf(ws.packages, base, head, c.path)
  {
    var paths := ChangedPaths(base, head);
    impacts := [];
    for i := 0 to |paths|
      invariant |impacts| == i
      invariant forall j | 0 <= j < i :: impacts[j] == Change(paths[j], ImpactOf(ws.packages, base, head, paths[j]))
    {
      var impact := ImpactOfPath(ws.packages, base, head, paths[i]);
      impacts := impacts + [Change(paths[i], impact)];
    }
    ChangesAre(ws.packages, base, head, paths, impacts);
    assert forall c :: c in impacts <==> IsChange(ws.packages, base, head, c);
  }

  /** Why the image has to be rebuilt, or `None`. */
  method Hit(ws: Workspace, bin: string, impacts: seq<Change>) returns (reason: Option<string>)
    ensures reason.Some? ==> exists c :: c in impacts && c.path == reason.value && Touches(ws, bin, c.impact)
    ensures reason.None? ==> forall c | c in impacts :: !Touches(ws, bin, c.impact)
  {
    var reach := Reach(ws, bin);
    for i := 0 to |impacts|
      invariant forall j | 0 <= j < i :: !Touches(ws, bin, impacts[j].impact)
    {
      var hit := match impacts[i].impact
        case Inert => false
        case Every => true
        case Unclassified => true
        case Spa => bin == FRONTEND
        case OfPackage(name) => name in reach;
      if hit {
        assert impacts[i] in impacts;
        return Some(impacts[i].path);
      }
    }
    return None;
  }

  /** The ref an image was last published from, if it ever was. */
  function BaseOf(bases: map<string, string>, bin: string): Option<string> {
    if bin in bases && bases[bin] != "" then Some(bases[bin]) else None
  }

  /** An image is rebuilt when it has no base, or something that reaches it changed since. */
  ghost predicate Rebuilt(ws: Workspace, bin: string, bases: map<string, string>, commits: map<string, Tree>, head: Tree) {
    bin !in bases || bases[bin] == "" || (bases[bin] in commits && HitSince(ws, bin, commits[bases[bin]], head))
  }

  /** The images that are known to be rebuilt while the bases in `todo` are still to be compared with. */
  ghost predicate RebuiltSoFar(ws: Workspace, bin: string, bases: map<string, string>, commits: map<string, Tree>, head: Tree,
                               todo: set<string>) {
    match BaseOf(bases, bin)
    case None => true
    case Some(base) => base !in todo && base in commits && HitSince(ws, bin, commits[base], head)
  }

  /** The binaries that share each base ref, and those without one. */
  method GroupByBase(deployable: seq<string>, bases: map<string, string>)
    returns (unpublished: set<string>, byBase: map<string, seq<string>>)
    ensures forall bin :: bin in unpublished <==> bin in deployable && BaseOf(bases, bin).None?
    ensures forall base, bin | base in byBase && bin in byBase[base] :: bin in deployable && BaseOf(bases, bin) == Some(base)
    ensures forall bin | bin in deployable && BaseOf(bases, bin).Some? ::
              BaseOf(bases, bin).value in byBase && bin in byBase[BaseOf(bases, bin).value]
    ensures forall base | base in byBase :: byBase[base] != []
  {
    unpublished := {};
    byBase := map[];
    for i := 0 to |deployable|
      invariant forall bin :: bin in unpublished <==> bin in deployable[..i] && BaseOf(bases, bin).None?
      invariant forall base, bin | base in byBase && bin in byBase[base] :: bin in deployable[..i] && BaseOf(bases, bin) == Some(base)
      invariant forall bin | bin in deployable[..i] && BaseOf(bases, bin).Some? ::
        BaseOf(bases, bin).value in byBase && bin in byBase[BaseOf(bases, bin).value]
      invariant forall base | base in byBase :: byBase[base] != []
    {
      var bin := deployable[i];
      assert deployable[..i + 1] == deployable[..i] + [bin];
      match BaseOf(bases, bin) {
        case Some(base) =>
          byBase := byBase[base := (if base in byBase then byBase[base] else []) + [bin]];
        case None =>
          unpublished := unpublished + {bin};
      }
    }
    assert deployable[..|deployable|] == deployable;
  }

  /** The binaries of one base that something changed since that base reaches. */
  method HitsSince(ws: Workspace, bins: seq<string>, base: Tree, head: Tree) returns (hits: set<string>)
    ensures forall bin :: bin in hits <==> bin in bins && HitSince(ws, bin, base, head)
  {
    var impacts := ImpactsSince(ws, base, head);
    hits := HitsAmong(ws, bins, impacts);
    forall bin { HitsAreSince(ws, bin, base, head, impacts); }
  }

  /**
   The planner. Binaries are grouped by base, each base is diffed once, and a base that names no
   commit fails the whole plan, as `git diff` does.
   */
  method Select(ws: Workspace, deployable: seq<string>, bases: map<string, string>, commits: map<string, Tree>, head: Tree)
    returns (plan: Option<set<string>>)
    ensures plan.None? <==> exists bin | bin in deployable && bin in bases :: bases[bin] != "" && bases[bin] !in commits
    ensures plan.Some? ==> forall bin :: bin in plan.value <==> bin in deployable && Rebuilt(ws, bin, bases, commits, head)
  {
    var selected, byBase := GroupByBase(deployable, bases);
    var todo := byBase.Keys;
    while todo != {}
      invariant todo <= byBase.Keys
      invariant forall base | base in byBase && base !in todo :: base in commits
      invariant forall bin :: bin in selected <==> bin in deployable && RebuiltSoFar(ws, bin, bases, commits, head, todo)
      decreases todo
    {
      var base :| base in todo;
      if base !in commits {
        ghost var bin := byBase[base][0];
        assert bin in byBase[base] && BaseOf(bases, bin) == Some(base);
        return None;
      }
      var hits := HitsSince(ws, byBase[base], commits[base], head);
      selected := selected + hits;
      todo := todo - {base};
    }
    plan := Some(selected);
  }

  /** The inner loop: which of the binaries that share a base are hit. */
  method HitsAmong(ws: Workspace, bins: seq<string>, impacts: seq<Change>) returns (hits: set<string>)
    ensures forall bin :: bin in hits <==> bin in bins && exists c :: c in impacts && Touches(ws, bin, c.impact)
  {
    hits := {};
    for i := 0 to |bins|
      invariant forall bin :: bin in hits <==> bin in bins[..i] && exists c :: c in impacts && Touches(ws, bin, c.impact)
    {
      assert bins[..i + 1] == bins[..i] + [bins[i]];
      var reason := Hit(ws, bins[i], impacts);
      if reason.Some? {
        hits := hits + {bins[i]};
      }
    }
    assert bins[..|bins|] == bins;
  }

  lemma HitsAreSince(ws: Workspace, bin: string, base: Tree, head: Tree, impacts: seq<Change>)
    requires forall c :: c in impacts <==> Differs(base, head, c.path) && c.impact == ImpactOf(ws.packages, base, head, c.path)
    ensures (exists c :: c in impacts && Touches(ws, bin, c.impact)) <==> HitSince(ws, bin, base, head)
  {
    if HitSince(ws, bin, base, head) {
      var path :| Differs(base, head, path) && Touches(ws, bin, ImpactOf(ws.packages, base, head, path));
      assert Change(path, ImpactOf(ws.packages, base, head, path)) in impacts;
    }
  }
}
