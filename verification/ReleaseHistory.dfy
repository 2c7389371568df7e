/**
 Whole histories of releases, in which any selected leg may succeed or fail. A release treats each
 image by itself, so the state followed here is one image's: the revision it is published from.
 */
module ReleaseHistory {
  import opened Options
  import opened WorkspaceGraph
  import opened HeadGraph
  import opened ReleasePlan
  import opened ReleaseSafety
  import opened ReleaseBuild
  import opened ReleaseCompile

  /** One release: the revision it is cut from, and the legs that fail in it. */
  datatype Release = Release(head: Tree, failed: set<string>)

  /** The revision the published image was built from, if there is one. */
  type Base = Option<Tree>

  /** Whether a release selects the image. One whose HEAD the planner cannot load selects nothing. */
  ghost predicate Selected(cargo: Cargo, base: Base, head: Tree, bin: string) {
    Loadable(cargo, head) && (base.None? || HitSince(Load(cargo, head), bin, base.value, head))
  }

  /** The planner's own answer is that selection, when its base refs name the published revisions. */
  lemma PlanIsSelection(cargo: Cargo, base: Base, head: Tree, bin: string, bases: map<string, string>, commits: map<string, Tree>)
    requires Loadable(cargo, head)
    requires BaseOf(bases, bin).Some? <==> base.Some?
    requires base.Some? ==> BaseOf(bases, bin).value in commits && commits[BaseOf(bases, bin).value] == base.value
    ensures Rebuilt(Load(cargo, head), bin, bases, commits, head) <==> Selected(cargo, base, head, bin)
  {
  }

  /** A leg that was selected and succeeded moves its image to HEAD; any other leaves it where it was. */
  ghost predicate Built(cargo: Cargo, base: Base, r: Release, bin: string) {
    Selected(cargo, base, r.head, bin) && bin !in r.failed
  }

  /** The revision the image is published from after a release. */
  ghost function Moved(cargo: Cargo, base: Base, r: Release, bin: string): Base {
    if Built(cargo, base, r, bin) then Some(r.head) else base
  }

  /** The history of one image, published from `start` or not at all before the first release. */
  datatype History = History(cargo: Cargo, bin: string, start: Base, releases: seq<Release>)

  /** The image's base in front of release `n`. */
  ghost function BaseBefore(h: History, n: nat): Base
    requires n <= |h.releases|
  {
    if n == 0 then h.start
    else Moved(h.cargo, BaseBefore(h, n - 1), h.releases[n - 1], h.bin)
  }

  ghost predicate BuiltAt(h: History, i: nat)
    requires i < |h.releases|
  {
    Built(h.cargo, BaseBefore(h, i), h.releases[i], h.bin)
  }

  /** No release from `i` up to `j` built the image. */
  ghost predicate Idle(h: History, i: nat, j: nat)
    requires i <= j <= |h.releases|
  {
    i == j || (!BuiltAt(h, j - 1) && Idle(h, i, j - 1))
  }

  /** The last of the first `n` releases to build the image is number `k`, counted from one; none did if it is 0. */
  ghost predicate LastBuild(h: History, k: nat, n: nat)
    requires k <= n <= |h.releases|
  {
    Idle(h, k, n) && (k > 0 ==> BuiltAt(h, k - 1))
  }

  lemma OneIdleRelease(h: History, k: nat, n: nat)
    requires k <= n < |h.releases| && LastBuild(h, k, n) && !BuiltAt(h, n)
    ensures LastBuild(h, k, n + 1) && BaseBefore(h, n + 1) == BaseBefore(h, n)
  {}

  lemma OneBuild(h: History, n: nat)
    requires 0 < n <= |h.releases| && BuiltAt(h, n - 1)
    ensures LastBuild(h, n, n) && BaseBefore(h, n) == Some(h.releases[n - 1].head)
  {}

  /** The base is the HEAD of the last release that built the image, or what it was at the start. */
  lemma {:induction false} BaseIsLastBuild(h: History, n: nat) returns (k: nat)
    requires n <= |h.releases|
    ensures k <= n && LastBuild(h, k, n)
    ensures BaseBefore(h, n) == if k == 0 then h.start else Some(h.releases[k - 1].head)
  {
    if n == 0 {
      k := 0;
    } else if BuiltAt(h, n - 1) {
      k := n;
      OneBuild(h, n);
    } else {
      k := BaseIsLastBuild(h, n - 1);
      OneIdleRelease(h, k, n - 1);
    }
  }

  /** Between builds the base does not move. */
  lemma {:induction false} BaseKept(h: History, i: nat, j: nat)
    requires i <= j <= |h.releases| && Idle(h, i, j)
    ensures BaseBefore(h, j) == BaseBefore(h, i)
    decreases j - i
  {
    if i < j {
      BaseKept(h, i, j - 1);
    }
  }

  /** A release whose HEAD the planner reads rightly, and which still builds the image. */
  ghost predicate SoundRelease(h: History, i: nat)
    requires i < |h.releases|
  {
    SoundHead(h.cargo, h.releases[i].head) && OwningBin(Packages(h.cargo, h.releases[i].head), h.bin).Some?
  }

  ghost predicate SoundHistory(h: History) {
    && (h.start.Some? ==> Sound(h.cargo, h.start.value))
    && forall i | 0 <= i < |h.releases| :: SoundRelease(h, i)
  }

  lemma BaseIsSound(h: History, n: nat)
    requires SoundHistory(h) && n <= |h.releases|
    ensures BaseBefore(h, n).Some? ==> Sound(h.cargo, BaseBefore(h, n).value)
  {
    var k := BaseIsLastBuild(h, n);
    if k > 0 { assert SoundRelease(h, k - 1); }
  }

  // ---------------------------------------------------------------------------------------
  // No stale image
  // ---------------------------------------------------------------------------------------

  /** Whether the image published from `base` is what building it at `head` gives, the workspace version aside. */
  ghost predicate Fresh(cargo: Cargo, uses: Uses, base: Base, head: Tree, bin: string)
    requires Loadable(cargo, head)
  {
    base.Some? && SameBuild(uses, bin, base.value, head, Members(cargo, head))
  }

  /** What a release owes an image published from `base`: it is fresh, or its leg was selected and failed. */
  ghost predicate Discharged(cargo: Cargo, uses: Uses, base: Base, r: Release, bin: string)
    requires Loadable(cargo, r.head)
  {
    || Fresh(cargo, uses, Moved(cargo, base, r, bin), r.head, bin)
    || (Selected(cargo, base, r.head, bin) && bin in r.failed)
  }

  /** Between the base and HEAD, what the build reads decides what else it reads. */
  ghost predicate Decided(cargo: Cargo, uses: Uses, base: Base, head: Tree, bin: string)
    requires Loadable(cargo, head)
  {
    base.Some? ==> Determined(uses, bin, base.value, head, Members(cargo, head))
  }

  /**
   The exact condition: a release discharges what it owes an image, whatever the image was published
   from, if and only if the planner counts every path that the build at HEAD reads.
   */
  lemma DischargedIff(cargo: Cargo, uses: Uses, r: Release, bin: string)
    requires Loadable(cargo, r.head)
    ensures (forall base | Decided(cargo, uses, base, r.head, bin) :: Discharged(cargo, uses, base, r, bin))
       <==> Covers(cargo, uses, r.head, bin)
  {
    if Covers(cargo, uses, r.head, bin) {
      forall base | Decided(cargo, uses, base, r.head, bin) ensures Discharged(cargo, uses, base, r, bin) {
        if base.Some? && !HitSince(Load(cargo, r.head), bin, base.value, r.head) {
          UnhitMeansSameBuild(cargo, uses, base.value, r.head, bin);
        }
      }
    } else {
      var path :| uses(r.head, bin, path) && !Relevant(Load(cargo, r.head), bin, path);
      UncoveredGoesStale(cargo, uses, r.head, bin, path);
      var base := Some(Before(r.head, path));
      assert Decided(cargo, uses, base, r.head, bin) && !Discharged(cargo, uses, base, r, bin);
    }
  }

  /**
   No stale image, over any history: after each release whose build inputs the planner covers, the image
   is what a fresh build at that release's HEAD would be, or it was selected and its leg failed in that
   very release.
   */
  lemma NeverStale(h: History, uses: Uses, i: nat)
    requires i < |h.releases| && Loadable(h.cargo, h.releases[i].head)
    requires Covers(h.cargo, uses, h.releases[i].head, h.bin)
    requires Decided(h.cargo, uses, BaseBefore(h, i), h.releases[i].head, h.bin)
    ensures || Fresh(h.cargo, uses, BaseBefore(h, i + 1), h.releases[i].head, h.bin)
            || (Selected(h.cargo, BaseBefore(h, i), h.releases[i].head, h.bin) && h.bin in h.releases[i].failed)
  {
    DischargedIff(h.cargo, uses, h.releases[i], h.bin);
    assert Discharged(h.cargo, uses, BaseBefore(h, i), h.releases[i], h.bin);
  }

  /**
   A failed leg is picked up later: as long as it has not succeeded since release `i`, release `j`
   selects it unless the base it had at `i` is what a build at `j` would give.
   */
  lemma FailedLegIsPickedUp(h: History, uses: Uses, i: nat, j: nat)
    requires i <= j < |h.releases| && Idle(h, i, j)
    requires Loadable(h.cargo, h.releases[j].head) && Covers(h.cargo, uses, h.releases[j].head, h.bin)
    requires Decided(h.cargo, uses, BaseBefore(h, i), h.releases[j].head, h.bin)
    ensures || Selected(h.cargo, BaseBefore(h, j), h.releases[j].head, h.bin)
            || Fresh(h.cargo, uses, BaseBefore(h, i), h.releases[j].head, h.bin)
  {
    BaseKept(h, i, j);
    var base := BaseBefore(h, j);
    if base.Some? && !HitSince(Load(h.cargo, h.releases[j].head), h.bin, base.value, h.releases[j].head) {
      UnhitMeansSameBuild(h.cargo, uses, base.value, h.releases[j].head, h.bin);
    }
  }

  // ---------------------------------------------------------------------------------------
  // The images as they are compiled
  // ---------------------------------------------------------------------------------------

  /** At a sound release of the usual layout the planner covers the compilation, and its reads are decided. */
  lemma CompilationIsCovered(h: History, i: nat, j: nat)
    requires SoundHistory(h) && i <= j < |h.releases| && UsualLayout(h.cargo, h.releases[j].head)
    ensures SoundRelease(h, j) && Covers(h.cargo, Compiling(h.cargo), h.releases[j].head, h.bin)
    ensures Decided(h.cargo, Compiling(h.cargo), BaseBefore(h, i), h.releases[j].head, h.bin)
  {
    assert SoundRelease(h, j);
    CompilesCovered(h.cargo, h.releases[j].head, h.bin);
    BaseIsSound(h, i);
    if BaseBefore(h, i).Some? {
      CompilesDetermined(h.cargo, BaseBefore(h, i).value, h.releases[j].head, h.bin);
    }
  }

  /**
   No image is stale in its compiled code: after each release of a sound history, whatever its earlier
   bases and failures, the image was compiled from what HEAD would be compiled from, by HEAD's own
   dependency graph, or it was selected and its leg failed in that very release.
   */
  lemma NeverStaleCompiled(h: History, i: nat)
    requires SoundHistory(h) && i < |h.releases| && UsualLayout(h.cargo, h.releases[i].head)
    ensures SoundRelease(h, i)
    ensures || Fresh(h.cargo, Compiling(h.cargo), BaseBefore(h, i + 1), h.releases[i].head, h.bin)
            || (Selected(h.cargo, BaseBefore(h, i), h.releases[i].head, h.bin) && h.bin in h.releases[i].failed)
  {
    CompilationIsCovered(h, i, i);
    NeverStale(h, Compiling(h.cargo), i);
  }

  /** And a leg that failed is compiled again by the next release at which it would come out differently. */
  lemma FailedLegIsCompiled(h: History, i: nat, j: nat)
    requires SoundHistory(h) && i <= j < |h.releases| && Idle(h, i, j) && UsualLayout(h.cargo, h.releases[j].head)
    ensures SoundRelease(h, j)
    ensures || Selected(h.cargo, BaseBefore(h, j), h.releases[j].head, h.bin)
            || Fresh(h.cargo, Compiling(h.cargo), BaseBefore(h, i), h.releases[j].head, h.bin)
  {
    CompilationIsCovered(h, i, j);
    FailedLegIsPickedUp(h, Compiling(h.cargo), i, j);
  }

  // ---------------------------------------------------------------------------------------
  // By the planner's own account
  // ---------------------------------------------------------------------------------------

  /** Whether the files that the planner counts are the same at the base and at `head`, the version aside. */
  ghost predicate Unchanged(cargo: Cargo, base: Base, head: Tree, bin: string)
    requires Loadable(cargo, head)
  {
    && base.Some? && Loadable(cargo, base.value)
    && RelevantFiles(cargo, base.value, bin, Members(cargo, head)) == RelevantFiles(cargo, head, bin, Members(cargo, head))
  }

  /** An image is selected exactly when the files the planner counts have changed. */
  lemma SelectedIffChanged(cargo: Cargo, base: Base, head: Tree, bin: string)
    requires SoundHead(cargo, head) && OwningBin(Packages(cargo, head), bin).Some?
    requires base.Some? ==> Sound(cargo, base.value)
    ensures Selected(cargo, base, head, bin) <==> !Unchanged(cargo, base, head, bin)
  {
    if base.Some? { SelectionExact(cargo, base.value, head, bin); }
  }

  /**
   As long as a failed leg has not succeeded since release `i`, release `j` selects it if and only if the
   files the planner counts differ between HEAD and the base the image had at `i`.
   */
  lemma FailedLegStaysSelected(h: History, i: nat, j: nat)
    requires SoundHistory(h)
    requires i <= j < |h.releases| && Idle(h, i, j)
    ensures SoundRelease(h, j)
    ensures Selected(h.cargo, BaseBefore(h, j), h.releases[j].head, h.bin) <==>
            !Unchanged(h.cargo, BaseBefore(h, i), h.releases[j].head, h.bin)
  {
    BaseKept(h, i, j);
    BaseIsSound(h, j);
    assert SoundRelease(h, j);
    SelectedIffChanged(h.cargo, BaseBefore(h, j), h.releases[j].head, h.bin);
  }
}
