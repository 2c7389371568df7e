/**
 Merging one workspace's harvest of licence files into the distinct notices of each licence: no
 attribution is lost, none is repeated, and the order the files were harvested in does not show.
 */
module NoticeMerge {
  import opened Ordering
  import opened Notices
  import opened WhitespaceFold

  /** One harvested licence file and the crates it was found with. */
  datatype LicenceFile = LicenceFile(name: string, id: string, text: string, usedBy: seq<Covered>)

  datatype LicenceKey = LicenceKey(name: string, id: string)

  type LicenceNotice = Notice<string>
  type NoticeMap = map<string, LicenceNotice>
  type Grouping = map<LicenceKey, NoticeMap>

  /** One licence and its distinct notices. */
  datatype LicenceNotices = LicenceNotices(key: LicenceKey, notices: seq<LicenceNotice>)

  function KeyOf(f: LicenceFile): LicenceKey { LicenceKey(f.name, f.id) }

  // ---------------------------------------------------------------------------------------
  // Filling the maps
  // ---------------------------------------------------------------------------------------

  function NoticesUnder(m: Grouping, key: LicenceKey): NoticeMap {
    if key in m then m[key] else map[]
  }

  function NoticeAt(ns: NoticeMap, fold: string, f: LicenceFile): LicenceNotice {
    if fold in ns then ns[fold] else Notice(Unreturned(f.text), [])
  }

  /** The maps once `f` is filed: its text kept if it is the first of its kind, its crates pushed. */
  function Filed(m: Grouping, f: LicenceFile): Grouping {
    var ns := NoticesUnder(m, KeyOf(f));
    var n := NoticeAt(ns, Folded(f.text), f);
    m[KeyOf(f) := ns[Folded(f.text) := Notice(n.text, n.crates + f.usedBy)]]
  }

  function Gathered(harvest: seq<LicenceFile>): Grouping {
    if harvest == [] then map[] else Filed(Gathered(harvest[..|harvest| - 1]), harvest[|harvest| - 1])
  }

  lemma GatheredOneMore(harvest: seq<LicenceFile>, i: nat)
    requires i < |harvest|
    ensures Gathered(harvest[..i + 1]) == Filed(Gathered(harvest[..i]), harvest[i])
  {
    assert harvest[..i + 1][..i] == harvest[..i];
  }

  method Gather(harvest: seq<LicenceFile>) returns (m: Grouping)
    ensures m == Gathered(harvest)
  {
    m := map[];
    for i := 0 to |harvest|
      invariant m == Gathered(harvest[..i])
    {
      var f := harvest[i];
      ghost var before := m;
      var key, fold := LicenceKey(f.name, f.id), Folded(f.text);
      var ns: NoticeMap := map[];
      if key in m {
        ns := m[key];
      }
      var text, crates := Unreturned(f.text), [];
      if fold in ns {
        text, crates := ns[fold].text, ns[fold].crates;
      }
      ghost var held := crates;
      for j := 0 to |f.usedBy|
        invariant crates == held + f.usedBy[..j]
      {
        crates := crates + [f.usedBy[j]];
      }
      assert f.usedBy[..|f.usedBy|] == f.usedBy;
      m := m[key := ns[fold := Notice(text, crates)]];
      assert m == Filed(before, f);
      GatheredOneMore(harvest, i);
    }
    assert harvest[..|harvest|] == harvest;
  }

  // ---------------------------------------------------------------------------------------
  // What the maps hold
  // ---------------------------------------------------------------------------------------

  predicate InClass(f: LicenceFile, key: LicenceKey, fold: string) {
    KeyOf(f) == key && Folded(f.text) == fold
  }

  /** The files of one licence whose texts fold alike, in the order they were harvested. */
  function Class(harvest: seq<LicenceFile>, key: LicenceKey, fold: string): seq<LicenceFile> {
    if harvest == [] then []
    else
      var earlier := Class(harvest[..|harvest| - 1], key, fold);
      var last := harvest[|harvest| - 1];
      if InClass(last, key, fold) then earlier + [last] else earlier
  }

  function AllCrates(files: seq<LicenceFile>): seq<Covered> {
    if files == [] then [] else AllCrates(files[..|files| - 1]) + files[|files| - 1].usedBy
  }

  lemma {:induction false} ClassHolds(harvest: seq<LicenceFile>, key: LicenceKey, fold: string)
    ensures forall f :: f in Class(harvest, key, fold) <==> f in harvest && InClass(f, key, fold)
  {
    if harvest != [] {
      ClassHolds(harvest[..|harvest| - 1], key, fold);
      assert harvest == harvest[..|harvest| - 1] + [harvest[|harvest| - 1]];
    }
  }

  lemma {:induction false} AllCratesHolds(files: seq<LicenceFile>)
    ensures forall c :: c in AllCrates(files) <==> exists f | f in files :: c in f.usedBy
  {
    if files != [] {
      var last := files[|files| - 1];
      AllCratesHolds(files[..|files| - 1]);
      assert files == files[..|files| - 1] + [last];
      assert last in files;
    }
  }

  /** The notice of a class: the first text, without returns, and the crates of every file. */
  function ClassNotice(files: seq<LicenceFile>): LicenceNotice
    requires files != []
  {
    Notice(Unreturned(files[0].text), AllCrates(files))
  }

  lemma ClassNoticeGrows(files: seq<LicenceFile>, f: LicenceFile)
    ensures ClassNotice(files + [f])
         == if files == [] then Notice(Unreturned(f.text), f.usedBy)
            else Notice(ClassNotice(files).text, ClassNotice(files).crates + f.usedBy)
  {
    var all := files + [f];
    assert all[..|all| - 1] == files && all[|all| - 1] == f;
    assert AllCrates(all) == AllCrates(files) + f.usedBy;
    assert [] + f.usedBy == f.usedBy;
  }

  /** The maps hold each class of files under one notice. */
  lemma {:induction false} GatheredIs(harvest: seq<LicenceFile>, key: LicenceKey, fold: string)
    ensures fold in NoticesUnder(Gathered(harvest), key) <==> Class(harvest, key, fold) != []
    ensures fold in NoticesUnder(Gathered(harvest), key) ==>
              NoticesUnder(Gathered(harvest), key)[fold] == ClassNotice(Class(harvest, key, fold))
  {
    if harvest != [] {
      var init, last := harvest[..|harvest| - 1], harvest[|harvest| - 1];
      GatheredIs(init, key, fold);
      ClassNoticeGrows(Class(init, key, fold), last);
      assert [] + last.usedBy == last.usedBy;
    }
  }

  lemma {:induction false} GatheredKeys(harvest: seq<LicenceFile>, key: LicenceKey)
    ensures key in Gathered(harvest) <==> exists f | f in harvest :: KeyOf(f) == key
  {
    if harvest != [] {
      var init, last := harvest[..|harvest| - 1], harvest[|harvest| - 1];
      GatheredKeys(init, key);
      assert harvest == init + [last];
      assert last in harvest;
    }
  }

  // ---------------------------------------------------------------------------------------
  // Finishing: crates sorted without repeats, notices and licences in their order
  // ---------------------------------------------------------------------------------------

  predicate CrateOrder(a: Covered, b: Covered) { !CrateBefore(b, a) }

  function Finished(n: LicenceNotice): LicenceNotice {
    Notice(n.text, Deduped(Sorted(CrateOrder, n.crates)))
  }

  function Listed(ns: NoticeMap, folds: seq<string>): seq<LicenceNotice>
    requires forall fold | fold in folds :: fold in ns
  {
    if folds == [] then []
    else Listed(ns, folds[..|folds| - 1]) + [Finished(ns[folds[|folds| - 1]])]
  }

  lemma ListedOneMore(ns: NoticeMap, folds: seq<string>, i: nat)
    requires i < |folds| && forall fold | fold in folds :: fold in ns
    ensures Listed(ns, folds[..i + 1]) == Listed(ns, folds[..i]) + [Finished(ns[folds[i]])]
  {
    assert folds[..i + 1][..i] == folds[..i];
  }

  predicate KeyBefore(a: LicenceKey, b: LicenceKey) {
    StringBefore(a.name, b.name) || (a.name == b.name && StringBefore(a.id, b.id))
  }

  lemma KeyBeforeIsStrictTotal()
    ensures StrictTotal(KeyBefore)
  {
    StringBeforeIsStrictTotal();
  }

  function FoldsOf(ns: NoticeMap): (folds: seq<string>)
    ensures forall fold :: fold in folds <==> fold in ns
    ensures InOrder(StringBefore, folds)
  {
    StringBeforeIsStrictTotal();
    Ascending(StringBefore, ns.Keys)
  }

  function KeysOf(m: Grouping): (keys: seq<LicenceKey>)
    ensures forall key :: key in keys <==> key in m
    ensures InOrder(KeyBefore, keys)
  {
    KeyBeforeIsStrictTotal();
    Ascending(KeyBefore, m.Keys)
  }

  function NoticesOf(ns: NoticeMap): seq<LicenceNotice> {
    Sorted(MostUsedFirst, Listed(ns, FoldsOf(ns)))
  }

  function LicenceAt(m: Grouping, key: LicenceKey): LicenceNotices
    requires key in m
  {
    LicenceNotices(key, NoticesOf(m[key]))
  }

  function LicencesOf(m: Grouping, keys: seq<LicenceKey>): (r: seq<LicenceNotices>)
    requires forall key | key in keys :: key in m
    ensures |r| == |keys|
  {
    if keys == [] then []
    else
      LicencesOf(m, keys[..|keys| - 1]) + [LicenceAt(m, keys[|keys| - 1])]
  }

  lemma LicencesOneMore(m: Grouping, keys: seq<LicenceKey>, i: nat)
    requires i < |keys| && forall key | key in keys :: key in m
    ensures LicencesOf(m, keys[..i + 1]) == LicencesOf(m, keys[..i]) + [LicenceAt(m, keys[i])]
  {
    assert keys[..i + 1][..i] == keys[..i];
  }

  /** The distinct crates of some notices. */
  function CoveredBy(notices: seq<LicenceNotice>): set<Covered> {
    if notices == [] then {} else (set c | c in notices[0].crates) + CoveredBy(notices[1..])
  }

  predicate MostCovered(a: LicenceNotices, b: LicenceNotices) {
    || |CoveredBy(a.notices)| > |CoveredBy(b.notices)|
    || (|CoveredBy(a.notices)| == |CoveredBy(b.notices)| && !StringBefore(b.key.id, a.key.id))
  }

  function Merged(harvest: seq<LicenceFile>): seq<LicenceNotices> {
    var m := Gathered(harvest);
    Sorted(MostCovered, LicencesOf(m, KeysOf(m)))
  }

  method SortedCrates(crates: seq<Covered>) returns (r: seq<Covered>)
    ensures r == Deduped(Sorted(CrateOrder, crates))
  {
    r := Sorted(CrateOrder, crates);
    r := Deduped(r);
  }

  method FinishNotices(ns: NoticeMap) returns (notices: seq<LicenceNotice>)
    ensures notices == NoticesOf(ns)
  {
    var folds := FoldsOf(ns);
    notices := [];
    for i := 0 to |folds|
      invariant notices == Listed(ns, folds[..i])
    {
      var n := ns[folds[i]];
      var crates := SortedCrates(n.crates);
      ListedOneMore(ns, folds, i);
      notices := notices + [Notice(n.text, crates)];
    }
    assert folds[..|folds|] == folds;
    notices := Sorted(MostUsedFirst, notices);
  }

  method Merge(harvest: seq<LicenceFile>) returns (licences: seq<LicenceNotices>)
    ensures licences == Merged(harvest)
  {
    var m := Gather(harvest);
    var keys := KeysOf(m);
    licences := [];
    for i := 0 to |keys|
      invariant licences == LicencesOf(m, keys[..i])
    {
      var notices := FinishNotices(m[keys[i]]);
      LicencesOneMore(m, keys, i);
      licences := licences + [LicenceNotices(keys[i], notices)];
    }
    assert keys[..|keys|] == keys;
    licences := Sorted(MostCovered, licences);
  }

  // ---------------------------------------------------------------------------------------
  // The order of the harvest does not show
  // ---------------------------------------------------------------------------------------

  /** A notice's crates come out each once and in order. */
  lemma FinishedCrates(n: LicenceNotice)
    ensures InOrder(CrateBefore, Finished(n).crates)
    ensures forall c :: c in Finished(n).crates <==> c in n.crates
  {
    CrateBeforeIsStrictTotal();
    SortedIsInOrder(CrateOrder, n.crates);
    SortedHasSame(CrateOrder, n.crates);
    DedupedAscends(CrateBefore, Sorted(CrateOrder, n.crates));
    DedupedHasSame(Sorted(CrateOrder, n.crates));
  }

  lemma FinishedIsSettled(a: LicenceNotice, b: LicenceNotice)
    requires a.text == b.text && forall c :: c in a.crates <==> c in b.crates
    ensures Finished(a) == Finished(b)
  {
    CrateBeforeIsStrictTotal();
    FinishedCrates(a);
    FinishedCrates(b);
    AscendingIsUnique(CrateBefore, Finished(a).crates, Finished(b).crates);
  }

  predicate NoticesAgree(a: NoticeMap, b: NoticeMap) {
    a.Keys == b.Keys && forall fold | fold in a :: Finished(a[fold]) == Finished(b[fold])
  }

  lemma {:induction false} ListedAgree(a: NoticeMap, b: NoticeMap, folds: seq<string>)
    requires NoticesAgree(a, b) && forall fold | fold in folds :: fold in a
    ensures Listed(a, folds) == Listed(b, folds)
  {
    if folds != [] {
      assert folds[|folds| - 1] in a;
      ListedAgree(a, b, folds[..|folds| - 1]);
    }
  }

  lemma {:induction false} LicencesAgree(a: Grouping, b: Grouping, keys: seq<LicenceKey>)
    requires forall key | key in keys :: key in a && key in b && NoticesAgree(a[key], b[key])
    ensures LicencesOf(a, keys) == LicencesOf(b, keys)
  {
    if keys != [] {
      var key := keys[|keys| - 1];
      ListedAgree(a[key], b[key], FoldsOf(a[key]));
      LicencesAgree(a, b, keys[..|keys| - 1]);
    }
  }

  /** Texts of one licence that fold alike are one text once their returns are gone. */
  predicate TextsAgree(harvest: seq<LicenceFile>) {
    forall f, g | f in harvest && g in harvest && KeyOf(f) == KeyOf(g) && Folded(f.text) == Folded(g.text) ::
      Unreturned(f.text) == Unreturned(g.text)
  }

  predicate SameFiles(a: seq<LicenceFile>, b: seq<LicenceFile>) {
    (forall f | f in a :: f in b) && (forall f | f in b :: f in a)
  }

  lemma ClassAgrees(a: seq<LicenceFile>, b: seq<LicenceFile>, key: LicenceKey, fold: string)
    requires SameFiles(a, b) && TextsAgree(a) && Class(a, key, fold) != []
    ensures Class(b, key, fold) != []
    ensures Finished(ClassNotice(Class(a, key, fold))) == Finished(ClassNotice(Class(b, key, fold)))
  {
    var p, q := Class(a, key, fold), Class(b, key, fold);
    ClassHolds(a, key, fold);
    ClassHolds(b, key, fold);
    assert p[0] in p && p[0] in q;
    assert q[0] in q;
    AllCratesHolds(p);
    AllCratesHolds(q);
    FinishedIsSettled(ClassNotice(p), ClassNotice(q));
  }

  lemma GatheredAgree(a: seq<LicenceFile>, b: seq<LicenceFile>, key: LicenceKey)
    requires SameFiles(a, b) && TextsAgree(a) && TextsAgree(b)
    ensures NoticesAgree(NoticesUnder(Gathered(a), key), NoticesUnder(Gathered(b), key))
  {
    var p, q := NoticesUnder(Gathered(a), key), NoticesUnder(Gathered(b), key);
    forall fold ensures fold in p <==> fold in q {
      FoldAgrees(a, b, key, fold);
      FoldAgrees(b, a, key, fold);
    }
    forall fold | fold in p ensures Finished(p[fold]) == Finished(q[fold]) {
      FoldAgrees(a, b, key, fold);
    }
  }

  lemma FoldAgrees(a: seq<LicenceFile>, b: seq<LicenceFile>, key: LicenceKey, fold: string)
    requires SameFiles(a, b) && TextsAgree(a)
    ensures fold in NoticesUnder(Gathered(a), key) ==>
              && fold in NoticesUnder(Gathered(b), key)
              && Finished(NoticesUnder(Gathered(a), key)[fold]) == Finished(NoticesUnder(Gathered(b), key)[fold])
  {
    GatheredIs(a, key, fold);
    GatheredIs(b, key, fold);
    if Class(a, key, fold) != [] {
      ClassAgrees(a, b, key, fold);
    }
  }

  /** Harvesting the same files in another order, or some of them again, changes nothing. */
  lemma MergeIgnoresOrder(a: seq<LicenceFile>, b: seq<LicenceFile>)
    requires SameFiles(a, b) && TextsAgree(a)
    ensures Merged(a) == Merged(b)
  {
    var p, q := Gathered(a), Gathered(b);
    forall key ensures key in p <==> key in q {
      GatheredKeys(a, key);
      GatheredKeys(b, key);
    }
    assert p.Keys == q.Keys;
    forall key | key in p ensures NoticesAgree(p[key], q[key]) {
      GatheredAgree(a, b, key);
    }
    LicencesAgree(p, q, KeysOf(p));
  }

  // When the texts do not agree, the order does show.

  lemma {:induction false} ClassAppend(a: seq<LicenceFile>, b: seq<LicenceFile>, key: LicenceKey, fold: string)
    ensures Class(a + b, key, fold) == Class(a, key, fold) + Class(b, key, fold)
  {
    if b == [] {
      assert a + b == a;
    } else {
      var init, last := b[..|b| - 1], b[|b| - 1];
      ClassAppend(a, init, key, fold);
      assert (a + b)[..|a + b| - 1] == a + init;
    }
  }

  /** The harvest with the file at `i` moved to the front. */
  function Fronted(harvest: seq<LicenceFile>, i: nat): seq<LicenceFile>
    requires i < |harvest|
  {
    [harvest[i]] + (harvest[..i] + harvest[i + 1..])
  }

  lemma FrontedIsPermutation(harvest: seq<LicenceFile>, i: nat)
    requires i < |harvest|
    ensures multiset(Fronted(harvest, i)) == multiset(harvest)
  {
    assert harvest == harvest[..i] + [harvest[i]] + harvest[i + 1..];
  }

  lemma ClassAround(a: seq<LicenceFile>, f: LicenceFile, b: seq<LicenceFile>, key: LicenceKey, fold: string)
    ensures Class(a + [f] + b, key, fold) == Class(a, key, fold) + Class([f], key, fold) + Class(b, key, fold)
  {
    ClassAppend(a, [f], key, fold);
    ClassAppend(a + [f], b, key, fold);
  }

  lemma FrontedClass(harvest: seq<LicenceFile>, i: nat, key: LicenceKey, fold: string)
    requires i < |harvest|
    ensures InClass(harvest[i], key, fold) ==>
              Class(Fronted(harvest, i), key, fold) != [] && Class(Fronted(harvest, i), key, fold)[0] == harvest[i]
    ensures !InClass(harvest[i], key, fold) ==> Class(Fronted(harvest, i), key, fold) == Class(harvest, key, fold)
  {
    var a, b := harvest[..i], harvest[i + 1..];
    assert harvest == a + [harvest[i]] + b;
    assert Fronted(harvest, i) == [harvest[i]] + (a + b);
    assert Class([harvest[i]], key, fold) == if InClass(harvest[i], key, fold) then [harvest[i]] else [];
    ClassAround(a, harvest[i], b, key, fold);
    ClassInFront(harvest[i], a, b, key, fold);
  }

  lemma ClassInFront(f: LicenceFile, a: seq<LicenceFile>, b: seq<LicenceFile>, key: LicenceKey, fold: string)
    ensures Class([f] + (a + b), key, fold) == Class([f], key, fold) + (Class(a, key, fold) + Class(b, key, fold))
  {
    ClassAppend([f], a + b, key, fold);
    ClassAppend(a, b, key, fold);
  }

  /** Moving one file of a class to the front or another: only that class's notice is not the same. */
  lemma FrontedListed(harvest: seq<LicenceFile>, i: nat, j: nat, folds: seq<string>, k: nat)
    requires i < |harvest| && j < |harvest| && KeyOf(harvest[i]) == KeyOf(harvest[j])
    requires Folded(harvest[i].text) == Folded(harvest[j].text)
    requires k < |folds|
    requires folds[k] in NoticesUnder(Gathered(Fronted(harvest, i)), KeyOf(harvest[i]))
    requires folds[k] in NoticesUnder(Gathered(Fronted(harvest, j)), KeyOf(harvest[i]))
    ensures folds[k] != Folded(harvest[i].text) ==>
              Finished(NoticesUnder(Gathered(Fronted(harvest, i)), KeyOf(harvest[i]))[folds[k]])
              == Finished(NoticesUnder(Gathered(Fronted(harvest, j)), KeyOf(harvest[i]))[folds[k]])
    ensures folds[k] == Folded(harvest[i].text) ==>
              && Finished(NoticesUnder(Gathered(Fronted(harvest, i)), KeyOf(harvest[i]))[folds[k]]).text
                 == Unreturned(harvest[i].text)
              && Finished(NoticesUnder(Gathered(Fronted(harvest, j)), KeyOf(harvest[i]))[folds[k]]).text
                 == Unreturned(harvest[j].text)
  {
    var key := KeyOf(harvest[i]);
    FrontedClass(harvest, i, key, folds[k]);
    FrontedClass(harvest, j, key, folds[k]);
    GatheredIs(Fronted(harvest, i), key, folds[k]);
    GatheredIs(Fronted(harvest, j), key, folds[k]);
  }

  lemma FrontedFolds(harvest: seq<LicenceFile>, i: nat, j: nat, key: LicenceKey)
    requires i < |harvest| && j < |harvest|
    ensures NoticesUnder(Gathered(Fronted(harvest, i)), key).Keys == NoticesUnder(Gathered(Fronted(harvest, j)), key).Keys
  {
    FrontedIsPermutation(harvest, i);
    FrontedIsPermutation(harvest, j);
    var p, q := Fronted(harvest, i), Fronted(harvest, j);
    assert forall f :: f in p <==> f in multiset(p);
    assert forall f :: f in q <==> f in multiset(q);
    forall fold ensures fold in NoticesUnder(Gathered(p), key) <==> fold in NoticesUnder(Gathered(q), key) {
      GatheredIs(p, key, fold);
      GatheredIs(q, key, fold);
      ClassHolds(p, key, fold);
      ClassHolds(q, key, fold);
      assert Class(p, key, fold) != [] ==> Class(p, key, fold)[0] in Class(q, key, fold);
      assert Class(q, key, fold) != [] ==> Class(q, key, fold)[0] in Class(p, key, fold);
    }
  }

  lemma ChangedOnce<T>(s: seq<T>, t: seq<T>, k: nat)
    requires |s| == |t| && k < |s| && s[k] != t[k]
    requires forall i | 0 <= i < |s| && i != k :: s[i] == t[i]
    ensures multiset(s) != multiset(t)
  {
    var gone, come := s[k], t[k];
    assert t == s[k := come];
    assert s[k] in multiset(s);
    assert multiset(t)[gone] == multiset(s)[gone] - 1;
  }

  lemma OrderShows(harvest: seq<LicenceFile>, i: nat, j: nat)
    requires i < |harvest| && j < |harvest| && KeyOf(harvest[i]) == KeyOf(harvest[j])
    requires Folded(harvest[i].text) == Folded(harvest[j].text)
    requires Unreturned(harvest[i].text) != Unreturned(harvest[j].text)
    ensures Merged(Fronted(harvest, i)) != Merged(Fronted(harvest, j))
  {
    var key, p, q := KeyOf(harvest[i]), Fronted(harvest, i), Fronted(harvest, j);
    assert p[0] == harvest[i] && q[0] == harvest[j] && p[0] in p && q[0] in q;
    GatheredKeys(p, key);
    GatheredKeys(q, key);
    NoticesDiffer(harvest, i, j);
    var licence := LicenceNotices(key, NoticesOf(Gathered(p)[key]));
    MergedHolds(p, licence);
    MergedHolds(q, licence);
    assert licence in Merged(p) && licence !in Merged(q);
  }

  lemma NoticesDiffer(harvest: seq<LicenceFile>, i: nat, j: nat)
    requires i < |harvest| && j < |harvest| && KeyOf(harvest[i]) == KeyOf(harvest[j])
    requires Folded(harvest[i].text) == Folded(harvest[j].text)
    requires Unreturned(harvest[i].text) != Unreturned(harvest[j].text)
    ensures NoticesOf(NoticesUnder(Gathered(Fronted(harvest, i)), KeyOf(harvest[i])))
         != NoticesOf(NoticesUnder(Gathered(Fronted(harvest, j)), KeyOf(harvest[i])))
  {
    var key, p, q := KeyOf(harvest[i]), Fronted(harvest, i), Fronted(harvest, j);
    var a, b := NoticesUnder(Gathered(p), key), NoticesUnder(Gathered(q), key);
    FrontedFolds(harvest, i, j, key);
    var folds := FoldsOf(a);
    FrontedClass(harvest, i, key, Folded(harvest[i].text));
    GatheredIs(p, key, Folded(harvest[i].text));
    var at :| 0 <= at < |folds| && folds[at] == Folded(harvest[i].text);
    ListedDiffer(harvest, i, j, a, b, folds, at);
    SortedIsPermutation(MostUsedFirst<string>, Listed(a, folds));
    SortedIsPermutation(MostUsedFirst<string>, Listed(b, folds));
  }

  lemma ListedDiffer(harvest: seq<LicenceFile>, i: nat, j: nat, a: NoticeMap, b: NoticeMap, folds: seq<string>, at: nat)
    requires i < |harvest| && j < |harvest| && KeyOf(harvest[i]) == KeyOf(harvest[j])
    requires Folded(harvest[i].text) == Folded(harvest[j].text)
    requires Unreturned(harvest[i].text) != Unreturned(harvest[j].text)
    requires a == NoticesUnder(Gathered(Fronted(harvest, i)), KeyOf(harvest[i]))
    requires b == NoticesUnder(Gathered(Fronted(harvest, j)), KeyOf(harvest[i]))
    requires forall fold | fold in folds :: fold in a && fold in b
    requires InOrder(StringBefore, folds)
    requires at < |folds| && folds[at] == Folded(harvest[i].text)
    ensures multiset(Listed(a, folds)) != multiset(Listed(b, folds))
  {
    StringBeforeIsStrictTotal();
    ListedHolds(a, folds);
    ListedHolds(b, folds);
    forall k | 0 <= k < |folds| && k != at ensures Listed(a, folds)[k] == Listed(b, folds)[k] {
      assert folds[k] in folds;
      FrontedListed(harvest, i, j, folds, k);
    }
    FrontedListed(harvest, i, j, folds, at);
    ChangedOnce(Listed(a, folds), Listed(b, folds), at);
  }

  /** The order of the harvest cannot show if and only if texts that fold alike agree without returns. */
  lemma OrderIgnoredIff(harvest: seq<LicenceFile>)
    ensures TextsAgree(harvest) <==>
            forall p, q | multiset(p) == multiset(harvest) && multiset(q) == multiset(harvest) :: Merged(p) == Merged(q)
  {
    if TextsAgree(harvest) {
      forall p, q | multiset(p) == multiset(harvest) && multiset(q) == multiset(harvest)
        ensures Merged(p) == Merged(q)
      {
        SameMultisetSameFiles(harvest, p);
        SameMultisetSameFiles(harvest, q);
        MergeIgnoresOrder(harvest, p);
        MergeIgnoresOrder(harvest, q);
      }
    } else {
      var f, g :| f in harvest && g in harvest && KeyOf(f) == KeyOf(g) && Folded(f.text) == Folded(g.text)
        && Unreturned(f.text) != Unreturned(g.text);
      var i :| 0 <= i < |harvest| && harvest[i] == f;
      var j :| 0 <= j < |harvest| && harvest[j] == g;
      OrderShows(harvest, i, j);
      FrontedIsPermutation(harvest, i);
      FrontedIsPermutation(harvest, j);
    }
  }

  lemma SameMultisetSameFiles(a: seq<LicenceFile>, b: seq<LicenceFile>)
    requires multiset(a) == multiset(b)
    ensures SameFiles(a, b)
  {
    assert forall f :: f in a <==> f in multiset(a);
    assert forall f :: f in b <==> f in multiset(b);
  }

  // ---------------------------------------------------------------------------------------
  // Every attribution is kept, once
  // ---------------------------------------------------------------------------------------

  /** Whether `n` is the finished notice of the class that folds to `fold`. */
  predicate IsKept(harvest: seq<LicenceFile>, key: LicenceKey, n: LicenceNotice, fold: string) {
    var files := Class(harvest, key, fold);
    files != [] && n == Finished(ClassNotice(files))
  }

  /** The folds the notices of a licence stand for: each fold of its files, exactly once. */
  ghost predicate Labelled(harvest: seq<LicenceFile>, licence: LicenceNotices, folds: seq<string>) {
    && |folds| == |licence.notices|
    && (forall fold :: multiset(folds)[fold] == if Class(harvest, licence.key, fold) != [] then 1 else 0)
    && (forall i | 0 <= i < |folds| :: IsKept(harvest, licence.key, licence.notices[i], folds[i]))
  }

  lemma {:induction false} OnceEach(folds: seq<string>, fold: string)
    requires InOrder(StringBefore, folds)
    ensures multiset(folds)[fold] == if fold in folds then 1 else 0
  {
    StringBeforeIsStrictTotal();
    if folds != [] {
      var init, last := folds[..|folds| - 1], folds[|folds| - 1];
      OnceEach(init, fold);
      assert folds == init + [last];
      assert forall i | 0 <= i < |init| :: StringBefore(init[i], last) && init[i] != last;
    }
  }

  lemma {:induction false} ListedHolds(ns: NoticeMap, folds: seq<string>)
    requires forall fold | fold in folds :: fold in ns
    ensures |Listed(ns, folds)| == |folds|
    ensures forall i | 0 <= i < |folds| :: Listed(ns, folds)[i] == Finished(ns[folds[i]])
  {
    if folds != [] {
      ListedHolds(ns, folds[..|folds| - 1]);
    }
  }

  lemma {:induction false} LicenceListed(m: Grouping, keys: seq<LicenceKey>, i: nat)
    requires forall key | key in keys :: key in m
    requires i < |keys|
    ensures LicencesOf(m, keys)[i] == LicenceAt(m, keys[i])
  {
    var init := keys[..|keys| - 1];
    if i < |init| {
      LicenceListed(m, init, i);
      assert init[i] == keys[i];
    }
  }

  lemma LicencesHold(m: Grouping, keys: seq<LicenceKey>)
    requires forall key | key in keys :: key in m
    ensures forall i | 0 <= i < |keys| :: LicencesOf(m, keys)[i] == LicenceAt(m, keys[i])
  {
    forall i | 0 <= i < |keys| ensures LicencesOf(m, keys)[i] == LicenceAt(m, keys[i]) {
      LicenceListed(m, keys, i);
    }
  }

  lemma MergedHolds(harvest: seq<LicenceFile>, licence: LicenceNotices)
    ensures licence in Merged(harvest) <==>
              && licence.key in Gathered(harvest)
              && licence.notices == NoticesOf(Gathered(harvest)[licence.key])
  {
    var m := Gathered(harvest);
    var keys := KeysOf(m);
    LicencesHold(m, keys);
    SortedHasSame(MostCovered, LicencesOf(m, keys));
    if licence.key in m && licence.notices == NoticesOf(m[licence.key]) {
      var i :| 0 <= i < |keys| && keys[i] == licence.key;
      assert LicencesOf(m, keys)[i] == licence;
    }
  }

  /** The harvest names each of its licences once, and no other. */
  lemma LicencesOnce(harvest: seq<LicenceFile>, key: LicenceKey)
    ensures (exists f | f in harvest :: f.name == key.name && f.id == key.id) <==> exists l | l in Merged(harvest) :: l.key == key
    ensures InOrder(OtherLicence, Merged(harvest))
  {
    var m := Gathered(harvest);
    GatheredKeys(harvest, key);
    if key in m {
      MergedHolds(harvest, LicenceNotices(key, NoticesOf(m[key])));
    }
    forall l | l in Merged(harvest) && l.key == key ensures key in m {
      MergedHolds(harvest, l);
    }
    KeyBeforeIsStrictTotal();
    LicencesHold(m, KeysOf(m));
    SortedKeepsPairs(MostCovered, OtherLicence, LicencesOf(m, KeysOf(m)));
  }

  predicate OtherLicence(a: LicenceNotices, b: LicenceNotices) { a.key != b.key }

  /** The notices of a licence are the classes of its files, one for one. */
  lemma ClassesKeptOnce(harvest: seq<LicenceFile>, licence: LicenceNotices) returns (folds: seq<string>)
    requires licence in Merged(harvest)
    ensures Labelled(harvest, licence, folds)
  {
    MergedHolds(harvest, licence);
    var ns := Gathered(harvest)[licence.key];
    var listed := Listed(ns, FoldsOf(ns));
    ListedHolds(ns, FoldsOf(ns));
    forall i | 0 <= i < |listed| ensures IsKept(harvest, licence.key, listed[i], FoldsOf(ns)[i]) {
      assert FoldsOf(ns)[i] in ns;
      GatheredIs(harvest, licence.key, FoldsOf(ns)[i]);
    }
    var kept := (n: LicenceNotice, fold: string) => IsKept(harvest, licence.key, n, fold);
    folds := SortedCarriesLabels(MostUsedFirst, kept, listed, FoldsOf(ns));
    forall fold ensures multiset(folds)[fold] == if Class(harvest, licence.key, fold) != [] then 1 else 0 {
      OnceEach(FoldsOf(ns), fold);
      GatheredIs(harvest, licence.key, fold);
    }
    forall i | 0 <= i < |folds| ensures IsKept(harvest, licence.key, licence.notices[i], folds[i]) {
      assert kept(Sorted(MostUsedFirst, listed)[i], folds[i]);
    }
  }

  /**
   Attribution is conserved: a file's crate is named under the one notice that stands for the file's
   folded text, and a notice names no crate that no such file was found with.
   */
  lemma AttributionConserved(harvest: seq<LicenceFile>, licence: LicenceNotices, folds: seq<string>, fold: string, c: Covered)
    requires Labelled(harvest, licence, folds)
    ensures (exists f | f in harvest :: InClass(f, licence.key, fold) && c in f.usedBy)
       <==> exists i | 0 <= i < |folds| :: folds[i] == fold && c in licence.notices[i].crates
    ensures forall i, j | 0 <= i < |folds| && 0 <= j < |folds| && folds[i] == folds[j] :: i == j
    ensures forall i | 0 <= i < |folds| :: InOrder(CrateBefore, licence.notices[i].crates)
  {
    var files := Class(harvest, licence.key, fold);
    ClassHolds(harvest, licence.key, fold);
    AllCratesHolds(files);
    forall i | 0 <= i < |folds|
      ensures InOrder(CrateBefore, licence.notices[i].crates)
      ensures forall x :: x in licence.notices[i].crates <==> x in AllCrates(Class(harvest, licence.key, folds[i]))
    {
      assert IsKept(harvest, licence.key, licence.notices[i], folds[i]);
      FinishedCrates(ClassNotice(Class(harvest, licence.key, folds[i])));
    }
    if files != [] {
      assert fold in multiset(folds);
      var i :| 0 <= i < |folds| && folds[i] == fold;
    }
    forall i, j | 0 <= i < |folds| && 0 <= j < |folds| && folds[i] == folds[j] ensures i == j {
      assert multiset(folds)[folds[i]] <= 1;
      if i != j {
        TwicePlaced(folds, if i < j then i else j, if i < j then j else i);
      }
    }
  }

  lemma TwicePlaced(folds: seq<string>, i: nat, j: nat)
    requires i < j < |folds| && folds[i] == folds[j]
    ensures multiset(folds)[folds[i]] >= 2
  {
    assert folds == folds[..j] + folds[j..];
    assert folds[..j][i] == folds[i] && folds[i] in folds[..j];
    assert folds[j..][0] == folds[j] && folds[j] in folds[j..];
  }

  /**
   The notices show the folds they stand for exactly when no text that was kept loses a word boundary
   with its returns.
   */
  lemma FoldsShowIff(harvest: seq<LicenceFile>, licence: LicenceNotices, folds: seq<string>)
    requires Labelled(harvest, licence, folds)
    ensures (forall i | 0 <= i < |folds| :: Folded(licence.notices[i].text) == folds[i])
       <==> forall i | 0 <= i < |folds| ::
              Class(harvest, licence.key, folds[i]) != [] && !Glued(Class(harvest, licence.key, folds[i])[0].text)
  {
    forall i | 0 <= i < |folds|
      ensures Class(harvest, licence.key, folds[i]) != []
      ensures Folded(licence.notices[i].text) == folds[i] <==> !Glued(Class(harvest, licence.key, folds[i])[0].text)
    {
      var files := Class(harvest, licence.key, folds[i]);
      assert IsKept(harvest, licence.key, licence.notices[i], folds[i]);
      ClassHolds(harvest, licence.key, folds[i]);
      assert files[0] in files;
      FoldKeptIff(files[0].text);
    }
  }

  lemma NamedIsHarvested(harvest: seq<LicenceFile>, licence: LicenceNotices, folds: seq<string>, n: LicenceNotice, c: Covered)
    requires Labelled(harvest, licence, folds) && n in licence.notices && c in n.crates
    ensures exists f | f in harvest :: KeyOf(f) == licence.key && c in f.usedBy
  {
    var i :| 0 <= i < |licence.notices| && licence.notices[i] == n;
    AttributionConserved(harvest, licence, folds, folds[i], c);
    var f :| f in harvest && InClass(f, licence.key, folds[i]) && c in f.usedBy;
  }

  lemma HarvestedIsNamed(harvest: seq<LicenceFile>, licence: LicenceNotices, folds: seq<string>, f: LicenceFile, c: Covered)
    requires Labelled(harvest, licence, folds) && f in harvest && KeyOf(f) == licence.key && c in f.usedBy
    ensures exists n | n in licence.notices :: c in n.crates
  {
    AttributionConserved(harvest, licence, folds, Folded(f.text), c);
    assert InClass(f, licence.key, Folded(f.text));
    var i :| 0 <= i < |folds| && c in licence.notices[i].crates;
    assert licence.notices[i] in licence.notices;
  }

  /** The count in the summary is of distinct crates: those found with some file of the licence. */
  lemma CoveredAreDistinct(harvest: seq<LicenceFile>, licence: LicenceNotices, c: Covered)
    requires licence in Merged(harvest)
    ensures c in CoveredBy(licence.notices) <==> exists f | f in harvest :: KeyOf(f) == licence.key && c in f.usedBy
  {
    var folds := ClassesKeptOnce(harvest, licence);
    CoveredIff(licence.notices, c);
    if c in CoveredBy(licence.notices) {
      var n :| n in licence.notices && c in n.crates;
      NamedIsHarvested(harvest, licence, folds, n, c);
    }
    if f :| f in harvest && KeyOf(f) == licence.key && c in f.usedBy {
      HarvestedIsNamed(harvest, licence, folds, f, c);
    }
  }

  lemma {:induction false} CoveredIff(notices: seq<LicenceNotice>, c: Covered)
    ensures c in CoveredBy(notices) <==> exists n | n in notices :: c in n.crates
  {
    if notices != [] {
      CoveredIff(notices[1..], c);
      assert notices == [notices[0]] + notices[1..];
      assert notices[0] in notices;
    }
  }
}
