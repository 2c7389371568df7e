/** The order everything is listed in, from the characters up: crates, notices, groups and licences. */
module NoticeOrder {
  import opened Ordering
  import opened Notices
  import opened NoticeClusters
  import opened NoticeMerge

  predicate CharsPart(a: string, b: string, k: nat)
    requires k <= |a| && k < |b|
  {
    a[..k] == b[..k] && (k == |a| || a[k] < b[k])
  }

  /** Strings go by the first character they differ in, a string that only stops earlier in front. */
  predicate StringPrecedes(a: string, b: string) {
    exists k | 0 <= k <= |a| && k < |b| :: CharsPart(a, b, k)
  }

  predicate CratePrecedes(a: Covered, b: Covered) {
    StringPrecedes(a.name, b.name) || (a.name == b.name && StringPrecedes(a.version, b.version))
  }

  lemma StringBeforeIff(a: string, b: string)
    ensures StringBefore(a, b) <==> StringPrecedes(a, b)
  {
    BeforeIff(CharBefore, a, b);
    forall k | 0 <= k <= |a| && k < |b| ensures Parts(CharBefore, a, b, k) <==> CharsPart(a, b, k) {}
  }

  /** Crates go by name, then by version. */
  lemma CrateBeforeIff(a: Covered, b: Covered)
    ensures CrateBefore(a, b) <==> CratePrecedes(a, b)
  {
    StringBeforeIff(a.name, b.name);
    StringBeforeIff(a.version, b.version);
  }

  /** Lists of crates go by the first crate they differ in, a list that only stops earlier in front. */
  predicate CratesPrecede(a: seq<Covered>, b: seq<Covered>) {
    exists k | 0 <= k <= |a| && k < |b| :: PartAt(a, b, k)
  }

  predicate PartAt(a: seq<Covered>, b: seq<Covered>, k: nat)
    requires k <= |a| && k < |b|
  {
    a[..k] == b[..k] && (k == |a| || CratePrecedes(a[k], b[k]))
  }

  lemma CratesBeforeIff(a: seq<Covered>, b: seq<Covered>)
    ensures CratesBefore(a, b) <==> CratesPrecede(a, b)
  {
    BeforeIff(CrateBefore, a, b);
    forall k | 0 <= k <= |a| && k < |b| ensures Parts(CrateBefore, a, b, k) <==> PartAt(a, b, k) {
      if k < |a| {
        CrateBeforeIff(a[k], b[k]);
      }
    }
  }

  // ---------------------------------------------------------------------------------------
  // Notices and groups
  // ---------------------------------------------------------------------------------------

  /** Notices with more crates come first, and among as many the lists of crates are in order. */
  lemma MostUsedFirstIff<T>(a: Notice<T>, b: Notice<T>)
    ensures MostUsedFirst(a, b) <==>
              |a.crates| > |b.crates| || (|a.crates| == |b.crates| && (a.crates == b.crates || CratesPrecede(a.crates, b.crates)))
  {
    CratesBeforeIff(a.crates, b.crates);
    CratesBeforeIff(b.crates, a.crates);
    CratesBeforeIsStrictTotal();
  }

  lemma NoticesInOrder(harvest: seq<LicenceFile>, licence: LicenceNotices, i: nat, j: nat)
    requires licence in Merged(harvest) && i < j < |licence.notices|
    ensures var a, b := licence.notices[i].crates, licence.notices[j].crates;
            |a| > |b| || (|a| == |b| && (a == b || CratesPrecede(a, b)))
  {
    MergedHolds(harvest, licence);
    var ns := Gathered(harvest)[licence.key];
    MostUsedFirstIsPreorder<string>();
    SortedIsInOrder(MostUsedFirst, Listed(ns, FoldsOf(ns)));
    MostUsedFirstIff(licence.notices[i], licence.notices[j]);
  }

  /** The crates of a group are those of its notices, each notice's counted on its own. */
  lemma {:induction false} ClusterCratesIs(notices: seq<TextNotice>, more: seq<TextNotice>, n: TextNotice)
    ensures ClusterCrates([]) == 0 && ClusterCrates([n]) == |n.crates|
    ensures ClusterCrates(notices + more) == ClusterCrates(notices) + ClusterCrates(more)
  {
    if notices == [] {
      assert notices + more == more;
    } else {
      assert (notices + more)[1..] == notices[1..] + more;
      ClusterCratesIs(notices[1..], more, n);
    }
  }

  predicate BytesPart(a: Text, b: Text, k: nat)
    requires k <= |a| && k < |b|
  {
    a[..k] == b[..k] && (k == |a| || a[k] < b[k])
  }

  /** Texts go by the first byte they differ in, a text that only stops earlier in front. */
  predicate TextPrecedes(a: Text, b: Text) {
    exists k | 0 <= k <= |a| && k < |b| :: BytesPart(a, b, k)
  }

  lemma TextBeforeIff(a: Text, b: Text)
    ensures TextBefore(a, b) <==> TextPrecedes(a, b)
  {
    BeforeIff(ByteBefore, a, b);
    forall k | 0 <= k <= |a| && k < |b| ensures Parts(ByteBefore, a, b, k) <==> BytesPart(a, b, k) {}
  }

  lemma TextOrderIff(a: TextNotice, b: TextNotice)
    ensures TextOrder(a, b) <==> a.text == b.text || TextPrecedes(a.text, b.text)
  {
    TextBeforeIsStrictTotal();
    TextBeforeIff(a.text, b.text);
    assert a.text == b.text || TextBefore(a.text, b.text) || TextBefore(b.text, a.text);
  }

  /** In a group the notices with more crates come first, then the crates decide, and then the texts. */
  lemma GroupInOrder(clusters: seq<Cluster>, notices: seq<TextNotice>, c: Cluster, i: nat, j: nat)
    requires Clusters(clusters, notices) && c in clusters && i < j < |c.notices|
    ensures var a, b := c.notices[i], c.notices[j];
            || |a.crates| > |b.crates|
            || (|a.crates| == |b.crates| && CratesPrecede(a.crates, b.crates))
            || (a.crates == b.crates && (a.text == b.text || TextPrecedes(a.text, b.text)))
  {
    var a, b := c.notices[i], c.notices[j];
    MostUsedFirstIff(a, b);
    TextOrderIff(a, b);
    MostUsedFirstIff(b, a);
    assert MostUsedFirst(a, b) && (MostUsedFirst(b, a) ==> TextOrder(a, b));
  }

  /**
   The groups come by their crates, most first; among as many by the crates of their first notices; and
   where those are the same by their texts.
   */
  lemma GroupsInOrder(clusters: seq<Cluster>, notices: seq<TextNotice>, i: nat, j: nat)
    requires Clusters(clusters, notices) && i < j < |clusters|
    ensures clusters[i].notices != [] && clusters[j].notices != []
    ensures var a, b := clusters[i].notices, clusters[j].notices;
            || ClusterCrates(a) > ClusterCrates(b)
            || (ClusterCrates(a) == ClusterCrates(b) && CratesPrecede(a[0].crates, b[0].crates))
            || (ClusterCrates(a) == ClusterCrates(b) && a[0].crates == b[0].crates
                && forall x, y | x in a && y in b :: x.text == y.text || TextPrecedes(x.text, y.text))
  {
    var p, q := clusters[i], clusters[j];
    assert p in clusters && q in clusters && Sound(p, 0) && Sound(q, 0);
    CratesBeforeIff(p.notices[0].crates, q.notices[0].crates);
    CratesBeforeIsStrictTotal();
    if MostUsedCluster(q, p) {
      assert RunsBefore(p, q);
      forall x, y | x in p.notices && y in q.notices ensures x.text == y.text || TextPrecedes(x.text, y.text) {
        TextOrderIff(x, y);
      }
    }
  }

  // ---------------------------------------------------------------------------------------
  // Licences
  // ---------------------------------------------------------------------------------------

  /** The distinct crates harvested with some file of a licence. */
  function CratesUnder(harvest: seq<LicenceFile>, key: LicenceKey): set<Covered> {
    if harvest == [] then {}
    else
      (if harvest[0].name == key.name && harvest[0].id == key.id then set c | c in harvest[0].usedBy else {})
      + CratesUnder(harvest[1..], key)
  }

  lemma {:induction false} CratesUnderIff(harvest: seq<LicenceFile>, key: LicenceKey, c: Covered)
    ensures c in CratesUnder(harvest, key) <==> exists f | f in harvest :: KeyOf(f) == key && c in f.usedBy
  {
    if harvest != [] {
      CratesUnderIff(harvest[1..], key, c);
      assert harvest == [harvest[0]] + harvest[1..];
      assert harvest[0] in harvest;
    }
  }

  lemma CoveredIsUnder(harvest: seq<LicenceFile>, licence: LicenceNotices)
    requires licence in Merged(harvest)
    ensures CoveredBy(licence.notices) == CratesUnder(harvest, licence.key)
  {
    forall c ensures c in CoveredBy(licence.notices) <==> c in CratesUnder(harvest, licence.key) {
      CoveredAreDistinct(harvest, licence, c);
      CratesUnderIff(harvest, licence.key, c);
    }
  }

  predicate ByKey(a: LicenceNotices, b: LicenceNotices) { KeyBefore(a.key, b.key) }

  lemma MostCoveredIsPreorder()
    ensures TotalPreorder(MostCovered)
  {
    StringBeforeIsStrictTotal();
  }

  /**
   The licences come by how many distinct crates of the harvest each covers, most first; among as
   many by their ids, and under one id by their names.
   */
  lemma LicencesInOrder(harvest: seq<LicenceFile>, i: nat, j: nat)
    requires i < j < |Merged(harvest)|
    ensures var a, b := Merged(harvest)[i].key, Merged(harvest)[j].key;
            var m, n := |CratesUnder(harvest, a)|, |CratesUnder(harvest, b)|;
            m > n || (m == n && (StringPrecedes(a.id, b.id) || (a.id == b.id && StringPrecedes(a.name, b.name))))
  {
    var m := Gathered(harvest);
    LicencesHold(m, KeysOf(m));
    MostCoveredIsPreorder();
    SortedTies(MostCovered, ByKey, LicencesOf(m, KeysOf(m)));
    var a, b := Merged(harvest)[i], Merged(harvest)[j];
    CoveredIsUnder(harvest, a);
    CoveredIsUnder(harvest, b);
    StringBeforeIsStrictTotal();
    StringBeforeIff(a.key.id, b.key.id);
    StringBeforeIff(a.key.name, b.key.name);
  }
}
