/**
 Grouping a licence's notices by the opening they share. One sort and one pass that compares each
 notice with the first of the group in front of it come to exact equivalence classes, because the
 length of a shared opening is an ultrametric and the sort lays every class out in one run.
 */
module NoticeClusters {
  import opened Ordering
  import opened Notices

  type Byte = b: int | 0 <= b < 256
  type Text = seq<Byte>
  type TextNotice = Notice<Text>

  const NEWLINE: Byte := 0x0A
  const MIN_SHARED_OPENING: nat := 1024
  const USIZE_MAX: nat := 0xFFFF_FFFF_FFFF_FFFF

  function Min(a: nat, b: nat): nat { if a <= b then a else b }

  /** Notices that open alike and the bytes of opening they share. */
  datatype Cluster = Cluster(opening: nat, notices: seq<TextNotice>)

  // ---------------------------------------------------------------------------------------
  // Shared openings
  // ---------------------------------------------------------------------------------------

  /** The length of the longest common prefix. */
  function Common(a: Text, b: Text): (k: nat)
    ensures k <= |a| && k <= |b|
  {
    if a == [] || b == [] || a[0] != b[0] then 0 else 1 + Common(a[1..], b[1..])
  }

  /** The offset just past the last newline, or 0. */
  function LastLineEnd(s: Text): (k: nat)
    ensures k <= |s|
  {
    if s == [] then 0 else if s[|s| - 1] == NEWLINE then |s| else LastLineEnd(s[..|s| - 1])
  }

  function SharedOpening(a: Text, b: Text): (k: nat)
    ensures k <= |a| && k <= |b|
  {
    LastLineEnd(a[..Common(a, b)])
  }

  /** A text that ends on a line boundary and that `a` begins with. */
  predicate Opens(w: Text, a: Text) {
    w <= a && (w == [] || w[|w| - 1] == 0x0A)
  }

  lemma {:induction false} CommonIsGreatest(a: Text, b: Text, w: Text)
    ensures a[..Common(a, b)] == b[..Common(a, b)]
    ensures w <= a && w <= b ==> |w| <= Common(a, b)
  {
    if a != [] && b != [] && a[0] == b[0] {
      if w != [] {
        CommonIsGreatest(a[1..], b[1..], w[1..]);
        assert w <= a ==> w[1..] <= a[1..];
        assert w <= b ==> w[1..] <= b[1..];
      } else {
        CommonIsGreatest(a[1..], b[1..], w);
      }
      var k := Common(a[1..], b[1..]);
      assert a[..1 + k] == [a[0]] + a[1..][..k];
      assert b[..1 + k] == [b[0]] + b[1..][..k];
    }
  }

  lemma {:induction false} LastLineEndIsGreatest(s: Text, w: Text)
    ensures Opens(s[..LastLineEnd(s)], s)
    ensures Opens(w, s) ==> |w| <= LastLineEnd(s)
  {
    if s != [] && s[|s| - 1] != NEWLINE {
      var t := s[..|s| - 1];
      LastLineEndIsGreatest(t, w);
      assert s[..LastLineEnd(s)] == t[..LastLineEnd(t)];
      assert Opens(w, s) ==> |w| < |s| && w == s[..|w|] == t[..|w|];
    } else {
      assert s[..|s|] == s;
    }
  }

  /** What `shared_opening` measures: the longest text of whole lines that opens both notices. */
  lemma SharedOpeningIsGreatest(a: Text, b: Text, w: Text)
    ensures Opens(a[..SharedOpening(a, b)], a) && Opens(a[..SharedOpening(a, b)], b)
    ensures Opens(w, a) && Opens(w, b) ==> |w| <= SharedOpening(a, b)
  {
    CommonIsGreatest(a, b, w);
    var n := Common(a, b);
    var k := SharedOpening(a, b);
    LastLineEndIsGreatest(a[..n], w);
    assert a[..n][..k] == a[..k] == b[..n][..k] == b[..k];
    if Opens(w, a) && Opens(w, b) {
      assert w == a[..|w|] == a[..n][..|w|];
    }
  }

  /** Two texts open alike when the opening is worth factoring out. */
  predicate Alike(a: Text, b: Text) { SharedOpening(a, b) >= MIN_SHARED_OPENING }

  /** The strong triangle law: two texts share at least what each shares with a third. */
  lemma Ultrametric(a: Text, b: Text, c: Text)
    ensures SharedOpening(a, c) >= SharedOpening(a, b) || SharedOpening(a, c) >= SharedOpening(b, c)
    ensures SharedOpening(a, b) == SharedOpening(b, a)
  {
    var v := a[..SharedOpening(a, b)];
    var w := b[..SharedOpening(b, c)];
    SharedOpeningIsGreatest(a, b, v);
    SharedOpeningIsGreatest(b, c, w);
    if |v| <= |w| {
      SharedOpeningIsGreatest(a, c, v);
    } else {
      SharedOpeningIsGreatest(a, c, w);
    }
    SharedOpeningIsGreatest(b, a, v);
    SharedOpeningIsGreatest(a, b, b[..SharedOpening(b, a)]);
  }

  lemma AlikeIsTransitive(a: Text, b: Text, c: Text)
    requires Alike(a, b) && Alike(b, c)
    ensures Alike(a, c)
  {
    Ultrametric(a, b, c);
  }

  // ---------------------------------------------------------------------------------------
  // The order of texts
  // ---------------------------------------------------------------------------------------

  predicate ByteBefore(a: Byte, b: Byte) { a < b }

  predicate TextBefore(a: Text, b: Text) { Before(ByteBefore, a, b) }

  predicate TextOrder(a: TextNotice, b: TextNotice) { !TextBefore(b.text, a.text) }

  lemma TextBeforeIsStrictTotal()
    ensures StrictTotal(TextBefore)
  {
    forall a { BeforeIsIrreflexive(ByteBefore, a); }
    forall a, b ensures a == b || TextBefore(a, b) || TextBefore(b, a) {
      BeforeIsTotal(ByteBefore, a, b);
    }
    forall a, b, c | TextBefore(a, b) && TextBefore(b, c) ensures TextBefore(a, c) {
      BeforeIsTransitive(ByteBefore, a, b, c);
    }
  }

  lemma TextOrderIsPreorder()
    ensures TotalPreorder(TextOrder)
  {
    TextBeforeIsStrictTotal();
  }

  /** A text in between two others begins with whatever both of them begin with. */
  lemma {:induction false} Between(w: Text, a: Text, b: Text, c: Text)
    requires !TextBefore(b, a) && !TextBefore(c, b)
    requires w <= a && w <= c
    ensures w <= b
  {
    if w != [] {
      assert b != [] && a[0] == c[0] == w[0];
      assert b[0] == w[0];
      Between(w[1..], a[1..], b[1..], c[1..]);
      assert w == [w[0]] + w[1..] && b == [b[0]] + b[1..];
    }
  }

  /** Across a gap in the order nothing is shared that the nearer text does not share. */
  lemma SharedShrinks(a: Text, b: Text, c: Text)
    requires !TextBefore(b, a) && !TextBefore(c, b)
    ensures SharedOpening(a, c) <= SharedOpening(a, b)
  {
    var w := a[..SharedOpening(a, c)];
    SharedOpeningIsGreatest(a, c, w);
    Between(w, a, b, c);
    SharedOpeningIsGreatest(a, b, w);
  }

  // ---------------------------------------------------------------------------------------
  // What a grouping must be
  // ---------------------------------------------------------------------------------------

  /** A text of whole lines that every notice begins with. */
  predicate OpensAll(w: Text, notices: seq<TextNotice>) {
    forall n | n in notices :: Opens(w, n.text)
  }

  ghost predicate LongestOpening(k: nat, notices: seq<TextNotice>) {
    && (forall n | n in notices :: k <= |n.text| && OpensAll(n.text[..k], notices))
    && (forall w | OpensAll(w, notices) :: |w| <= k)
  }

  predicate AllAlike(notices: seq<TextNotice>) {
    forall x, y | x in notices && y in notices :: Alike(x.text, y.text)
  }

  /** A group whose opening is right; a group of one has the opening `alone`. */
  ghost predicate Sound(c: Cluster, alone: nat) {
    if |c.notices| < 2 then c.notices != [] && c.opening == alone
    else c.opening >= MIN_SHARED_OPENING && LongestOpening(c.opening, c.notices) && AllAlike(c.notices)
  }

  /** No notice of one group opens like a notice of the other. */
  predicate Apart(p: Cluster, q: Cluster) {
    forall x, y | x in p.notices && y in q.notices :: !Alike(x.text, y.text)
  }

  function Members(clusters: seq<Cluster>): multiset<TextNotice> {
    if clusters == [] then multiset{} else multiset(clusters[0].notices) + Members(clusters[1..])
  }

  function ClusterCrates(notices: seq<TextNotice>): nat {
    if notices == [] then 0 else |notices[0].crates| + ClusterCrates(notices[1..])
  }

  function FirstCrates(c: Cluster): seq<Covered> {
    if c.notices == [] then [] else c.notices[0].crates
  }

  predicate MostUsedCluster(a: Cluster, b: Cluster) {
    || ClusterCrates(a.notices) > ClusterCrates(b.notices)
    || (ClusterCrates(a.notices) == ClusterCrates(b.notices) && !CratesBefore(FirstCrates(b), FirstCrates(a)))
  }

  // ---------------------------------------------------------------------------------------
  // The pass over the sorted notices
  // ---------------------------------------------------------------------------------------

  /** Every notice of one group comes at or before every notice of the other. */
  predicate RunsBefore(p: Cluster, q: Cluster) {
    forall x, y | x in p.notices && y in q.notices :: TextOrder(x, y)
  }

  /** A sound group of some of the notices `done`, in order. */
  ghost predicate Group(c: Cluster, done: seq<TextNotice>) {
    Sound(c, USIZE_MAX) && InOrder(TextOrder, c.notices) && forall x | x in c.notices :: x in done
  }

  /** The groups after the notices `done`. */
  ghost predicate Grouping(clusters: seq<Cluster>, done: seq<TextNotice>) {
    && Members(clusters) == multiset(done)
    && (forall c | c in clusters :: Group(c, done))
    && InOrder(Apart, clusters)
    && InOrder(RunsBefore, clusters)
  }

  lemma {:induction false} MembersAppend(a: seq<Cluster>, b: seq<Cluster>)
    ensures Members(a + b) == Members(a) + Members(b)
  {
    if a == [] {
      assert a + b == b;
    } else {
      assert (a + b)[1..] == a[1..] + b;
      MembersAppend(a[1..], b);
    }
  }

  /** A notice that does not open like the first of the last group opens like no earlier one. */
  lemma ApartFromEarlier(p: Cluster, q: Cluster, n: TextNotice)
    requires q.notices != [] && Apart(p, q) && RunsBefore(p, q)
    requires TextOrder(q.notices[0], n)
    ensures forall x | x in p.notices :: !Alike(x.text, n.text)
  {
    forall x | x in p.notices ensures !Alike(x.text, n.text) {
      assert q.notices[0] in q.notices;
      SharedShrinks(x.text, q.notices[0].text, n.text);
    }
  }

  lemma ApartFromLast(q: Cluster, n: TextNotice)
    requires Sound(q, USIZE_MAX) && !Alike(q.notices[0].text, n.text)
    ensures forall x | x in q.notices :: !Alike(x.text, n.text)
  {
    forall x | x in q.notices ensures !Alike(x.text, n.text) {
      if |q.notices| >= 2 && Alike(x.text, n.text) {
        assert q.notices[0] in q.notices;
        AlikeIsTransitive(q.notices[0].text, x.text, n.text);
      }
    }
  }

  /** The part of soundness that speaks of the opening itself. */
  predicate HasOpening(q: Cluster) {
    && q.notices != []
    && if |q.notices| < 2 then q.opening == USIZE_MAX
       else q.opening <= |q.notices[0].text| && OpensAll(q.notices[0].text[..q.opening], q.notices)
  }

  /** The running minimum cuts on a line boundary that the whole group shares. */
  lemma JoinedOpening(q: Cluster, n: TextNotice, k: nat)
    requires HasOpening(q) && |q.notices[0].text| <= USIZE_MAX
    requires k == Min(q.opening, SharedOpening(q.notices[0].text, n.text))
    ensures k <= |q.notices[0].text| && OpensAll(q.notices[0].text[..k], q.notices + [n])
  {
    var f := q.notices[0].text;
    var v := f[..SharedOpening(f, n.text)];
    SharedOpeningIsGreatest(f, n.text, v);
    assert f[..k] == v[..k];
    if |q.notices| >= 2 {
      var u := f[..q.opening];
      assert q.notices[0] in q.notices && Opens(u, f);
      assert f[..k] == u[..k];
      assert forall x | x in q.notices :: Opens(u, x.text) && Opens(f[..k], x.text);
    }
  }

  /** The running minimum is the opening of the whole group. */
  lemma JoinedIsLongest(q: Cluster, n: TextNotice, k: nat)
    requires Sound(q, USIZE_MAX) && |q.notices[0].text| <= USIZE_MAX
    requires k == Min(q.opening, SharedOpening(q.notices[0].text, n.text))
    ensures LongestOpening(k, q.notices + [n])
  {
    var f := q.notices[0];
    var all := q.notices + [n];
    JoinedOpening(q, n, k);
    forall x | x in all ensures k <= |x.text| && OpensAll(x.text[..k], all) {
      assert Opens(f.text[..k], x.text);
      assert x.text[..k] == f.text[..k];
    }
    forall v | OpensAll(v, all) ensures |v| <= k {
      assert f in all && n in all;
      SharedOpeningIsGreatest(f.text, n.text, v);
      assert OpensAll(v, q.notices);
    }
  }

  lemma JoinedIsSound(q: Cluster, n: TextNotice, k: nat)
    requires Sound(q, USIZE_MAX) && |q.notices[0].text| <= USIZE_MAX
    requires k == Min(q.opening, SharedOpening(q.notices[0].text, n.text)) >= MIN_SHARED_OPENING
    ensures Sound(Cluster(k, q.notices + [n]), USIZE_MAX)
  {
    var all := q.notices + [n];
    JoinedIsLongest(q, n, k);
    JoinedOpening(q, n, k);
    forall x, y | x in all && y in all ensures Alike(x.text, y.text) {
      SharedOpeningIsGreatest(x.text, y.text, q.notices[0].text[..k]);
    }
  }

  /** The first notice of the last group, when there is one, shares too little with `n` to join it. */
  predicate StandsAlone(clusters: seq<Cluster>, n: TextNotice) {
    clusters == [] || clusters[|clusters| - 1].notices == []
    || !Alike(clusters[|clusters| - 1].notices[0].text, n.text)
  }

  /** The groups when `n` comes next: it begins a group of its own. */
  function Begun(clusters: seq<Cluster>, n: TextNotice): seq<Cluster> {
    clusters + [Cluster(USIZE_MAX, [n])]
  }

  /** The groups when `n` comes next: it joins the last one, which then shares `k` bytes. */
  function Joined(clusters: seq<Cluster>, n: TextNotice, k: nat): seq<Cluster>
    requires clusters != []
  {
    var last := clusters[|clusters| - 1];
    clusters[..|clusters| - 1] + [Cluster(k, last.notices + [n])]
  }

  ghost predicate ComesAfter(n: TextNotice, done: seq<TextNotice>) {
    forall x | x in done :: TextOrder(x, n)
  }

  lemma EarlierIsApart(clusters: seq<Cluster>, done: seq<TextNotice>, n: TextNotice, p: Cluster)
    requires Grouping(clusters, done) && ComesAfter(n, done)
    requires clusters != [] && p in clusters[..|clusters| - 1]
    ensures forall x | x in p.notices :: !Alike(x.text, n.text)
  {
    var last := clusters[|clusters| - 1];
    assert last in clusters && Group(last, done);
    assert last.notices[0] in last.notices;
    ApartFromEarlier(p, last, n);
  }

  lemma OneMoreGroup(earlier: seq<Cluster>, c: Cluster)
    ensures Members(earlier + [c]) == Members(earlier) + multiset(c.notices)
  {
    MembersAppend(earlier, [c]);
    assert Members([c]) == multiset(c.notices);
  }

  lemma Extended(earlier: seq<Cluster>, c: Cluster, done: seq<TextNotice>, n: TextNotice)
    requires InOrder(Apart, earlier) && InOrder(RunsBefore, earlier)
    requires forall p | p in earlier :: Group(p, done) && Apart(p, c) && RunsBefore(p, c)
    requires Group(c, done + [n])
    requires Members(earlier) + multiset(c.notices) == multiset(done) + multiset{n}
    ensures Grouping(earlier + [c], done + [n])
  {
    OneMoreGroup(earlier, c);
    forall x | x in earlier + [c] ensures Group(x, done + [n]) {
      if x != c { assert Group(x, done); }
    }
    AppendedInOrder(Apart, earlier, c);
    AppendedInOrder(RunsBefore, earlier, c);
  }

  lemma BegunIsGrouping(clusters: seq<Cluster>, done: seq<TextNotice>, n: TextNotice)
    requires Grouping(clusters, done) && ComesAfter(n, done) && StandsAlone(clusters, n)
    ensures Grouping(Begun(clusters, n), done + [n])
  {
    var alone := Cluster(USIZE_MAX, [n]);
    TextBeforeIsStrictTotal();
    forall c | c in clusters ensures Group(c, done) && Apart(c, alone) && RunsBefore(c, alone) {
      var last := clusters[|clusters| - 1];
      assert last in clusters && Group(last, done);
      if c == last {
        ApartFromLast(last, n);
      } else {
        assert c in clusters[..|clusters| - 1];
        EarlierIsApart(clusters, done, n, c);
      }
    }
    Extended(clusters, alone, done, n);
  }

  lemma GrownIsGroup(last: Cluster, done: seq<TextNotice>, n: TextNotice, k: nat)
    requires Group(last, done) && ComesAfter(n, done) && |last.notices[0].text| <= USIZE_MAX
    requires k == Min(last.opening, SharedOpening(last.notices[0].text, n.text)) >= MIN_SHARED_OPENING
    ensures Group(Cluster(k, last.notices + [n]), done + [n])
  {
    JoinedIsSound(last, n, k);
    forall i | 0 <= i < |last.notices| ensures TextOrder(last.notices[i], n) {
      assert last.notices[i] in last.notices;
    }
    AppendedInOrder(TextOrder, last.notices, n);
  }

  lemma GrownIsApart(clusters: seq<Cluster>, done: seq<TextNotice>, n: TextNotice, p: Cluster, k: nat)
    requires Grouping(clusters, done) && ComesAfter(n, done)
    requires clusters != [] && p in clusters[..|clusters| - 1]
    ensures Group(p, done)
    ensures Apart(p, Cluster(k, clusters[|clusters| - 1].notices + [n]))
    ensures RunsBefore(p, Cluster(k, clusters[|clusters| - 1].notices + [n]))
  {
    var last := clusters[|clusters| - 1];
    assert p in clusters;
    assert Apart(p, last) && RunsBefore(p, last);
    EarlierIsApart(clusters, done, n, p);
  }

  lemma AllGrownApart(clusters: seq<Cluster>, done: seq<TextNotice>, n: TextNotice, k: nat, earlier: seq<Cluster>, grown: Cluster)
    requires Grouping(clusters, done) && ComesAfter(n, done) && clusters != []
    requires earlier == clusters[..|clusters| - 1] && grown == Cluster(k, clusters[|clusters| - 1].notices + [n])
    ensures forall p | p in earlier :: Group(p, done) && Apart(p, grown) && RunsBefore(p, grown)
  {
    forall p | p in earlier ensures Group(p, done) && Apart(p, grown) && RunsBefore(p, grown) {
      GrownIsApart(clusters, done, n, p, k);
    }
  }

  lemma AllButLast(clusters: seq<Cluster>, done: seq<TextNotice>, earlier: seq<Cluster>, last: Cluster, n: TextNotice)
    requires Grouping(clusters, done) && clusters == earlier + [last]
    ensures Members(earlier) + multiset(last.notices + [n]) == multiset(done) + multiset{n}
    ensures InOrder(Apart, earlier) && InOrder(RunsBefore, earlier)
    ensures Group(last, done)
  {
    OneMoreGroup(earlier, last);
    assert last in clusters;
    assert forall i | 0 <= i < |earlier| :: earlier[i] == clusters[i];
  }

  lemma JoinedIsGrouping(clusters: seq<Cluster>, done: seq<TextNotice>, n: TextNotice, k: nat, last: Cluster)
    requires Grouping(clusters, done) && ComesAfter(n, done)
    requires clusters != [] && last == clusters[|clusters| - 1]
    requires last.notices != [] && |last.notices[0].text| <= USIZE_MAX
    requires k == Min(last.opening, SharedOpening(last.notices[0].text, n.text)) >= MIN_SHARED_OPENING
    ensures Grouping(Joined(clusters, n, k), done + [n])
  {
    var earlier := clusters[..|clusters| - 1];
    var grown := Cluster(k, last.notices + [n]);
    assert clusters == earlier + [last];
    AllButLast(clusters, done, earlier, last, n);
    GrownIsGroup(last, done, n, k);
    AllGrownApart(clusters, done, n, k, earlier, grown);
    assert Joined(clusters, n, k) == earlier + [grown];
    Extended(earlier, grown, done, n);
  }

  // ---------------------------------------------------------------------------------------
  // The final order
  // ---------------------------------------------------------------------------------------

  /** A group as it is kept: a notice on its own is printed whole, and the most used comes first. */
  function Settled(c: Cluster): Cluster {
    Cluster(if |c.notices| < 2 then 0 else c.opening, Sorted(MostUsedFirst, c.notices))
  }

  function AllSettled(clusters: seq<Cluster>): seq<Cluster> {
    seq(|clusters|, i requires 0 <= i < |clusters| => Settled(clusters[i]))
  }

  lemma SettledIsSound(c: Cluster)
    requires Sound(c, USIZE_MAX) && InOrder(TextOrder, c.notices)
    ensures Sound(Settled(c), 0)
    ensures InOrderWithTies(MostUsedFirst, TextOrder, Settled(c).notices)
  {
    SortedHasSame(MostUsedFirst<Text>, c.notices);
    MostUsedFirstIsPreorder<Text>();
    SortedTies(MostUsedFirst<Text>, TextOrder, c.notices);
    assert forall w :: OpensAll(w, Settled(c).notices) <==> OpensAll(w, c.notices);
  }

  lemma {:induction false} AllSettledHolds(clusters: seq<Cluster>)
    ensures Members(AllSettled(clusters)) == Members(clusters)
  {
    if clusters != [] {
      AllSettledHolds(clusters[1..]);
      assert AllSettled(clusters)[1..] == AllSettled(clusters[1..]);
      SortedIsPermutation(MostUsedFirst<Text>, clusters[0].notices);
    }
  }

  lemma {:induction false} SortingKeepsMembers(le: (Cluster, Cluster) -> bool, clusters: seq<Cluster>)
    ensures Members(Sorted(le, clusters)) == Members(clusters)
  {
    if clusters != [] {
      SortingKeepsMembers(le, clusters[1..]);
      InsertingKeepsMembers(le, clusters[0], Sorted(le, clusters[1..]));
    }
  }

  lemma {:induction false} InsertingKeepsMembers(le: (Cluster, Cluster) -> bool, c: Cluster, clusters: seq<Cluster>)
    ensures Members(Inserted(le, c, clusters)) == multiset(c.notices) + Members(clusters)
  {
    if clusters == [] || le(c, clusters[0]) {
      assert ([c] + clusters)[1..] == clusters;
    } else {
      InsertingKeepsMembers(le, c, clusters[1..]);
    }
  }

  lemma MostUsedClusterIsPreorder()
    ensures TotalPreorder(MostUsedCluster)
  {
    CratesBeforeIsStrictTotal();
  }

  /** What `cluster` gives back for a licence's notices: what the orders tie stays in the order of the texts. */
  ghost predicate Clusters(clusters: seq<Cluster>, notices: seq<TextNotice>) {
    && Members(clusters) == multiset(notices)
    && (forall c | c in clusters :: Sound(c, 0) && InOrderWithTies(MostUsedFirst, TextOrder, c.notices))
    && InOrder(Apart, clusters)
    && InOrderWithTies(MostUsedCluster, RunsBefore, clusters)
  }

  lemma SettledIsClusters(groups: seq<Cluster>, notices: seq<TextNotice>, sorted: seq<TextNotice>)
    requires Grouping(groups, sorted) && multiset(sorted) == multiset(notices)
    ensures Clusters(Sorted(MostUsedCluster, AllSettled(groups)), notices)
  {
    var settled := AllSettled(groups);
    AllSettledHolds(groups);
    SortingKeepsMembers(MostUsedCluster, settled);
    SortedHasSame(MostUsedCluster, settled);
    MostUsedClusterIsPreorder();
    SettledRunBefore(groups);
    SortedTies(MostUsedCluster, RunsBefore, settled);
    forall i | 0 <= i < |groups| ensures Sound(settled[i], 0) && InOrderWithTies(MostUsedFirst, TextOrder, settled[i].notices) {
      assert groups[i] in groups;
      SettledIsSound(groups[i]);
    }
    SettledIsApart(groups);
    SharedIsSymmetric();
    SortedKeepsPairs(MostUsedCluster, Apart, settled);
  }

  lemma SharedIsSymmetric()
    ensures forall a, b :: Alike(a, b) == Alike(b, a)
  {
    forall a, b ensures Alike(a, b) == Alike(b, a) {
      Ultrametric(a, b, b);
    }
  }

  lemma SettledHoldSame(groups: seq<Cluster>)
    ensures forall i, x | 0 <= i < |groups| :: x in AllSettled(groups)[i].notices <==> x in groups[i].notices
  {
    forall i | 0 <= i < |groups| ensures forall x :: x in AllSettled(groups)[i].notices <==> x in groups[i].notices {
      SortedHasSame(MostUsedFirst<Text>, groups[i].notices);
    }
  }

  lemma SettledIsApart(groups: seq<Cluster>)
    requires InOrder(Apart, groups)
    ensures InOrder(Apart, AllSettled(groups))
  {
    SettledHoldSame(groups);
  }

  lemma SettledRunBefore(groups: seq<Cluster>)
    requires InOrder(RunsBefore, groups)
    ensures InOrder(RunsBefore, AllSettled(groups))
  {
    SettledHoldSame(groups);
  }

  method GroupSorted(sorted: seq<TextNotice>) returns (clusters: seq<Cluster>)
    requires InOrder(TextOrder, sorted)
    requires forall n | n in sorted :: |n.text| <= USIZE_MAX
    ensures Grouping(clusters, sorted)
  {
    clusters := [];
    for i := 0 to |sorted|
      invariant Grouping(clusters, sorted[..i])
    {
      var n := sorted[i];
      assert sorted[..i + 1] == sorted[..i] + [n];
      assert ComesAfter(n, sorted[..i]);
      var joins := false;
      var opening: nat := 0;
      if clusters != [] {
        var last := clusters[|clusters| - 1];
        LastIsGroup(clusters, sorted[..i]);
        opening := Min(last.opening, SharedOpening(last.notices[0].text, n.text));
        joins := opening >= MIN_SHARED_OPENING;
      }
      if joins {
        var last := clusters[|clusters| - 1];
        JoinedIsGrouping(clusters, sorted[..i], n, opening, last);
        clusters := clusters[..|clusters| - 1] + [Cluster(opening, last.notices + [n])];
      } else {
        BegunIsGrouping(clusters, sorted[..i], n);
        clusters := clusters + [Cluster(USIZE_MAX, [n])];
      }
    }
    assert sorted[..|sorted|] == sorted;
  }

  lemma LastIsGroup(clusters: seq<Cluster>, done: seq<TextNotice>)
    requires Grouping(clusters, done) && clusters != []
    ensures Group(clusters[|clusters| - 1], done)
    ensures clusters[|clusters| - 1].notices != [] && clusters[|clusters| - 1].notices[0] in done
    ensures clusters[|clusters| - 1].opening >= MIN_SHARED_OPENING
  {
    assert clusters[|clusters| - 1] in clusters;
  }

  method ClusterNotices(notices: seq<TextNotice>) returns (clusters: seq<Cluster>)
    requires forall n | n in notices :: |n.text| <= USIZE_MAX
    ensures Clusters(clusters, notices)
  {
    var sorted := Sorted(TextOrder, notices);
    SortedIsPermutation(TextOrder, notices);
    SortedHasSame(TextOrder, notices);
    TextOrderIsPreorder();
    SortedIsInOrder(TextOrder, notices);
    clusters := GroupSorted(sorted);
    SettledIsClusters(clusters, notices, sorted);
    ghost var groups := clusters;
    for i := 0 to |clusters|
      invariant |clusters| == |groups|
      invariant forall j | 0 <= j < i :: clusters[j] == Settled(groups[j])
      invariant forall j | i <= j < |groups| :: clusters[j] == groups[j]
    {
      var c := clusters[i];
      var opening := if |c.notices| < 2 then 0 else c.opening;
      clusters := clusters[i := Cluster(opening, Sorted(MostUsedFirst, c.notices))];
    }
    assert clusters == AllSettled(groups);
    clusters := Sorted(MostUsedCluster, clusters);
  }

  // ---------------------------------------------------------------------------------------
  // What the document relies on
  // ---------------------------------------------------------------------------------------

  lemma TogetherIsAlike(c: Cluster, i: nat, j: nat)
    requires Sound(c, 0) && i < |c.notices| && j < |c.notices| && i != j
    ensures Alike(c.notices[i].text, c.notices[j].text)
  {
    assert c.notices[i] in c.notices && c.notices[j] in c.notices;
  }

  /**
   Greedy clustering is exact: two notices, each at its own place in the document, are in one group
   if and only if they share an opening worth factoring out.
   */
  lemma ClusteringIsExact(clusters: seq<Cluster>, notices: seq<TextNotice>, p: nat, i: nat, q: nat, j: nat)
    requires Clusters(clusters, notices)
    requires p < |clusters| && i < |clusters[p].notices| && q < |clusters| && j < |clusters[q].notices|
    requires (p, i) != (q, j)
    ensures p == q <==> SharedOpening(clusters[p].notices[i].text, clusters[q].notices[j].text) >= 1024
  {
    var x, y := clusters[p].notices[i], clusters[q].notices[j];
    if p == q {
      assert clusters[p] in clusters && Sound(clusters[p], 0);
      TogetherIsAlike(clusters[p], i, j);
    } else if p < q {
      assert Apart(clusters[p], clusters[q]);
    } else {
      assert Apart(clusters[q], clusters[p]);
      Ultrametric(x.text, y.text, y.text);
    }
  }

  /** The opening as it is printed, once, off whichever notice the group now lists first. */
  function Opening(c: Cluster): Text
    requires c.notices != [] && c.opening <= |c.notices[0].text|
  {
    c.notices[0].text[..c.opening]
  }

  lemma OpensSplits(w: Text, a: Text)
    requires Opens(w, a)
    ensures |w| <= |a| && w + a[|w|..] == a
  {}

  lemma OpeningOpens(c: Cluster)
    requires Sound(c, 0)
    ensures c.opening <= |c.notices[0].text| && OpensAll(Opening(c), c.notices)
  {
    assert c.notices[0] in c.notices;
  }

  lemma OpeningIsLongest(c: Cluster, w: Text)
    requires Sound(c, 0) && |c.notices| >= 2 && c.opening <= |c.notices[0].text|
    requires OpensAll(w, c.notices)
    ensures w <= Opening(c)
  {
    assert Opens(w, c.notices[0].text) && |w| <= c.opening;
  }

  /**
   The split loses nothing: the printed opening followed by a notice's own block is that notice's
   text, and no longer run of whole lines is common to the group.
   */
  lemma SplitIsLossless(clusters: seq<Cluster>, notices: seq<TextNotice>, c: Cluster, n: TextNotice, w: Text)
    requires Clusters(clusters, notices) && c in clusters && n in c.notices
    ensures c.opening <= |c.notices[0].text| && c.opening <= |n.text|
    ensures Opening(c) + n.text[c.opening..] == n.text
    ensures |c.notices| >= 2 && OpensAll(w, c.notices) ==> w <= Opening(c)
    ensures c.opening > 0 <==> |c.notices| >= 2
  {
    OpeningOpens(c);
    OpensSplits(Opening(c), n.text);
    if |c.notices| >= 2 && OpensAll(w, c.notices) { OpeningIsLongest(c, w); }
  }
}
