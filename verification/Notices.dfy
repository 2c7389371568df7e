/** A licence notice, the crates that shipped it, and the orders both are listed in. */
module Notices {
  import opened Ordering

  datatype Covered = Covered(name: string, version: string)

  /** A text of type `T` and the crates it was found with. */
  datatype Notice<T> = Notice(text: T, crates: seq<Covered>)

  predicate CrateBefore(a: Covered, b: Covered) {
    StringBefore(a.name, b.name) || (a.name == b.name && StringBefore(a.version, b.version))
  }

  predicate CratesBefore(a: seq<Covered>, b: seq<Covered>) { Before(CrateBefore, a, b) }

  /** More crates first; among as many, the lists of crates in order. */
  predicate MostUsedFirst<T>(a: Notice<T>, b: Notice<T>) {
    |a.crates| > |b.crates| || (|a.crates| == |b.crates| && !CratesBefore(b.crates, a.crates))
  }

  lemma CrateBeforeIsStrictTotal()
    ensures StrictTotal(CrateBefore)
  {
    StringBeforeIsStrictTotal();
  }

  lemma CratesBeforeIsStrictTotal()
    ensures StrictTotal(CratesBefore)
  {
    CrateBeforeIsStrictTotal();
    forall a { BeforeIsIrreflexive(CrateBefore, a); }
    forall a, b ensures a == b || CratesBefore(a, b) || CratesBefore(b, a) {
      BeforeIsTotal(CrateBefore, a, b);
    }
    forall a, b, c | CratesBefore(a, b) && CratesBefore(b, c) ensures CratesBefore(a, c) {
      BeforeIsTransitive(CrateBefore, a, b, c);
    }
  }

  lemma MostUsedFirstIsPreorder<T(!new)>()
    ensures TotalPreorder<Notice<T>>(MostUsedFirst)
  {
    CratesBeforeIsStrictTotal();
  }
}
