/** What one changed path can reach: the table of path rules, and package ownership behind it. */
module PathRules {
  import opened Options
  import opened WorkspaceGraph

  datatype Impact = Inert | Every | OfPackage(name: string) | Spa | Unclassified

  /** A rule of the table has one of the first four verdicts. Directory prefixes end in a slash. */
  datatype Rule = Rule(prefix: string, verdict: Impact)

  const BUILD_DEFINITION: seq<Rule> := [
    Rule("deploy/docker/", Every),
    Rule("LICENSE", Every),
    Rule("THIRD-PARTY-NOTICES", Every),
    Rule(".dockerignore", Every),
    Rule(".cargo/", Every),
    Rule(".cargo/audit.toml", Inert),
    Rule(".cargo/mutants.toml", Inert),
    Rule("rust-toolchain.toml", Every)
  ]

  const WORKSPACE_INPUTS: seq<Rule> := [
    Rule("Cargo.toml", Every),
    Rule("Cargo.lock", Every),
    Rule("crates/config-contract/", Every),
    Rule("migrations/", OfPackage("tankovault-db")),
    Rule(".sqlx/", OfPackage("tankovault-db")),
    Rule("openapi.json", OfPackage("tankovault-api-client")),
    Rule("web/", Spa)
  ]

  const INERT_DIRECTORIES: seq<Rule> := [
    Rule("deploy/", Inert),
    Rule(".github/", Inert),
    Rule("docs/", Inert),
    Rule(".claude/", Inert),
    Rule(".junie/", Inert),
    Rule(".serena/", Inert),
    Rule("fuzz/", Inert),
    Rule("target/", Inert),
    Rule("mutants.out/", Inert),
    Rule("mutants.out.old/", Inert)
  ]

  const INERT_FILES: seq<Rule> := [
    Rule(".gitignore", Inert),
    Rule(".gitattributes", Inert),
    Rule("about.toml", Inert),
    Rule("deny.toml", Inert),
    Rule("clippy.toml", Inert),
    Rule("rustfmt.toml", Inert)
  ]

  const INERT_SETTINGS: seq<Rule> := [
    Rule("renovate.json", Inert),
    Rule("release-please-config.json", Inert),
    Rule(".release-please-manifest.json", Inert),
    Rule(".coderabbit.yaml", Inert),
    Rule(".gitleaksignore", Inert),
    Rule("justfile", Inert)
  ]

  const RULES: seq<Rule> := BUILD_DEFINITION + WORKSPACE_INPUTS + INERT_DIRECTORIES + INERT_FILES + INERT_SETTINGS

  const ROOT_MANIFEST := "Cargo.toml"
  const LOCKFILE := "Cargo.lock"
  const SPA_MANIFEST := "web/frontend/Cargo.toml"

  predicate Matches(rule: Rule, path: string) {
    if rule.prefix != [] && rule.prefix[|rule.prefix| - 1] == '/'
    then path == rule.prefix[..|rule.prefix| - 1] || rule.prefix <= path
    else path == rule.prefix
  }

  /** The longest of the first `n` entries that matches, the last of equals. */
  function LongestAmong(rules: seq<Rule>, path: string, n: nat): Option<Rule>
    requires n <= |rules|
    decreases n
  {
    if n == 0 then None
    else
      var best := LongestAmong(rules, path, n - 1);
      if Matches(rules[n - 1], path) && (best.None? || |rules[n - 1].prefix| >= |best.value.prefix|) then Some(rules[n - 1]) else best
  }

  function LongestRule(rules: seq<Rule>, path: string): Option<Rule> { LongestAmong(rules, path, |rules|) }

  lemma {:induction false} LongestAmongIs(rules: seq<Rule>, path: string, n: nat)
    requires n <= |rules|
    ensures var r := LongestAmong(rules, path, n);
      && (r.Some? ==> r.value in rules && Matches(r.value, path))
      && (forall i | 0 <= i < n && Matches(rules[i], path) :: r.Some? && |rules[i].prefix| <= |r.value.prefix|)
  {
    if n > 0 { LongestAmongIs(rules, path, n - 1); }
  }

  lemma LongestRuleIs(rules: seq<Rule>, path: string)
    ensures var r := LongestRule(rules, path);
      && (r.Some? ==> r.value in rules && Matches(r.value, path))
      && (forall e | e in rules && Matches(e, path) :: r.Some? && |e.prefix| <= |r.value.prefix|)
  {
    LongestAmongIs(rules, path, |rules|);
  }

  function LastIndex(s: string, c: char): (r: Option<nat>)
    ensures r.Some? ==> r.value < |s| && s[r.value] == c && c !in s[r.value + 1..]
    ensures r.None? ==> c !in s
  {
    if s == [] then None else if s[|s| - 1] == c then Some(|s| - 1) else LastIndex(s[..|s| - 1], c)
  }

  function FileName(path: string): string {
    match LastIndex(path, '/')
    case Some(i) => path[i + 1..]
    case None => path
  }

  /** Whether the file name has the extension `md`, in either case; a leading dot starts no extension. */
  predicate IsMarkdown(path: string) {
    var name := FileName(path);
    match LastIndex(name, '.')
    case Some(i) => i > 0 && |name| == i + 3 && name[i + 1] in {'m', 'M'} && name[i + 2] in {'d', 'D'}
    case None => false
  }

  /** The package whose directory holds the path, the longest directory first. */
  function Owner(packages: seq<Package>, path: string): Option<Package> {
    if packages == [] then None
    else
      var last := packages[|packages| - 1];
      var best := Owner(packages[..|packages| - 1], path);
      if last.dir != [] && last.dir + "/" <= path && (best.None? || |last.dir| >= |best.value.dir|) then Some(last) else best
  }

  lemma {:induction false} OwnerIs(packages: seq<Package>, path: string)
    ensures var r := Owner(packages, path);
      && (r.Some? ==> r.value in packages && r.value.dir != [] && r.value.dir + "/" <= path)
      && (forall p | p in packages && p.dir != [] && p.dir + "/" <= path :: r.Some? && |p.dir| <= |r.value.dir|)
  {
    if packages != [] {
      var front := packages[..|packages| - 1];
      OwnerIs(front, path);
      assert packages == front + [packages[|packages| - 1]];
    }
  }

  /** Classification by ownership, when neither a document nor a rule decides. */
  function ByOwner(packages: seq<Package>, path: string): Impact {
    match Owner(packages, path)
    case Some(package) => OfPackage(package.name)
    case None => Unclassified
  }

  function Classify(path: string, packages: seq<Package>): Impact {
    if IsMarkdown(path) then Inert
    else
      match LongestRule(RULES, path)
      case Some(rule) => rule.verdict
      case None => ByOwner(packages, path)
  }

  /** Whether a change with that impact reaches the image. */
  ghost predicate Touches(ws: Workspace, bin: string, impact: Impact) {
    match impact
    case Inert => false
    case Every => true
    case Unclassified => true
    case Spa => bin == FRONTEND
    case OfPackage(name) => BuiltFrom(ws, bin, name)
  }

  // ---------------------------------------------------------------------------------------
  // Documents, and manifests as their packages' own files
  // ---------------------------------------------------------------------------------------

  predicate EndsInMd(s: string) {
    |s| >= 3 && s[|s| - 3] == '.' && s[|s| - 2] in {'m', 'M'} && s[|s| - 1] in {'d', 'D'}
  }

  lemma FileNameIs(path: string)
    ensures |FileName(path)| <= |path| && FileName(path) == path[|path| - |FileName(path)|..] && '/' !in FileName(path)
    ensures |FileName(path)| < |path| ==> path[|path| - |FileName(path)| - 1] == '/'
  {}

  lemma LastDotIs(name: string)
    requires EndsInMd(name)
    ensures LastIndex(name, '.') == Some(|name| - 3)
  {
    assert name[..|name| - 1][..|name| - 2][|name| - 3] == '.';
  }

  /** A document is a name that ends in `.md`, in either case, with something in front of the dot. */
  lemma IsMarkdownIff(path: string)
    ensures IsMarkdown(path) <==> EndsInMd(path) && |path| >= 4 && path[|path| - 4] != '/'
  {
    var name := FileName(path);
    FileNameIs(path);
    if EndsInMd(path) && |path| >= 4 && path[|path| - 4] != '/' {
      assert |name| >= 4;
      LastDotIs(name);
    }
  }

  /** A path that does not end in a `d` is no document. */
  lemma NotMarkdown(path: string)
    requires path != [] && path[|path| - 1] !in {'d', 'D'}
    ensures !IsMarkdown(path)
  {
    var name := FileName(path);
    assert name == [] || name[|name| - 1] == path[|path| - 1];
  }

  function ManifestPath(dir: string): string { dir + "/Cargo.toml" }

  /** A package's own manifest belongs to it, unless a rule claims the path first. */
  lemma ManifestIsOwned(packages: seq<Package>, p: Package)
    requires p in packages && p.dir != []
    requires forall q | q in packages && q.dir == p.dir :: q == p
    ensures Owner(packages, ManifestPath(p.dir)) == Some(p)
  {
    var path := ManifestPath(p.dir);
    OwnerIs(packages, path);
    assert p.dir + "/" <= path by { assert path == (p.dir + "/") + "Cargo.toml"; }
    var r := Owner(packages, path).value;
    LongestDirectory(p.dir, r.dir);
  }

  /** No longer directory than its own holds a manifest. */
  lemma LongestDirectory(dir: string, other: string)
    requires other + "/" <= ManifestPath(dir) && |dir| <= |other|
    ensures other == dir
  {
    var path := ManifestPath(dir);
    assert path[|other|] == '/' by { assert (other + "/")[|other|] == '/'; }
    assert forall j | 0 < j < 11 :: "/Cargo.toml"[j] != '/';
    assert forall i | |dir| < i < |path| :: path[i] == "/Cargo.toml"[i - |dir|];
    assert other == path[..|other|] by { assert other == (other + "/")[..|other|]; }
    assert dir == path[..|dir|];
  }
}
