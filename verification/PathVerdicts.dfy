/**
 What the table of path rules comes to, path by path: the longest entry that matches gives each path
 the verdict its directory or file is listed under here, with no order to it and two exceptions.
 */
module PathVerdicts {
  import opened Options
  import opened WorkspaceGraph
  import opened PathRules

  const DB_PACKAGE := "tankovault-db"
  const CLIENT_PACKAGE := "tankovault-api-client"

  const EVERY_DIRECTORIES := ["deploy/docker", ".cargo", "crates/config-contract"]
  const EVERY_FILES := ["LICENSE", "THIRD-PARTY-NOTICES", ".dockerignore", "rust-toolchain.toml", "Cargo.toml", "Cargo.lock"]
  const DB_DIRECTORIES := ["migrations", ".sqlx"]
  const SPA_DIRECTORIES := ["web"]
  const NO_IMAGE_DIRECTORIES := [
    "deploy", ".github", "docs", ".claude", ".junie", ".serena", "fuzz", "target", "mutants.out", "mutants.out.old"
  ]
  const NO_IMAGE_FILES := [
    ".cargo/audit.toml", ".cargo/mutants.toml", ".gitignore", ".gitattributes", "about.toml", "deny.toml", "clippy.toml",
    "rustfmt.toml", "renovate.json", "release-please-config.json", ".release-please-manifest.json", ".coderabbit.yaml",
    ".gitleaksignore", "justfile"
  ]

  /** The two gates' settings among what every build reads. */
  const GATE_SETTINGS := [".cargo/audit.toml", ".cargo/mutants.toml"]

  predicate At(path: string, dir: string) { path == dir || dir + "/" <= path }

  predicate Among(path: string, directories: seq<string>, files: seq<string>) {
    path in files || exists i | 0 <= i < |directories| :: At(path, directories[i])
  }

  function DirectoriesFor(v: Impact): seq<string> {
    match v
    case Every => EVERY_DIRECTORIES
    case OfPackage(name) => if name == DB_PACKAGE then DB_DIRECTORIES else []
    case Spa => SPA_DIRECTORIES
    case Inert => NO_IMAGE_DIRECTORIES
    case Unclassified => []
  }

  function FilesFor(v: Impact): seq<string> {
    match v
    case Every => EVERY_FILES
    case OfPackage(name) => if name == CLIENT_PACKAGE then ["openapi.json"] else []
    case Spa => []
    case Inert => NO_IMAGE_FILES
    case Unclassified => []
  }

  /** What the table means for a path. */
  predicate Ruled(path: string, v: Impact) {
    && Among(path, DirectoriesFor(v), FilesFor(v))
    && (v == Every ==> path !in GATE_SETTINGS)
    && (v == Inert ==> !At(path, "deploy/docker"))
  }

  // ---------------------------------------------------------------------------------------
  // The entries are those listed
  // ---------------------------------------------------------------------------------------

  predicate Lists(rule: Rule, directories: seq<string>, files: seq<string>) {
    || (rule.prefix in files && rule.prefix != [] && rule.prefix[|rule.prefix| - 1] != '/')
    || exists i | 0 <= i < |directories| :: rule.prefix == directories[i] + "/"
  }

  predicate InGroup(e: Rule) {
    e in BUILD_DEFINITION || e in WORKSPACE_INPUTS || e in INERT_DIRECTORIES || e in INERT_FILES || e in INERT_SETTINGS
  }

  lemma InGroupIff(e: Rule)
    ensures e in RULES <==> InGroup(e)
  {}

  lemma BuildLists(e: Rule)
    requires e in BUILD_DEFINITION
    ensures Lists(e, DirectoriesFor(e.verdict), FilesFor(e.verdict))
  {
    assert EVERY_DIRECTORIES[0] + "/" == "deploy/docker/";
    assert EVERY_DIRECTORIES[1] + "/" == ".cargo/";
  }

  lemma InputsList(e: Rule)
    requires e in WORKSPACE_INPUTS
    ensures Lists(e, DirectoriesFor(e.verdict), FilesFor(e.verdict))
  {
    assert EVERY_DIRECTORIES[2] + "/" == "crates/config-contract/";
    assert DB_DIRECTORIES[0] + "/" == "migrations/";
    assert DB_DIRECTORIES[1] + "/" == ".sqlx/";
    assert SPA_DIRECTORIES[0] + "/" == "web/";
  }

  lemma DirectoriesList(e: Rule)
    requires e in INERT_DIRECTORIES
    ensures Lists(e, NO_IMAGE_DIRECTORIES, NO_IMAGE_FILES) && e.verdict == Inert
  {
    var i :| 0 <= i < |INERT_DIRECTORIES| && INERT_DIRECTORIES[i] == e;
    assert e.prefix == NO_IMAGE_DIRECTORIES[i] + "/";
  }

  lemma FilesList(e: Rule)
    requires e in INERT_FILES || e in INERT_SETTINGS
    ensures e.prefix in NO_IMAGE_FILES && e.prefix != [] && e.prefix[|e.prefix| - 1] != '/' && e.verdict == Inert
  {
  }

  lemma MatchedIsAmong(e: Rule, path: string)
    requires e in RULES && Matches(e, path)
    ensures Among(path, DirectoriesFor(e.verdict), FilesFor(e.verdict))
  {
    InGroupIff(e);
    if e in BUILD_DEFINITION {
      BuildLists(e);
    } else if e in WORKSPACE_INPUTS {
      InputsList(e);
    } else if e in INERT_DIRECTORIES {
      DirectoriesList(e);
    } else {
      FilesList(e);
    }
    ListedIsAmong(e, path, DirectoriesFor(e.verdict), FilesFor(e.verdict));
  }

  lemma ListedIsAmong(rule: Rule, path: string, directories: seq<string>, files: seq<string>)
    requires Lists(rule, directories, files) && Matches(rule, path)
    ensures Among(path, directories, files)
  {
    if i :| 0 <= i < |directories| && rule.prefix == directories[i] + "/" {
      assert rule.prefix[..|rule.prefix| - 1] == directories[i];
      assert At(path, directories[i]);
    }
  }

  lemma EveryDirectoriesListed(i: nat)
    requires i < |EVERY_DIRECTORIES|
    ensures InGroup(Rule(EVERY_DIRECTORIES[i] + "/", Every))
  {
    assert EVERY_DIRECTORIES[0] + "/" == BUILD_DEFINITION[0].prefix;
    assert EVERY_DIRECTORIES[1] + "/" == BUILD_DEFINITION[4].prefix;
    assert EVERY_DIRECTORIES[2] + "/" == WORKSPACE_INPUTS[2].prefix;
  }

  lemma EveryFilesListed(i: nat)
    requires i < |EVERY_FILES|
    ensures InGroup(Rule(EVERY_FILES[i], Every))
    ensures EVERY_FILES[i] != [] && EVERY_FILES[i][|EVERY_FILES[i]| - 1] != '/'
  {
    if i < 3 {
      assert BUILD_DEFINITION[1 + i] == Rule(EVERY_FILES[i], Every);
    } else if i == 3 {
      assert BUILD_DEFINITION[7] == Rule(EVERY_FILES[i], Every);
    } else {
      assert WORKSPACE_INPUTS[i - 4] == Rule(EVERY_FILES[i], Every);
    }
  }

  lemma InputsListed(i: nat)
    ensures i < |DB_DIRECTORIES| ==> InGroup(Rule(DB_DIRECTORIES[i] + "/", OfPackage(DB_PACKAGE)))
    ensures InGroup(Rule("openapi.json", OfPackage(CLIENT_PACKAGE)))
    ensures i < |SPA_DIRECTORIES| ==> InGroup(Rule(SPA_DIRECTORIES[i] + "/", Spa))
  {
    assert DB_DIRECTORIES[0] + "/" == WORKSPACE_INPUTS[3].prefix;
    assert DB_DIRECTORIES[1] + "/" == WORKSPACE_INPUTS[4].prefix;
    assert WORKSPACE_INPUTS[5] in WORKSPACE_INPUTS;
    assert SPA_DIRECTORIES[0] + "/" == WORKSPACE_INPUTS[6].prefix;
  }

  lemma NoImageDirectoriesListed(i: nat)
    requires i < |NO_IMAGE_DIRECTORIES|
    ensures InGroup(Rule(NO_IMAGE_DIRECTORIES[i] + "/", Inert))
  {
    assert NO_IMAGE_DIRECTORIES[i] + "/" == INERT_DIRECTORIES[i].prefix;
    assert INERT_DIRECTORIES[i].verdict == Inert;
  }

  lemma NoImageFilesListed(i: nat)
    requires i < |NO_IMAGE_FILES|
    ensures InGroup(Rule(NO_IMAGE_FILES[i], Inert))
    ensures NO_IMAGE_FILES[i] != [] && NO_IMAGE_FILES[i][|NO_IMAGE_FILES[i]| - 1] != '/'
  {
    if i < 2 {
      assert BUILD_DEFINITION[5 + i] == Rule(NO_IMAGE_FILES[i], Inert);
    } else if i < 8 {
      assert INERT_FILES[i - 2] == Rule(NO_IMAGE_FILES[i], Inert);
    } else {
      assert INERT_SETTINGS[i - 8] == Rule(NO_IMAGE_FILES[i], Inert);
    }
  }

  lemma DirectoryMatches(path: string, dir: string, v: Impact)
    requires At(path, dir)
    ensures Matches(Rule(dir + "/", v), path)
  {
    assert (dir + "/")[..|dir|] == dir;
  }

  lemma DirectoryIsListed(v: Impact, i: nat)
    requires i < |DirectoriesFor(v)|
    ensures InGroup(Rule(DirectoriesFor(v)[i] + "/", v))
  {
    match v
    case Every => EveryDirectoriesListed(i);
    case Inert => NoImageDirectoriesListed(i);
    case _ => InputsListed(i);
  }

  lemma FileIsListed(v: Impact, i: nat)
    requires i < |FilesFor(v)|
    ensures InGroup(Rule(FilesFor(v)[i], v)) && FilesFor(v)[i] != [] && FilesFor(v)[i][|FilesFor(v)[i]| - 1] != '/'
  {
    match v
    case Every => EveryFilesListed(i);
    case Inert => NoImageFilesListed(i);
    case _ => InputsListed(i);
  }

  lemma AmongIsMatched(path: string, v: Impact) returns (e: Rule)
    requires Among(path, DirectoriesFor(v), FilesFor(v))
    ensures e in RULES && Matches(e, path) && e.verdict == v
  {
    if i :| 0 <= i < |FilesFor(v)| && FilesFor(v)[i] == path {
      e := Rule(path, v);
      FileIsListed(v, i);
    } else {
      var i :| 0 <= i < |DirectoriesFor(v)| && At(path, DirectoriesFor(v)[i]);
      e := Rule(DirectoriesFor(v)[i] + "/", v);
      DirectoryIsListed(v, i);
      DirectoryMatches(path, DirectoriesFor(v)[i], v);
    }
    InGroupIff(e);
  }

  // ---------------------------------------------------------------------------------------
  // No two entries quarrel, but for the exceptions
  // ---------------------------------------------------------------------------------------

  /** How a prefix begins that stands for no image, as far as it takes to tell it from the others. */
  predicate BeginsInert(s: string)
    requires |s| >= 4
  {
    || s[0] in {'f', 't', 'a', 'j'} || (s[0] == 'm' && s[1] == 'u') || (s[0] == 'c' && s[1] == 'l') || (s[0] == 'd' && |s| <= 9)
    || (s[0] == 'r' && (s[1] == 'e' || (s[1] == 'u' && |s| > 5 && s[4] == 'f')))
    || (s[0] == '.' && (s[1] in {'g', 'j', 'r'} || (s[1] == 's' && s[2] == 'e') || (s[1] == 'c' && s[2] in {'l', 'o'})))
  }

  predicate BeginsAsGate(s: string) {
    s in GATE_SETTINGS && |s| > 16 && s[0] == '.' && s[1] == 'c' && s[2] == 'a' && s[|s| - 1] != '/'
  }

  predicate BeginsEvery(s: string)
    requires |s| >= 4
  {
    || s[0] in {'L', 'T', 'C'} || (s[0] == 'c' && s[1] == 'r') || (s[0] == 'r' && s[1] == 'u' && |s| > 5 && s[4] == '-')
    || (s[0] == '.' && (s[1] == 'd' || (s[1] == 'c' && s[2] == 'a' && |s| == 7))) || s == "deploy/docker/"
  }

  predicate Begins(v: Impact, s: string)
    requires |s| >= 4
  {
    match v
    case Every => BeginsEvery(s)
    case OfPackage(name) =>
      if name == DB_PACKAGE then (s[0] == 'm' && s[1] == 'i') || (s[0] == '.' && s[1] == 's' && s[2] == 'q')
      else name == CLIENT_PACKAGE && s[0] == 'o'
    case Spa => s[0] == 'w'
    case Inert => BeginsInert(s) || BeginsAsGate(s)
    case Unclassified => false
  }

  predicate EachBeginsInert(rules: seq<Rule>) {
    forall i | 0 <= i < |rules| :: rules[i].verdict == Inert && |rules[i].prefix| >= 4 && BeginsInert(rules[i].prefix)
  }

  lemma GatesBegin(s: string)
    requires s in GATE_SETTINGS
    ensures BeginsAsGate(s)
  {}

  lemma BuildBegins(i: nat)
    requires i < |BUILD_DEFINITION|
    ensures BUILD_DEFINITION[i].verdict == if 5 <= i < 7 then Inert else Every
    ensures |BUILD_DEFINITION[i].prefix| >= 4 && (i < 5 || i == 7 ==> BeginsEvery(BUILD_DEFINITION[i].prefix))
    ensures 5 <= i < 7 ==> BUILD_DEFINITION[i].prefix == GATE_SETTINGS[i - 5]
  {}

  lemma InputsBegin(i: nat)
    requires i < |WORKSPACE_INPUTS|
    ensures |WORKSPACE_INPUTS[i].prefix| >= 4 && Begins(WORKSPACE_INPUTS[i].verdict, WORKSPACE_INPUTS[i].prefix)
  {}

  lemma DirectoriesBegin()
    ensures EachBeginsInert(INERT_DIRECTORIES)
  {}

  lemma FilesBegin()
    ensures EachBeginsInert(INERT_FILES)
  {}

  lemma SettingsBegin()
    ensures EachBeginsInert(INERT_SETTINGS)
  {}

  lemma RuleBegins(e: Rule)
    requires e in RULES
    ensures |e.prefix| >= 4 && Begins(e.verdict, e.prefix)
  {
    InGroupIff(e);
    if i :| 0 <= i < |BUILD_DEFINITION| && BUILD_DEFINITION[i] == e {
      BuildBegins(i);
      if 5 <= i < 7 {
        GatesBegin(e.prefix);
      }
    }
    if i :| 0 <= i < |WORKSPACE_INPUTS| && WORKSPACE_INPUTS[i] == e {
      InputsBegin(i);
    }
    DirectoriesBegin();
    FilesBegin();
    SettingsBegin();
  }

  /** Two entries that match one path begin alike. */
  lemma BeginAlike(e: Rule, r: Rule, path: string)
    requires Matches(e, path) && Matches(r, path)
    ensures forall k | 0 <= k < |e.prefix| - 1 && k < |r.prefix| - 1 :: e.prefix[k] == r.prefix[k]
  {
    assert forall k | 0 <= k < |e.prefix| - 1 :: e.prefix[k] == path[k];
    assert forall k | 0 <= k < |r.prefix| - 1 :: r.prefix[k] == path[k];
  }

  /** Beginnings of different verdicts differ within five characters, but for the exceptions. */
  lemma BeginningsDiffer(v: Impact, s: string, w: Impact, t: string)
    requires |s| >= 4 && |t| >= 4 && Begins(v, s) && Begins(w, t) && v != w
    requires s[..3] == t[..3] && (|s| > 5 && |t| > 5 ==> s[4] == t[4])
    ensures {v, w} == {Every, Inert}
    ensures v == Every ==> (s == "deploy/docker/" && |t| <= 9) || (|s| == 7 && BeginsAsGate(t))
  {
    assert s[0] == s[..3][0] && s[1] == s[..3][1] && s[2] == s[..3][2];
    assert t[0] == t[..3][0] && t[1] == t[..3][1] && t[2] == t[..3][2];
  }

  /** Entries of different verdicts match one path only where the table means them to. */
  lemma OnlyExceptionsOverlap(e: Rule, r: Rule, path: string)
    requires e in RULES && r in RULES && Matches(e, path) && Matches(r, path) && e.verdict != r.verdict
    ensures {e.verdict, r.verdict} == {Every, Inert}
    ensures e.verdict == Every ==>
              || (e.prefix == "deploy/docker/" && |r.prefix| <= 9)
              || (|e.prefix| == 7 && r.prefix in GATE_SETTINGS && |r.prefix| > 16 && path == r.prefix)
  {
    RuleBegins(e);
    RuleBegins(r);
    BeginAlike(e, r, path);
    BeginningsDiffer(e.verdict, e.prefix, r.verdict, r.prefix);
  }

  // ---------------------------------------------------------------------------------------
  // The verdicts
  // ---------------------------------------------------------------------------------------

  /** An Every entry and an Inert one for the same path: which is the longer, and where that is. */
  lemma OverlapIs(every: Rule, inert: Rule, path: string)
    requires every in RULES && inert in RULES && Matches(every, path) && Matches(inert, path)
    requires every.verdict == Every && inert.verdict == Inert
    ensures |every.prefix| != |inert.prefix|
    ensures |every.prefix| > |inert.prefix| <==> At(path, "deploy/docker")
    ensures |every.prefix| < |inert.prefix| <==> path in GATE_SETTINGS
  {
    OnlyExceptionsOverlap(every, inert, path);
    assert "deploy/docker" + "/" == "deploy/docker/";
    assert "deploy/docker/"[..13] == "deploy/docker";
    if path in GATE_SETTINGS {
      assert path[0] == '.';
    }
  }

  /**
   The longest entry that matches a path gives it a verdict exactly when the path is listed under
   that verdict, the gates' settings and what lies under `deploy/docker` being the only exceptions.
   */
  lemma VerdictIff(path: string, v: Impact)
    requires v != Unclassified
    ensures LongestRule(RULES, path).Some? && LongestRule(RULES, path).value.verdict == v <==> Ruled(path, v)
  {
    var longest := LongestRule(RULES, path);
    LongestRuleIs(RULES, path);
    if longest.Some? {
      MatchedIsAmong(longest.value, path);
      LongestIsRuled(path, longest.value);
    }
    if Ruled(path, v) {
      var e := AmongIsMatched(path, v);
      RuledIsLongest(path, e, longest.value);
    }
  }

  lemma RuledIsLongest(path: string, e: Rule, r: Rule)
    requires e in RULES && r in RULES && Matches(e, path) && Matches(r, path)
    requires Ruled(path, e.verdict) && |e.prefix| <= |r.prefix|
    ensures r.verdict == e.verdict
  {
    if r.verdict != e.verdict {
      OnlyExceptionsOverlap(e, r, path);
      if e.verdict == Every { OverlapIs(e, r, path); } else { OverlapIs(r, e, path); }
    }
  }

  lemma LongestIsRuled(path: string, r: Rule)
    requires LongestRule(RULES, path) == Some(r) && Among(path, DirectoriesFor(r.verdict), FilesFor(r.verdict))
    ensures Ruled(path, r.verdict)
  {
    LongestRuleIs(RULES, path);
    if r.verdict == Every && path in GATE_SETTINGS {
      var e := AmongIsMatched(path, Inert);
      OverlapIs(r, e, path);
    }
    if r.verdict == Inert && At(path, EVERY_DIRECTORIES[0]) {
      var e := AmongIsMatched(path, Every);
      OverlapIs(e, r, path);
    }
  }

  /** A path of no rule is left to the packages' directories. */
  ghost predicate Unruled(path: string) {
    forall v | v != Unclassified :: !Ruled(path, v)
  }

  /** A path stands for every image: every build reads it, or nothing is known of it. */
  ghost predicate ReachesAll(packages: seq<Package>, path: string) {
    Ruled(path, Every) || (Unruled(path) && Owner(packages, path).None?)
  }

  /** A path stands for one package: the rules name the package, or the path lies in its directory. */
  ghost predicate ReachesPackage(packages: seq<Package>, path: string, name: string) {
    || Ruled(path, OfPackage(name))
    || (Unruled(path) && Owner(packages, path).Some? && Owner(packages, path).value.name == name)
  }

  /**
   Which images a changed path reaches: none if it is a document; every one if every build reads it
   or nothing is known of it; the frontend if it is the SPA's; else those built from its package.
   */
  lemma TouchesIff(ws: Workspace, bin: string, path: string)
    ensures Touches(ws, bin, Classify(path, ws.packages)) <==>
              && !IsMarkdown(path)
              && (|| ReachesAll(ws.packages, path)
                  || (At(path, "web") && bin == "frontend")
                  || exists name :: ReachesPackage(ws.packages, path, name) && BuiltFrom(ws, bin, name))
  {
    var found := FoundVerdict(path);
    WebIsRuled(path);
    assert Classify(path, ws.packages) ==
      if IsMarkdown(path) then Inert else if found.Some? then found.value else ByOwner(ws.packages, path);
    match found
    case Some(v) =>
      assert forall name :: ReachesPackage(ws.packages, path, name) <==> v == OfPackage(name);
      assert ReachesAll(ws.packages, path) <==> v == Every;
    case None =>
      var owner := Owner(ws.packages, path);
      assert forall name :: ReachesPackage(ws.packages, path, name) <==> owner.Some? && owner.value.name == name;
      assert ReachesAll(ws.packages, path) <==> owner.None?;
  }

  lemma WebIsRuled(path: string)
    ensures Ruled(path, Spa) <==> At(path, "web")
  {
    assert SPA_DIRECTORIES[0] == "web";
  }

  lemma FoundVerdict(path: string) returns (found: Option<Impact>)
    ensures LongestRule(RULES, path).None? <==> found.None?
    ensures found.Some? ==> LongestRule(RULES, path).value.verdict == found.value != Unclassified
    ensures forall v | v != Unclassified :: Ruled(path, v) <==> found == Some(v)
    ensures Unruled(path) <==> found.None?
  {
    found := None;
    if LongestRule(RULES, path).Some? {
      var r := LongestRule(RULES, path).value;
      found := Some(r.verdict);
      LongestRuleIs(RULES, path);
      RuleBegins(r);
    }
    forall v | v != Unclassified ensures Ruled(path, v) <==> found == Some(v) {
      VerdictIff(path, v);
    }
  }

  // ---------------------------------------------------------------------------------------
  // Verdicts the planner's soundness rests on
  // ---------------------------------------------------------------------------------------

  lemma RuledReachesAll(packages: seq<Package>, path: string)
    requires Ruled(path, Every) && !IsMarkdown(path)
    ensures Classify(path, packages) == Every
  {
    VerdictIff(path, Every);
  }

  lemma FileIsRuled(i: nat)
    requires i < |EVERY_FILES|
    ensures EVERY_FILES[i] !in GATE_SETTINGS && Ruled(EVERY_FILES[i], Every)
    ensures EVERY_FILES[i] != []
  {
    assert EVERY_FILES[i] in EVERY_FILES;
    if i == 2 {
      assert EVERY_FILES[2][1] == 'd';
    } else {
      assert EVERY_FILES[i][0] != '.';
    }
  }

  lemma FileReachesAll(packages: seq<Package>, i: nat)
    requires i < |EVERY_FILES| && i != 2
    ensures Classify(EVERY_FILES[i], packages) == Every
  {
    FileIsRuled(i);
    NotMarkdown(EVERY_FILES[i]);
    RuledReachesAll(packages, EVERY_FILES[i]);
  }

  lemma RootManifestReachesAll(packages: seq<Package>)
    ensures Classify(ROOT_MANIFEST, packages) == Every
  {
    FileReachesAll(packages, 4);
  }

  lemma LockfileReachesAll(packages: seq<Package>)
    ensures Classify(LOCKFILE, packages) == Every
  {
    FileReachesAll(packages, 5);
  }

  /** The files that every image's build copies from the root, and the sources of what it generates there. */
  predicate IsShared(path: string) {
    path in {"LICENSE", "THIRD-PARTY-NOTICES", "rust-toolchain.toml"} || "crates/config-contract/" <= path
  }

  /** What the database package compiles in from outside its own directory. */
  predicate IsDbData(path: string) { "migrations/" <= path || ".sqlx/" <= path }

  lemma UnderDirectory(path: string, v: Impact, i: nat)
    requires i < |DirectoriesFor(v)| && DirectoriesFor(v)[i] + "/" <= path
    ensures Among(path, DirectoriesFor(v), FilesFor(v))
  {
    assert At(path, DirectoriesFor(v)[i]);
  }

  lemma SharedReachesAll(packages: seq<Package>, path: string)
    requires IsShared(path) && !IsMarkdown(path)
    ensures Classify(path, packages) == Every
  {
    if "crates/config-contract/" <= path {
      ContractIsRuled(path);
    } else {
      FileIsRuled(if path == "LICENSE" then 0 else if path == "THIRD-PARTY-NOTICES" then 1 else 3);
    }
    RuledReachesAll(packages, path);
  }

  lemma ContractIsRuled(path: string)
    requires "crates/config-contract/" <= path
    ensures Ruled(path, Every)
  {
    assert EVERY_DIRECTORIES[2] + "/" == "crates/config-contract/";
    UnderDirectory(path, Every, 2);
    assert path[0] == "crates/config-contract/"[0] == 'c';
  }

  lemma DbDataBelongsToDb(packages: seq<Package>, path: string)
    requires IsDbData(path) && !IsMarkdown(path)
    ensures Classify(path, packages) == OfPackage(DB_PACKAGE)
  {
    assert DB_DIRECTORIES[0] + "/" == "migrations/" && DB_DIRECTORIES[1] + "/" == ".sqlx/";
    UnderDirectory(path, OfPackage(DB_PACKAGE), if "migrations/" <= path then 0 else 1);
    VerdictIff(path, OfPackage(DB_PACKAGE));
  }

  lemma OnlySpaUnderWeb(path: string)
    requires "web/" <= path
    ensures LongestRule(RULES, path).Some? && LongestRule(RULES, path).value.verdict == Spa
  {
    assert SPA_DIRECTORIES[0] + "/" == "web/";
    UnderDirectory(path, Spa, 0);
    VerdictIff(path, Spa);
  }

  lemma SpaManifestReachesFrontend(packages: seq<Package>)
    ensures Classify(SPA_MANIFEST, packages) == Spa
  {
    OnlySpaUnderWeb(SPA_MANIFEST);
    NotMarkdown(SPA_MANIFEST);
  }

  /** Where the workspace keeps its members, no rule makes a manifest inert. */
  predicate UsualDirectory(dir: string) {
    "crates/" <= dir || "services/" <= dir || "xtask" <= dir
  }

  lemma NoEntryUnderServices(e: Rule, path: string)
    requires e in RULES && Matches(e, path)
    ensures path != [] && path[0] !in {'s', 'x'}
    ensures path[0] == 'c' && |path| > 2 && path[1] == 'r' ==> e.verdict == Every
  {
    RuleBegins(e);
    var s := e.prefix;
    assert path[0] == s[0] && path[1] == s[1];
  }

  lemma NoRuleUnderServices(path: string)
    requires path != [] && (path[0] == 's' || path[0] == 'x')
    ensures LongestRule(RULES, path).None?
  {
    LongestRuleIs(RULES, path);
    if LongestRule(RULES, path).Some? {
      NoEntryUnderServices(LongestRule(RULES, path).value, path);
    }
  }

  lemma OnlyEveryAtCr(path: string)
    requires |path| > 2 && path[0] == 'c' && path[1] == 'r'
    ensures LongestRule(RULES, path).None? || LongestRule(RULES, path).value.verdict == Every
  {
    LongestRuleIs(RULES, path);
    if LongestRule(RULES, path).Some? {
      NoEntryUnderServices(LongestRule(RULES, path).value, path);
    }
  }

  lemma OnlyEveryUnderCrates(path: string)
    requires "crates/" <= path
    ensures LongestRule(RULES, path).None? || LongestRule(RULES, path).value.verdict == Every
  {
    OnlyEveryAtCr(path);
  }

  /** In those directories a changed manifest reaches its own package or every image. */
  lemma UsualManifestIsSeen(packages: seq<Package>, p: Package)
    requires p in packages && UsualDirectory(p.dir)
    requires forall q | q in packages && q.dir == p.dir :: q == p
    ensures Classify(ManifestPath(p.dir), packages) in {Every, OfPackage(p.name)}
  {
    var path := ManifestPath(p.dir);
    ManifestIsOwned(packages, p);
    assert path[|path| - 1] == "/Cargo.toml"[10];
    NotMarkdown(path);
    if "crates/" <= p.dir {
      OnlyEveryUnderCrates(path);
    } else {
      assert p.dir[0] == "services/"[0] || p.dir[0] == "xtask"[0];
      NoRuleUnderServices(path);
    }
  }

  // ---------------------------------------------------------------------------------------
  // What the rules miss
  // ---------------------------------------------------------------------------------------

  /** The generator of the licence notices, and the configuration it is run with. */
  const NOTICES_GENERATOR := "xtask/src/notices.rs"
  const NOTICES_SETTINGS := "about.toml"

  /** A source file under `xtask` is charged to the one package it lies in. */
  lemma OwnedAlone(packages: seq<Package>, p: Package, path: string)
    requires path != [] && path[0] == 'x' && path[|path| - 1] == 's'
    requires p in packages && p.dir != [] && p.dir + "/" <= path
    requires forall q | q in packages && q.dir + "/" <= path :: q == p
    ensures Classify(path, packages) == OfPackage(p.name)
  {
    NotMarkdown(path);
    NoRuleUnderServices(path);
    OwnerIs(packages, path);
  }

  /** The generator is charged to the package it lies in. */
  lemma GeneratorIsOwned(packages: seq<Package>, p: Package, path: string)
    requires path == NOTICES_GENERATOR && p in packages && p.dir == "xtask"
    requires forall q | q in packages && q.dir + "/" <= path :: q == p
    ensures Classify(path, packages) == OfPackage(p.name)
  {
    assert p.dir + "/" <= path by {
      assert "xtask" + "/" == "xtask/" && path == "xtask/" + "src/notices.rs";
    }
    OwnedAlone(packages, p, path);
  }

  /** The configuration is charged to nothing. */
  lemma SettingsAreInert(packages: seq<Package>)
    ensures Classify(NOTICES_SETTINGS, packages) == Inert
  {
    assert NO_IMAGE_FILES[4] == NOTICES_SETTINGS;
    assert NOTICES_SETTINGS[0] == 'a';
    VerdictIff(NOTICES_SETTINGS, Inert);
  }
}
