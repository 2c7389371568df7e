/**
 Masking the version that a release rewrites. Two revisions of `Cargo.toml`, or of `Cargo.lock`, are
 compared with those lines masked; the theorem says the comparison hides those lines and nothing else.
 */
module VersionMask {
  import opened Whitespace

  const MASKED_VERSION := "version = \"0.0.0-masked\""

  // ---------------------------------------------------------------------------------------
  // Text
  // ---------------------------------------------------------------------------------------

  function UnquotedStart(s: string): string {
    if s != [] && s[0] == '"' then UnquotedStart(s[1..]) else s
  }

  function UnquotedEnd(s: string): string {
    if s != [] && s[|s| - 1] == '"' then UnquotedEnd(s[..|s| - 1]) else s
  }

  /** The line up to the first line feed. */
  function FirstLine(text: string): (line: string)
    ensures line <= text && '\n' !in line
    ensures |line| < |text| ==> text[|line|] == '\n'
  {
    if text == [] || text[0] == '\n' then [] else [text[0]] + FirstLine(text[1..])
  }

  function WithoutReturn(line: string): (r: string)
    ensures r <= line
  {
    if line != [] && line[|line| - 1] == '\r' then line[..|line| - 1] else line
  }

  /** `str::lines`: split at line feeds, a carriage return before one dropped, no empty last line. */
  function Lines(text: string): (lines: seq<string>)
    ensures forall l | l in lines :: '\n' !in l
  {
    if text == [] then []
    else
      var line := FirstLine(text);
      if |line| == |text| then [line] else [WithoutReturn(line)] + Lines(text[|line| + 1..])
  }

  /** The lines again, each ended by a line feed. */
  function Unlines(lines: seq<string>): string {
    if lines == [] then [] else lines[0] + "\n" + Unlines(lines[1..])
  }

  lemma {:induction false} UnlinesAppend(lines: seq<string>, line: string)
    ensures Unlines(lines + [line]) == Unlines(lines) + line + "\n"
  {
    if lines == [] {
      assert [] + [line] == [line];
    } else {
      assert (lines + [line])[1..] == lines[1..] + [line];
      UnlinesAppend(lines[1..], line);
    }
  }

  lemma FirstLineOf(line: string, rest: string)
    requires '\n' !in line
    ensures FirstLine(line + "\n" + rest) == line
  {
    if line == [] {
      assert (line + "\n" + rest)[0] == '\n';
    } else {
      assert (line + "\n" + rest)[1..] == line[1..] + "\n" + rest;
      FirstLineOf(line[1..], rest);
    }
  }

  /** Lines without line feeds can be read back off the text. */
  lemma {:induction false} UnlinesInjective(a: seq<string>, b: seq<string>)
    requires forall l | l in a || l in b :: '\n' !in l
    requires Unlines(a) == Unlines(b)
    ensures a == b
  {
    if a != [] && b != [] {
      FirstLineOf(a[0], Unlines(a[1..]));
      FirstLineOf(b[0], Unlines(b[1..]));
      assert a[0] == b[0];
      assert Unlines(a)[|a[0]| + 1..] == Unlines(a[1..]);
      assert Unlines(b)[|b[0]| + 1..] == Unlines(b[1..]);
      UnlinesInjective(a[1..], b[1..]);
      assert a == [a[0]] + a[1..] && b == [b[0]] + b[1..];
    }
  }

  // ---------------------------------------------------------------------------------------
  // The two masks
  // ---------------------------------------------------------------------------------------

  /** A line that assigns `version`, given trimmed. */
  predicate IsVersionAssignment(trimmed: string) {
    "version" <= trimmed && "=" <= TrimStart(trimmed[7..])
  }

  /** Which section's version is masked: the workspace package's, or every member's. */
  datatype Mask = Manifest | Lockfile(members: set<string>)

  /** Whether the line belongs to a masked section, given whether the line before it did. */
  function InSection(mask: Mask, before: bool, trimmed: string): bool {
    match mask
    case Manifest => if "[" <= trimmed then trimmed == "[workspace.package]" else before
    case Lockfile(members) =>
      if "[" <= trimmed then false
      else if "name = " <= trimmed then UnquotedEnd(UnquotedStart(trimmed[7..])) in members
      else before
  }

  /** Whether the last of `lines` belongs to a masked section. */
  function SectionAt(mask: Mask, lines: seq<string>): bool {
    if lines == [] then false else InSection(mask, SectionAt(mask, lines[..|lines| - 1]), Trim(lines[|lines| - 1]))
  }

  /** Whether line `i` is masked. */
  predicate Hidden(mask: Mask, lines: seq<string>, i: nat)
    requires i < |lines|
  {
    SectionAt(mask, lines[..i + 1]) && IsVersionAssignment(Trim(lines[i]))
  }

  /** What a line becomes, given whether the line before it was in a masked section. */
  function MaskedLine(mask: Mask, before: bool, line: string): string {
    if HiddenLine(mask, before, line) then MASKED_VERSION else line
  }

  predicate HiddenLine(mask: Mask, before: bool, line: string) {
    InSection(mask, before, Trim(line)) && IsVersionAssignment(Trim(line))
  }

  function MaskedLines(mask: Mask, lines: seq<string>): (r: seq<string>)
    ensures |r| == |lines|
  {
    if lines == [] then []
    else
      var front := lines[..|lines| - 1];
      MaskedLines(mask, front) + [MaskedLine(mask, SectionAt(mask, front), lines[|lines| - 1])]
  }

  function Masked(mask: Mask, text: string): string { Unlines(MaskedLines(mask, Lines(text))) }

  lemma MaskedPrefix(mask: Mask, lines: seq<string>, i: nat)
    requires i < |lines|
    ensures Unlines(MaskedLines(mask, lines[..i + 1])) ==
            Unlines(MaskedLines(mask, lines[..i])) + MaskedLine(mask, SectionAt(mask, lines[..i]), lines[i]) + "\n"
    ensures SectionAt(mask, lines[..i + 1]) == InSection(mask, SectionAt(mask, lines[..i]), Trim(lines[i]))
  {
    assert lines[..i + 1][..i] == lines[..i];
    UnlinesAppend(MaskedLines(mask, lines[..i]), MaskedLine(mask, SectionAt(mask, lines[..i]), lines[i]));
  }

  lemma {:induction false} MaskedAt(mask: Mask, lines: seq<string>, i: nat)
    requires i < |lines|
    ensures MaskedLines(mask, lines)[i] == MaskedLine(mask, SectionAt(mask, lines[..i]), lines[i])
  {
    if i < |lines| - 1 {
      var front := lines[..|lines| - 1];
      MaskedAt(mask, front, i);
      assert front[..i] == lines[..i];
    }
  }

  lemma HiddenAt(mask: Mask, lines: seq<string>, i: nat)
    requires i < |lines|
    ensures Hidden(mask, lines, i) <==> HiddenLine(mask, SectionAt(mask, lines[..i]), lines[i])
  {
    assert lines[..i + 1][..i] == lines[..i];
  }

  method MaskWorkspaceVersion(manifest: string) returns (out: string)
    ensures out == Masked(Manifest, manifest)
  {
    out := "";
    var inWorkspacePackage := false;
    var lines := Lines(manifest);
    for i := 0 to |lines|
      invariant out == Unlines(MaskedLines(Manifest, lines[..i]))
      invariant inWorkspacePackage == SectionAt(Manifest, lines[..i])
    {
      MaskedPrefix(Manifest, lines, i);
      var line := lines[i];
      var trimmed := Trim(line);
      if "[" <= trimmed {
        inWorkspacePackage := trimmed == "[workspace.package]";
      }
      if inWorkspacePackage && IsVersionAssignment(trimmed) {
        out := out + MASKED_VERSION;
      } else {
        out := out + line;
      }
      out := out + "\n";
    }
    assert lines[..|lines|] == lines;
  }

  method MaskLockfileVersions(lockfile: string, members: set<string>) returns (out: string)
    ensures out == Masked(Lockfile(members), lockfile)
  {
    out := "";
    var currentIsMember := false;
    var lines := Lines(lockfile);
    for i := 0 to |lines|
      invariant out == Unlines(MaskedLines(Lockfile(members), lines[..i]))
      invariant currentIsMember == SectionAt(Lockfile(members), lines[..i])
    {
      MaskedPrefix(Lockfile(members), lines, i);
      var line := lines[i];
      var trimmed := Trim(line);
      if "[" <= trimmed {
        currentIsMember := false;
      } else if "name = " <= trimmed {
        currentIsMember := UnquotedEnd(UnquotedStart(trimmed[7..])) in members;
      }
      if currentIsMember && IsVersionAssignment(trimmed) {
        out := out + MASKED_VERSION;
      } else {
        out := out + line;
      }
      out := out + "\n";
    }
    assert lines[..|lines|] == lines;
  }

  // ---------------------------------------------------------------------------------------
  // What the masks hide
  // ---------------------------------------------------------------------------------------

  /** The same lines, except where both hold a version assignment in a masked section. */
  ghost predicate SameButVersions(mask: Mask, a: seq<string>, b: seq<string>) {
    && |a| == |b|
    && forall i | 0 <= i < |a| :: a[i] == b[i] || (Hidden(mask, a, i) && Hidden(mask, b, i))
  }

  /** A version assignment neither opens a section nor names a package. */
  lemma VersionKeepsSection(mask: Mask, before: bool, trimmed: string)
    requires IsVersionAssignment(trimmed)
    ensures InSection(mask, before, trimmed) == before
  {
    assert trimmed[0] == "version"[0];
  }

  lemma PlainAssignment(s: string)
    requires |s| >= 9 && "version" <= s && s[7] == ' ' && s[8] == '=' && !IsWhite(s[|s| - 1])
    ensures Trim(s) == s && IsVersionAssignment(s)
  {
    assert s[0] == "version"[0];
    var rest := s[7..];
    assert rest[0] == ' ' && rest[1..][0] == '=';
  }

  /** The line a mask writes would itself be masked where it is written. */
  lemma MaskIsVersion()
    ensures Trim(MASKED_VERSION) == MASKED_VERSION && IsVersionAssignment(MASKED_VERSION)
  {
    PlainAssignment(MASKED_VERSION);
  }

  lemma MaskIsOneLine()
    ensures '\n' !in MASKED_VERSION
  {
    assert forall i | 0 <= i < |MASKED_VERSION| :: MASKED_VERSION[i] != '\n';
  }

  lemma MaskHiddenWhereVersionWas(mask: Mask, before: bool, line: string)
    requires HiddenLine(mask, before, line)
    ensures HiddenLine(mask, before, MASKED_VERSION)
  {
    MaskIsVersion();
    VersionKeepsSection(mask, before, Trim(line));
    VersionKeepsSection(mask, before, MASKED_VERSION);
  }

  /** In the same section state, lines that mask alike are equal or both masked. */
  lemma MaskedLineAlike(mask: Mask, before: bool, x: string, y: string)
    requires MaskedLine(mask, before, x) == MaskedLine(mask, before, y)
    ensures x == y || (HiddenLine(mask, before, x) && HiddenLine(mask, before, y))
  {
    if HiddenLine(mask, before, x) { MaskHiddenWhereVersionWas(mask, before, x); }
    if HiddenLine(mask, before, y) { MaskHiddenWhereVersionWas(mask, before, y); }
  }

  /** The section states of two texts stay in step as long as their masked lines agree. */
  lemma {:induction false} SectionsInStep(mask: Mask, a: seq<string>, b: seq<string>, i: nat)
    requires i <= |a| && |a| == |b|
    requires forall j | 0 <= j < i :: a[j] == b[j] || (IsVersionAssignment(Trim(a[j])) && IsVersionAssignment(Trim(b[j])))
    ensures SectionAt(mask, a[..i]) == SectionAt(mask, b[..i])
  {
    if i > 0 {
      SectionsInStep(mask, a, b, i - 1);
      assert a[..i][..i - 1] == a[..i - 1] && b[..i][..i - 1] == b[..i - 1];
      if a[i - 1] != b[i - 1] {
        VersionKeepsSection(mask, SectionAt(mask, a[..i - 1]), Trim(a[i - 1]));
        VersionKeepsSection(mask, SectionAt(mask, b[..i - 1]), Trim(b[i - 1]));
      }
    }
  }

  /** Lines that mask alike up to `i` differ there only if both are masked. */
  lemma {:induction false} MaskedAlike(mask: Mask, a: seq<string>, b: seq<string>, i: nat)
    requires MaskedLines(mask, a) == MaskedLines(mask, b) && i < |a|
    ensures |a| == |b|
    ensures a[i] == b[i] || (Hidden(mask, a, i) && Hidden(mask, b, i))
    decreases i
  {
    assert |a| == |MaskedLines(mask, a)| == |b|;
    forall j | 0 <= j < i
      ensures a[j] == b[j] || (IsVersionAssignment(Trim(a[j])) && IsVersionAssignment(Trim(b[j])))
    {
      MaskedAlike(mask, a, b, j);
    }
    SectionsInStep(mask, a, b, i);
    MaskedAt(mask, a, i);
    MaskedAt(mask, b, i);
    HiddenAt(mask, a, i);
    HiddenAt(mask, b, i);
    MaskedLineAlike(mask, SectionAt(mask, a[..i]), a[i], b[i]);
  }

  lemma SameButVersionsMaskAlike(mask: Mask, a: seq<string>, b: seq<string>)
    requires SameButVersions(mask, a, b)
    ensures MaskedLines(mask, a) == MaskedLines(mask, b)
  {
    forall i | 0 <= i < |a| ensures MaskedLines(mask, a)[i] == MaskedLines(mask, b)[i] {
      SectionsInStep(mask, a, b, i);
      MaskedAt(mask, a, i);
      MaskedAt(mask, b, i);
      HiddenAt(mask, a, i);
      HiddenAt(mask, b, i);
    }
  }

  lemma {:induction false} MaskedHasNoFeed(mask: Mask, lines: seq<string>)
    requires forall l | l in lines :: '\n' !in l
    ensures forall l | l in MaskedLines(mask, lines) :: '\n' !in l
  {
    MaskIsOneLine();
    forall l | l in MaskedLines(mask, lines) ensures '\n' !in l {
      var i :| 0 <= i < |lines| && MaskedLines(mask, lines)[i] == l;
      MaskedAt(mask, lines, i);
    }
  }

  /** Two texts mask alike exactly when they are the same lines but for hidden versions. */
  lemma MaskedEqualIff(mask: Mask, x: string, y: string)
    ensures Masked(mask, x) == Masked(mask, y) <==> SameButVersions(mask, Lines(x), Lines(y))
  {
    var a := Lines(x);
    var b := Lines(y);
    MaskedHasNoFeed(mask, a);
    MaskedHasNoFeed(mask, b);
    if Masked(mask, x) == Masked(mask, y) {
      UnlinesInjective(MaskedLines(mask, a), MaskedLines(mask, b));
      forall i | 0 <= i < |a| ensures a[i] == b[i] || (Hidden(mask, a, i) && Hidden(mask, b, i)) {
        MaskedAlike(mask, a, b, i);
      }
    }
    if SameButVersions(mask, a, b) { SameButVersionsMaskAlike(mask, a, b); }
  }
}
