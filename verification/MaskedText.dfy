/**
 The masks on whole texts: every character of a file is seen, but for the carriage returns in front of
 line feeds and the versions of the masked sections, and which lines those are is said here without the
 loop that finds them.
 */
module MaskedText {
  import opened Whitespace
  import opened VersionMask

  // ---------------------------------------------------------------------------------------
  // Lines hold the whole text
  // ---------------------------------------------------------------------------------------

  /** The text without the carriage returns that stand right in front of a line feed. */
  function FeedsOnly(text: string): string {
    if text == [] then []
    else if |text| >= 2 && text[0] == '\r' && text[1] == '\n' then FeedsOnly(text[1..])
    else [text[0]] + FeedsOnly(text[1..])
  }

  /** That, with a line feed behind the last line if it has none. */
  function Ended(text: string): string {
    FeedsOnly(text) + if text == [] || text[|text| - 1] == '\n' then [] else "\n"
  }

  lemma FeedsAfterOne(c: char, text: string)
    ensures FeedsOnly([c] + text) == if c == '\r' && text != [] && text[0] == '\n' then FeedsOnly(text) else [c] + FeedsOnly(text)
  {
    assert ([c] + text)[1..] == text;
    assert text != [] ==> ([c] + text)[1] == text[0];
  }

  lemma WithoutReturnBehind(c: char, line: string)
    requires line != []
    ensures WithoutReturn([c] + line) == [c] + WithoutReturn(line)
  {}

  lemma {:induction false} FeedsAfterLine(line: string, rest: string)
    requires '\n' !in line
    ensures FeedsOnly(line + "\n" + rest) == WithoutReturn(line) + "\n" + FeedsOnly(rest)
  {
    if line == [] {
      assert line + "\n" + rest == ['\n'] + rest;
      FeedsAfterOne('\n', rest);
    } else {
      var c, behind := line[0], line[1..];
      assert line == [c] + behind && line + "\n" + rest == [c] + (behind + "\n" + rest);
      FeedsAfterLine(behind, rest);
      FeedsAfterOne(c, behind + "\n" + rest);
      if behind != [] { WithoutReturnBehind(c, behind); }
    }
  }

  lemma {:induction false} FeedsInLine(line: string)
    requires '\n' !in line
    ensures FeedsOnly(line) == line
  {
    if line != [] { FeedsInLine(line[1..]); }
  }

  lemma LineThenRest(line: string, rest: string)
    requires '\n' !in line
    ensures Ended(line + "\n" + rest) == WithoutReturn(line) + "\n" + Ended(rest)
  {
    var text := line + "\n" + rest;
    FeedsAfterLine(line, rest);
    assert text[|text| - 1] == if rest == [] then '\n' else rest[|rest| - 1];
  }

  lemma LastLine(text: string)
    requires text != [] && '\n' !in text
    ensures Unlines([text]) == Ended(text)
  {
    FeedsInLine(text);
    assert Unlines([text]) == text + "\n" + Unlines([]);
  }

  lemma UnlinesFirst(line: string, lines: seq<string>)
    ensures Unlines([line] + lines) == line + "\n" + Unlines(lines)
  {
    assert ([line] + lines)[1..] == lines;
  }

  lemma LinesInFront(line: string, rest: string)
    requires '\n' !in line
    ensures Lines(line + "\n" + rest) == [WithoutReturn(line)] + Lines(rest)
  {
    FirstLineOf(line, rest);
    assert (line + "\n" + rest)[|line| + 1..] == rest;
  }

  lemma LineInFront(line: string, rest: string)
    requires '\n' !in line && Unlines(Lines(rest)) == Ended(rest)
    ensures Unlines(Lines(line + "\n" + rest)) == Ended(line + "\n" + rest)
  {
    LinesInFront(line, rest);
    UnlinesFirst(WithoutReturn(line), Lines(rest));
    LineThenRest(line, rest);
  }

  lemma SplitAtFeed(text: string) returns (line: string, rest: string)
    requires '\n' in text
    ensures '\n' !in line && text == line + "\n" + rest
  {
    line := FirstLine(text);
    assert |line| < |text|;
    rest := text[|line| + 1..];
  }

  lemma {:induction false} OneLine(text: string)
    requires text != [] && '\n' !in text
    ensures FirstLine(text) == text && Lines(text) == [text]
  {
    if |text| > 1 { OneLine(text[1..]); }
  }

  /** No character is lost between a text and its lines. */
  lemma {:induction false} LinesHoldText(text: string)
    ensures Unlines(Lines(text)) == Ended(text)
    decreases |text|
  {
    if '\n' in text {
      var line, rest := SplitAtFeed(text);
      LinesHoldText(rest);
      LineInFront(line, rest);
    } else if text != [] {
      OneLine(text);
      LastLine(text);
    }
  }

  lemma {:induction false} WithoutReturnsIsFeedsOnly(text: string)
    requires '\r' !in text
    ensures FeedsOnly(text) == text
  {
    if text != [] { WithoutReturnsIsFeedsOnly(text[1..]); }
  }

  // ---------------------------------------------------------------------------------------
  // Which lines are masked
  // ---------------------------------------------------------------------------------------

  /** The key `version`, an equals sign behind it, and at most white space between. */
  ghost predicate AssignsVersion(trimmed: string) {
    exists gap, value :: AllWhite(gap) && trimmed == "version" + gap + "=" + value
  }

  lemma AssignmentIs(trimmed: string) returns (gap: string, value: string)
    requires IsVersionAssignment(trimmed)
    ensures AllWhite(gap) && trimmed == "version" + gap + "=" + value
  {
    gap := TrimStartIs(trimmed[7..]);
    value := TrimStart(trimmed[7..])[1..];
    assert TrimStart(trimmed[7..]) == "=" + value;
    assert trimmed == trimmed[..7] + trimmed[7..];
  }

  lemma IsAssignment(gap: string, value: string)
    requires AllWhite(gap)
    ensures IsVersionAssignment("version" + gap + "=" + value)
  {
    var trimmed := "version" + gap + "=" + value;
    assert trimmed[7..] == gap + ("=" + value);
    TrimStartPast(gap, "=" + value);
  }

  lemma AssignsIff(trimmed: string)
    ensures IsVersionAssignment(trimmed) <==> AssignsVersion(trimmed)
  {
    if IsVersionAssignment(trimmed) {
      var gap, value := AssignmentIs(trimmed);
    }
    if gap, value :| AllWhite(gap) && trimmed == "version" + gap + "=" + value {
      IsAssignment(gap, value);
    }
  }

  lemma {:induction false} TrimStartPast(gap: string, rest: string)
    requires AllWhite(gap) && rest != [] && !IsWhite(rest[0])
    ensures TrimStart(gap + rest) == rest
  {
    if gap == [] {
      assert gap + rest == rest;
    } else {
      assert (gap + rest)[1..] == gap[1..] + rest;
      TrimStartPast(gap[1..], rest);
    }
  }

  predicate AllQuotes(s: string) { forall i | 0 <= i < |s| :: s[i] == '"' }

  /** `name = ` and the name between any number of quotes. */
  ghost predicate NamesPackage(trimmed: string, name: string) {
    && (name != [] ==> name[0] != '"' && name[|name| - 1] != '"')
    && exists before, after :: AllQuotes(before) && AllQuotes(after) && trimmed == "name = " + before + name + after
  }

  lemma {:induction false} UnquotedStartIs(s: string) returns (before: string)
    ensures AllQuotes(before) && s == before + UnquotedStart(s)
    ensures UnquotedStart(s) != [] ==> UnquotedStart(s)[0] != '"'
  {
    if s != [] && s[0] == '"' {
      before := UnquotedStartIs(s[1..]);
      before := [s[0]] + before;
    } else {
      before := [];
    }
  }

  lemma {:induction false} UnquotedEndIs(s: string) returns (after: string)
    ensures AllQuotes(after) && s == UnquotedEnd(s) + after
    ensures UnquotedEnd(s) != [] ==> UnquotedEnd(s)[|UnquotedEnd(s)| - 1] != '"'
  {
    if s != [] && s[|s| - 1] == '"' {
      after := UnquotedEndIs(s[..|s| - 1]);
      after := after + [s[|s| - 1]];
    } else {
      after := [];
    }
  }

  lemma {:induction false} UnquotedPast(before: string, rest: string)
    requires AllQuotes(before) && (rest != [] ==> rest[0] != '"')
    ensures UnquotedStart(before + rest) == rest
  {
    if before == [] {
      assert before + rest == rest;
    } else {
      assert (before + rest)[1..] == before[1..] + rest;
      UnquotedPast(before[1..], rest);
    }
  }

  lemma {:induction false} UnquotedUpTo(name: string, after: string)
    requires AllQuotes(after) && (name != [] ==> name[|name| - 1] != '"')
    ensures UnquotedEnd(name + after) == name
  {
    if after == [] {
      assert name + after == name;
    } else {
      assert (name + after)[..|name + after| - 1] == name + after[..|after| - 1];
      UnquotedUpTo(name, after[..|after| - 1]);
    }
  }

  lemma {:induction false} QuotesUnquote(s: string)
    requires AllQuotes(s)
    ensures UnquotedStart(s) == []
  {
    if s != [] { QuotesUnquote(s[1..]); }
  }

  lemma NameIs(trimmed: string)
    requires "name = " <= trimmed
    ensures NamesPackage(trimmed, UnquotedEnd(UnquotedStart(trimmed[7..])))
  {
    var s := trimmed[7..];
    var before := UnquotedStartIs(s);
    var after := UnquotedEndIs(UnquotedStart(s));
    var found := UnquotedEnd(UnquotedStart(s));
    assert found != [] ==> found[0] == UnquotedStart(s)[0];
    assert trimmed == trimmed[..7] + s && trimmed[..7] == "name = ";
    assert trimmed == "name = " + before + found + after;
  }

  lemma NamedIs(before: string, name: string, after: string)
    requires AllQuotes(before) && AllQuotes(after) && (name != [] ==> name[0] != '"' && name[|name| - 1] != '"')
    ensures UnquotedEnd(UnquotedStart(before + name + after)) == name
  {
    if name == [] {
      QuotesUnquote(before + name + after);
    } else {
      assert before + name + after == before + (name + after);
      UnquotedPast(before, name + after);
      UnquotedUpTo(name, after);
    }
  }

  lemma NamesIff(trimmed: string, name: string)
    ensures NamesPackage(trimmed, name) <==> "name = " <= trimmed && UnquotedEnd(UnquotedStart(trimmed[7..])) == name
  {
    if "name = " <= trimmed { NameIs(trimmed); }
    if NamesPackage(trimmed, name) {
      var before, after :| AllQuotes(before) && AllQuotes(after) && trimmed == "name = " + before + name + after;
      assert trimmed[..7] == "name = " && trimmed[7..] == before + name + after;
      NamedIs(before, name, after);
    }
  }

  /** A line that may change which section the lines behind it are in. */
  predicate Marks(mask: Mask, line: string) {
    "[" <= Trim(line) || (mask.Lockfile? && "name = " <= Trim(line))
  }

  /** A line that begins a masked section: the workspace package's table, or the name of a member. */
  ghost predicate Begins(mask: Mask, line: string) {
    match mask
    case Manifest => Trim(line) == "[workspace.package]"
    case Lockfile(members) => exists name :: name in members && NamesPackage(Trim(line), name)
  }

  lemma BeginsIff(mask: Mask, before: bool, line: string)
    ensures Begins(mask, line) ==> Marks(mask, line)
    ensures Marks(mask, line) ==> (InSection(mask, before, Trim(line)) <==> Begins(mask, line))
    ensures !Marks(mask, line) ==> InSection(mask, before, Trim(line)) == before
  {
    var t := Trim(line);
    if mask.Lockfile? {
      forall name | NamesPackage(t, name) ensures "name = " <= t && !("[" <= t) && UnquotedEnd(UnquotedStart(t[7..])) == name {
        NamesIff(t, name);
        assert t[0] == "name = "[0];
      }
      if "name = " <= t {
        NamesIff(t, UnquotedEnd(UnquotedStart(t[7..])));
        assert t[0] == "name = "[0];
      }
    } else if t == "[workspace.package]" {
      assert t[..1] == "[";
    }
  }

  /** Line `j` begins a masked section that goes on up to line `n`. */
  ghost predicate SectionFrom(mask: Mask, lines: seq<string>, j: int, n: nat)
    requires n <= |lines|
  {
    0 <= j < n && Begins(mask, lines[j]) && forall k | j < k < n :: !Marks(mask, lines[k])
  }

  ghost predicate InMaskedSection(mask: Mask, lines: seq<string>, n: nat)
    requires n <= |lines|
  {
    exists j :: SectionFrom(mask, lines, j, n)
  }

  /** The version of a masked section: nothing marks another section since the line that began it. */
  ghost predicate IsMaskedVersion(mask: Mask, lines: seq<string>, i: nat)
    requires i < |lines|
  {
    && AssignsVersion(Trim(lines[i]))
    && InMaskedSection(mask, lines, i + 1)
  }

  lemma MarkedSection(mask: Mask, lines: seq<string>, n: nat)
    requires 0 < n <= |lines| && Marks(mask, lines[n - 1])
    ensures InMaskedSection(mask, lines, n) <==> Begins(mask, lines[n - 1])
  {
    forall j | SectionFrom(mask, lines, j, n) ensures j == n - 1 {}
    if Begins(mask, lines[n - 1]) { assert SectionFrom(mask, lines, n - 1, n); }
  }

  lemma UnmarkedSection(mask: Mask, lines: seq<string>, n: nat)
    requires 0 < n <= |lines| && !Marks(mask, lines[n - 1])
    ensures InMaskedSection(mask, lines, n) <==> InMaskedSection(mask, lines, n - 1)
  {
    BeginsIff(mask, false, lines[n - 1]);
    var before := n - 1;
    if j :| SectionFrom(mask, lines, j, before) {
      assert SectionFrom(mask, lines, j, n);
    }
    if j :| SectionFrom(mask, lines, j, n) {
      assert SectionFrom(mask, lines, j, before);
    }
  }

  lemma {:induction false} SectionIff(mask: Mask, lines: seq<string>, n: nat)
    requires n <= |lines|
    ensures SectionAt(mask, lines[..n]) <==> InMaskedSection(mask, lines, n)
  {
    if n > 0 {
      var front, line := lines[..n - 1], lines[n - 1];
      SectionIff(mask, lines, n - 1);
      OneLineOn(mask, lines, n);
      BeginsIff(mask, SectionAt(mask, front), line);
      if Marks(mask, line) { MarkedSection(mask, lines, n); } else { UnmarkedSection(mask, lines, n); }
    }
  }

  lemma OneLineOn(mask: Mask, lines: seq<string>, n: nat)
    requires 0 < n <= |lines|
    ensures SectionAt(mask, lines[..n]) == InSection(mask, SectionAt(mask, lines[..n - 1]), Trim(lines[n - 1]))
  {
    assert lines[..n][..n - 1] == lines[..n - 1] && lines[..n][n - 1] == lines[n - 1];
  }

  /** The lines that a mask hides are exactly the versions of its sections. */
  lemma HiddenIff(mask: Mask, lines: seq<string>, i: nat)
    requires i < |lines|
    ensures Hidden(mask, lines, i) <==> IsMaskedVersion(mask, lines, i)
  {
    SectionIff(mask, lines, i + 1);
    AssignsIff(Trim(lines[i]));
  }

  // ---------------------------------------------------------------------------------------
  // What the comparison sees
  // ---------------------------------------------------------------------------------------

  /** The lines of a text: none holds a line feed, and each followed by one they make up the text. */
  ghost predicate AreLines(lines: seq<string>, text: string) {
    (forall l | l in lines :: '\n' !in l) && Unlines(lines) == Ended(text)
  }

  /** Line for line and character for character the same, except where both have the version of a masked section. */
  ghost predicate OnlyVersionsDiffer(mask: Mask, x: string, y: string) {
    exists a, b :: AreLines(a, x) && AreLines(b, y) && SameElsewhere(mask, a, b)
  }

  ghost predicate SameElsewhere(mask: Mask, a: seq<string>, b: seq<string>) {
    && |a| == |b|
    && forall i | 0 <= i < |a| :: a[i] == b[i] || (IsMaskedVersion(mask, a, i) && IsMaskedVersion(mask, b, i))
  }

  /** Every text has one way to be made up of lines. */
  lemma LinesAre(lines: seq<string>, text: string)
    ensures AreLines(lines, text) <==> lines == Lines(text)
  {
    LinesHoldText(text);
    if AreLines(lines, text) { UnlinesInjective(lines, Lines(text)); }
  }

  /** Two files mask alike if and only if they differ in nothing but the versions of masked sections. */
  lemma MaskedTextIff(mask: Mask, x: string, y: string)
    ensures Masked(mask, x) == Masked(mask, y) <==> OnlyVersionsDiffer(mask, x, y)
  {
    var a, b := Lines(x), Lines(y);
    LinesAre(a, x);
    LinesAre(b, y);
    MaskedEqualIff(mask, x, y);
    forall i | 0 <= i < |a| { HiddenIff(mask, a, i); }
    forall i | 0 <= i < |b| { HiddenIff(mask, b, i); }
    assert SameButVersions(mask, a, b) <==> SameElsewhere(mask, a, b);
    if c, d :| AreLines(c, x) && AreLines(d, y) && SameElsewhere(mask, c, d) {
      LinesAre(c, x);
      LinesAre(d, y);
    }
  }
}
