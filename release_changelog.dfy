/**
 * The changelog text of the release command: the built-in formatter
 * (`format_git_cliff_compatible_changelog`) and the trimming of a changelog
 * rendered by git-cliff down to its release section (`extract_release_section`).
 */
module ReleaseChangelog {
  import opened Text

  const Placeholder := "No changes since last release"
  const BreakingHeading := "### \U{26A0} BREAKING CHANGES"
  const FeaturesHeading := "### Features"
  const FixesHeading := "### Bug Fixes"
  const OtherHeading := "### Other Changes"

  /** One `- entry` line per entry, in order. */
  function Bullets(entries: seq<string>): string
    decreases |entries|
  {
    if entries == [] then []
    else Bullets(entries[..|entries| - 1]) + "- " + entries[|entries| - 1] + "\n"
  }

  /** A heading, a blank line, the bullets and a blank line; nothing for no entries. */
  function Section(heading: string, entries: seq<string>): string
  {
    if entries == [] then [] else heading + "\n\n" + Bullets(entries) + "\n"
  }

  /** `changelog` followed by one more section. */
  function WithSection(changelog: string, heading: string, entries: seq<string>): string
  {
    changelog + Section(heading, entries)
  }

  /** Sections one after the other, each a heading with its entries. */
  function Render(sections: seq<(string, seq<string>)>): string
    decreases |sections|
  {
    if sections == [] then []
    else
      var last := sections[|sections| - 1];
      WithSection(Render(sections[..|sections| - 1]), last.0, last.1)
  }

  /** The four sections in their fixed order, before trailing whitespace is trimmed. */
  function RawChangelog(breaking: seq<string>, features: seq<string>, fixes: seq<string>, other: seq<string>): string
  {
    Render([(BreakingHeading, breaking), (FeaturesHeading, features), (FixesHeading, fixes), (OtherHeading, other)])
  }

  /** The four sections, appended one by one. */
  lemma RawChangelogSections(breaking: seq<string>, features: seq<string>, fixes: seq<string>, other: seq<string>)
    ensures RawChangelog(breaking, features, fixes, other)
      == WithSection(WithSection(WithSection(WithSection("", BreakingHeading, breaking),
        FeaturesHeading, features), FixesHeading, fixes), OtherHeading, other)
  {
    var all := [(BreakingHeading, breaking), (FeaturesHeading, features), (FixesHeading, fixes), (OtherHeading, other)];
    assert all[..3][..2][..1][..0] == [];
    assert Render(all[..1]) == WithSection("", BreakingHeading, breaking);
    assert Render(all[..2]) == WithSection(Render(all[..1]), FeaturesHeading, features) by {
      assert all[..2][..1] == all[..1];
    }
    assert Render(all[..3]) == WithSection(Render(all[..2]), FixesHeading, fixes) by {
      assert all[..3][..2] == all[..2];
    }
    assert all[..4] == all;
  }

  /** What the formatter returns. */
  function Changelog(breaking: seq<string>, features: seq<string>, fixes: seq<string>, other: seq<string>): string
  {
    var raw := RawChangelog(breaking, features, fixes, other);
    if raw == [] then Placeholder else TrimEnd(raw)
  }

  /** Appends one section, one pushed line per entry. */
  method AppendSection(changelog: string, heading: string, entries: seq<string>) returns (r: string)
    ensures r == WithSection(changelog, heading, entries)
  {
    r := changelog;
    if entries != [] {
      r := r + heading + "\n\n";
      for i := 0 to |entries|
        invariant r == changelog + heading + "\n\n" + Bullets(entries[..i])
      {
        assert entries[..i + 1][..i] == entries[..i];
        r := r + "- " + entries[i] + "\n";
      }
      assert entries[..|entries|] == entries;
      r := r + "\n";
    }
  }

  /** `format_git_cliff_compatible_changelog`. */
  method FormatChangelog(breaking: seq<string>, features: seq<string>, fixes: seq<string>, other: seq<string>)
    returns (changelog: string)
    ensures changelog == Changelog(breaking, features, fixes, other)
  {
    changelog := "";
    changelog := AppendSection(changelog, BreakingHeading, breaking);
    changelog := AppendSection(changelog, FeaturesHeading, features);
    changelog := AppendSection(changelog, FixesHeading, fixes);
    changelog := AppendSection(changelog, OtherHeading, other);
    RawChangelogSections(breaking, features, fixes, other);
    if changelog == [] {
      changelog := Placeholder;
    } else {
      changelog := TrimEnd(changelog);
    }
  }

  lemma SectionStartsWithHeading(changelog: string, heading: string, entries: seq<string>)
    requires changelog == [] && entries != []
    ensures StartsWith(WithSection(changelog, heading, entries), heading)
  {
    assert WithSection(changelog, heading, entries)[..|heading|] == heading;
  }

  lemma AppendKeepsPrefix(changelog: string, heading: string, entries: seq<string>, p: string)
    requires StartsWith(changelog, p)
    ensures StartsWith(WithSection(changelog, heading, entries), p)
  {
    assert WithSection(changelog, heading, entries)[..|p|] == changelog[..|p|];
  }

  /** Before trimming, the text opens with the heading of the first section that has entries. */
  lemma RawLeadingSection(breaking: seq<string>, features: seq<string>, fixes: seq<string>, other: seq<string>)
    ensures breaking != [] ==> StartsWith(RawChangelog(breaking, features, fixes, other), BreakingHeading)
    ensures breaking == [] && features != [] ==> StartsWith(RawChangelog(breaking, features, fixes, other), FeaturesHeading)
    ensures breaking == [] && features == [] && fixes != [] ==> StartsWith(RawChangelog(breaking, features, fixes, other), FixesHeading)
    ensures breaking == [] && features == [] && fixes == [] && other != [] ==> StartsWith(RawChangelog(breaking, features, fixes, other), OtherHeading)
  {
    RawChangelogSections(breaking, features, fixes, other);
    var w1 := WithSection("", BreakingHeading, breaking);
    var w2 := WithSection(w1, FeaturesHeading, features);
    var w3 := WithSection(w2, FixesHeading, fixes);
    var p := if breaking != [] then BreakingHeading else if features != [] then FeaturesHeading
      else if fixes != [] then FixesHeading else OtherHeading;
    if breaking != [] {
      SectionStartsWithHeading("", BreakingHeading, breaking);
      AppendKeepsPrefix(w1, FeaturesHeading, features, p);
      AppendKeepsPrefix(w2, FixesHeading, fixes, p);
      AppendKeepsPrefix(w3, OtherHeading, other, p);
    } else if features != [] {
      SectionStartsWithHeading(w1, FeaturesHeading, features);
      AppendKeepsPrefix(w2, FixesHeading, fixes, p);
      AppendKeepsPrefix(w3, OtherHeading, other, p);
    } else if fixes != [] {
      SectionStartsWithHeading(w2, FixesHeading, fixes);
      AppendKeepsPrefix(w3, OtherHeading, other, p);
    } else if other != [] {
      SectionStartsWithHeading(w3, OtherHeading, other);
    }
  }

  /** The changelog opens with the heading of the first section that has entries. */
  lemma ChangelogLeadingSection(breaking: seq<string>, features: seq<string>, fixes: seq<string>, other: seq<string>)
    ensures breaking != [] ==> StartsWith(Changelog(breaking, features, fixes, other), BreakingHeading)
    ensures breaking == [] && features != [] ==> StartsWith(Changelog(breaking, features, fixes, other), FeaturesHeading)
    ensures breaking == [] && features == [] && fixes != [] ==> StartsWith(Changelog(breaking, features, fixes, other), FixesHeading)
    ensures breaking == [] && features == [] && fixes == [] && other != [] ==> StartsWith(Changelog(breaking, features, fixes, other), OtherHeading)
  {
    RawLeadingSection(breaking, features, fixes, other);
    var raw := RawChangelog(breaking, features, fixes, other);
    if breaking != [] {
      TrimEndKeepsPrefix(raw, BreakingHeading);
    } else if features != [] {
      TrimEndKeepsPrefix(raw, FeaturesHeading);
    } else if fixes != [] {
      TrimEndKeepsPrefix(raw, FixesHeading);
    } else if other != [] {
      TrimEndKeepsPrefix(raw, OtherHeading);
    }
  }

  lemma PrefixHead(s: string, p: string)
    requires StartsWith(s, p) && p != []
    ensures s != [] && s[0] == p[0]
  {
    assert s[..|p|][0] == p[0];
  }

  /** The placeholder is returned exactly when there is nothing to list. */
  lemma ChangelogPlaceholderIff(breaking: seq<string>, features: seq<string>, fixes: seq<string>, other: seq<string>)
    ensures Changelog(breaking, features, fixes, other) == Placeholder
      <==> breaking == [] && features == [] && fixes == [] && other == []
  {
    RawChangelogSections(breaking, features, fixes, other);
    if breaking != [] || features != [] || fixes != [] || other != [] {
      ChangelogLeadingSection(breaking, features, fixes, other);
      var r := Changelog(breaking, features, fixes, other);
      var h := if breaking != [] then BreakingHeading else if features != [] then FeaturesHeading
        else if fixes != [] then FixesHeading else OtherHeading;
      assert StartsWith(r, h);
      PrefixHead(r, h);
      assert r[0] == '#';
    }
  }

  /** The text of one feature and one fix section, without the trailing blank line. */
  function FeatureAndFixText(feature: string, fix: string): string
  {
    FeaturesHeading + "\n\n- " + feature + "\n\n" + FixesHeading + "\n\n- " + fix
  }

  lemma RawFeatureAndFix(feature: string, fix: string)
    ensures RawChangelog([], [feature], [fix], []) == FeatureAndFixText(feature, fix) + "\n\n"
  {
    assert Bullets([feature]) == "- " + feature + "\n" by {
      assert [feature][..0] == [];
    }
    assert Bullets([fix]) == "- " + fix + "\n" by {
      assert [fix][..0] == [];
    }
    RawChangelogSections([], [feature], [fix], []);
    var f := Section(FeaturesHeading, [feature]);
    var x := Section(FixesHeading, [fix]);
    assert RawChangelog([], [feature], [fix], []) == f + x;
    assert f == FeaturesHeading + "\n\n- " + feature + "\n\n";
    assert x == FixesHeading + "\n\n- " + fix + "\n\n";
  }

  lemma TrimFeatureAndFix(feature: string, fix: string)
    requires fix != [] && !IsWhitespace(fix[|fix| - 1])
    ensures TrimEnd(FeatureAndFixText(feature, fix) + "\n\n") == FeatureAndFixText(feature, fix)
  {
    var text := FeatureAndFixText(feature, fix);
    assert text[|text| - 1] == fix[|fix| - 1];
    TrimEndOfPadded(text, "\n\n");
  }

  /** One feature and one fix: two sections, the trailing blank lines trimmed. */
  lemma ChangelogFeatureAndFix(feature: string, fix: string)
    requires fix != [] && !IsWhitespace(fix[|fix| - 1])
    ensures Changelog([], [feature], [fix], []) == FeatureAndFixText(feature, fix)
  {
    RawFeatureAndFix(feature, fix);
    TrimFeatureAndFix(feature, fix);
  }

  /** A line that opens a release section of a git-cliff changelog. */
  predicate IsReleaseHeader(line: string)
  {
    StartsWith(line, "## [") || StartsWith(line, "## unreleased")
  }

  /** The index of the first release header, or the number of lines if there is none. */
  function FirstHeader(lines: seq<string>): (k: nat)
    ensures k <= |lines|
    ensures k < |lines| ==> IsReleaseHeader(lines[k])
    ensures forall j :: 0 <= j < k ==> !IsReleaseHeader(lines[j])
    decreases |lines|
  {
    if lines == [] then 0
    else if IsReleaseHeader(lines[0]) then 0
    else 1 + FirstHeader(lines[1..])
  }

  /** What `extract_release_section` returns. */
  function ReleaseSection(text: string): string
  {
    var lines := Lines(text);
    var k := FirstHeader(lines);
    var start := if k < |lines| then k else 0;
    if start < |lines| then Trim(Join(lines[start..], "\n")) else Trim(text)
  }

  /** `extract_release_section`: skip the lines before the first release header. */
  method ExtractReleaseSection(text: string) returns (section: string)
    ensures section == ReleaseSection(text)
  {
    var lines := Lines(text);
    var startIndex := 0;
    var i := 0;
    while i < |lines|
      invariant 0 <= i <= |lines|
      invariant forall j :: 0 <= j < i ==> !IsReleaseHeader(lines[j])
      invariant startIndex == 0
    {
      if IsReleaseHeader(lines[i]) {
        startIndex := i;
        break;
      }
      i := i + 1;
    }
    assert startIndex == (if FirstHeader(lines) < |lines| then FirstHeader(lines) else 0);
    if startIndex < |lines| {
      section := Trim(Join(lines[startIndex..], "\n"));
    } else {
      section := Trim(text);
    }
  }

  /** With a release header in the text, the section begins at the first one. */
  lemma ReleaseSectionAtHeader(text: string)
    requires FirstHeader(Lines(text)) < |Lines(text)|
    ensures var lines := Lines(text);
      ReleaseSection(text) == Trim(Join(lines[FirstHeader(lines)..], "\n"))
    ensures StartsWith(ReleaseSection(text), "## [") || StartsWith(ReleaseSection(text), "## unreleased")
  {
    var lines := Lines(text);
    var k := FirstHeader(lines);
    var joined := Join(lines[k..], "\n");
    JoinStartsWithFirst(lines[k..], "\n");
    var marker := if StartsWith(lines[k], "## [") then "## [" else "## unreleased";
    assert StartsWith(joined, marker) by {
      assert joined[..|lines[k]|][..|marker|] == lines[k][..|marker|];
    }
    TrimKeepsPrefix(joined, marker);
  }

  /** Without a release header, the whole text is kept, trimmed. */
  lemma ReleaseSectionWithoutHeader(text: string)
    requires forall i :: 0 <= i < |Lines(text)| ==> !IsReleaseHeader(Lines(text)[i])
    ensures ReleaseSection(text) == Trim(text)
  {
    var lines := Lines(text);
    if lines != [] {
      assert lines[0..] == lines;
      JoinLines(text);
      if Join(lines, "\n") != text {
        var init := text[..|text| - 1];
        assert text == init + ['\n'];
        TrimAppendWhitespace(init, '\n');
      }
    }
  }
}
