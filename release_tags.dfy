/**
 * `get_last_release_tag`: of the repository's tags, those that parse as a
 * semantic version once one leading `v` is stripped; sorted by version with a
 * stable sort, the last one is the last release.
 */
module ReleaseTags {
  import opened Wrappers
  import opened SemVer

  /** `tag.strip_prefix('v').unwrap_or(tag)`. */
  function StripV(tag: string): (r: string)
    ensures tag != [] && tag[0] == 'v' ==> [tag[0]] + r == tag
    ensures !(tag != [] && tag[0] == 'v') ==> r == tag
  {
    if tag != [] && tag[0] == 'v' then tag[1..] else tag
  }

  /** The version a tag names, if it names one. */
  function TagVersion(tag: string): Option<Version>
  {
    Parse(StripV(tag))
  }

  /**
   * The tags that name a version, with their versions, in listing order: what the
   * first loop keeps when `version` is `TagVersion`.
   */
  function VersionTags(tags: seq<string>, version: string -> Option<Version>): seq<(string, Version)>
    decreases |tags|
  {
    if tags == [] then []
    else
      var last := tags[|tags| - 1];
      VersionTags(tags[..|tags| - 1], version)
        + match version(last) case Some(v) => [(last, v)] case None => []
  }

  lemma {:induction false} VersionTagsSpec(tags: seq<string>, version: string -> Option<Version>)
    ensures forall p :: p in VersionTags(tags, version) <==> p.0 in tags && version(p.0) == Some(p.1)
    decreases |tags|
  {
    if tags != [] {
      var init := tags[..|tags| - 1];
      VersionTagsSpec(init, version);
      assert tags == init + [tags[|tags| - 1]];
    }
  }

  /**
   * The entry a stable sort by version puts last: the last one, in listing order,
   * among those with the greatest version.
   */
  function LastGreatest(ps: seq<(string, Version)>): (r: Option<(string, Version)>)
    ensures r.Some? ==> r.value in ps
    decreases |ps|
  {
    if ps == [] then None
    else
      var best := LastGreatest(ps[..|ps| - 1]);
      var last := ps[|ps| - 1];
      if best.None? || LessEq(best.value.1, last.1) then Some(last) else best
  }

  /** What `get_last_release_tag` returns. */
  function LastReleaseTag(tags: seq<string>): Option<string>
  {
    match LastGreatest(VersionTags(tags, TagVersion))
    case None => None
    case Some(p) => Some(p.0)
  }

  /** The first loop of `get_last_release_tag`: keep, in order, each tag that `version` accepts. */
  method CollectVersionTags(tags: seq<string>, version: string -> Option<Version>) returns (versionTags: seq<(string, Version)>)
    ensures versionTags == VersionTags(tags, version)
  {
    versionTags := [];
    for i := 0 to |tags|
      invariant versionTags == VersionTags(tags[..i], version)
    {
      assert tags[..i + 1][..i] == tags[..i];
      var parsed := version(tags[i]);
      if parsed.Some? {
        versionTags := versionTags + [(tags[i], parsed.value)];
      }
    }
    assert tags[..|tags|] == tags;
  }

  /**
   * `get_last_release_tag` on the listed tag names. Each kept tag carries the
   * version it parsed to, which is the one the sort's comparator parses again.
   */
  method GetLastReleaseTag(tags: seq<string>) returns (last: Option<string>)
    ensures last == LastReleaseTag(tags)
  {
    var versionTags := CollectVersionTags(tags, TagVersion);
    var best := LastOfGreatest(versionTags);
    last := if best.Some? then Some(best.value.0) else None;
  }

  /** The stable sort by version followed by `last()`: the last entry of greatest version. */
  method LastOfGreatest(versionTags: seq<(string, Version)>) returns (best: Option<(string, Version)>)
    ensures best == LastGreatest(versionTags)
  {
    best := None;
    for i := 0 to |versionTags|
      invariant best == LastGreatest(versionTags[..i])
    {
      assert versionTags[..i + 1][..i] == versionTags[..i];
      if best.None? || LessEq(best.value.1, versionTags[i].1) {
        best := Some(versionTags[i]);
      }
    }
    assert versionTags[..|versionTags|] == versionTags;
  }

  lemma LessEqTotal(a: Version, b: Version)
    ensures LessEq(a, b) || Less(b, a)
  {
  }

  lemma LessEqTrans(a: Version, b: Version, c: Version)
    ensures LessEq(a, b) && LessEq(b, c) ==> LessEq(a, c)
  {
  }

  /** Entry k has the greatest version, and every entry after it a smaller one. */
  predicate IsLastGreatest(ps: seq<(string, Version)>, k: nat)
  {
    && k < |ps|
    && (forall j :: 0 <= j < |ps| ==> LessEq(ps[j].1, ps[k].1))
    && (forall j :: k < j < |ps| ==> Less(ps[j].1, ps[k].1))
  }

  /** An entry at least as great as the greatest so far takes over. */
  lemma LastTakesOver(ps: seq<(string, Version)>, k: nat)
    requires ps != [] && IsLastGreatest(ps[..|ps| - 1], k)
    requires LessEq(ps[k].1, ps[|ps| - 1].1)
    ensures IsLastGreatest(ps, |ps| - 1)
  {
    var n := |ps| - 1;
    forall j | 0 <= j < n
      ensures LessEq(ps[j].1, ps[n].1)
    {
      assert ps[..n][j] == ps[j];
      LessEqTrans(ps[j].1, ps[k].1, ps[n].1);
    }
  }

  /** An entry smaller than the greatest so far leaves it in place. */
  lemma BestStays(ps: seq<(string, Version)>, k: nat)
    requires ps != [] && IsLastGreatest(ps[..|ps| - 1], k)
    requires Less(ps[|ps| - 1].1, ps[k].1)
    ensures IsLastGreatest(ps, k)
  {
    var n := |ps| - 1;
    forall j | 0 <= j < n
      ensures ps[..n][j] == ps[j]
    {
    }
  }

  /**
   * There is a greatest entry exactly when there are entries; it is one of them,
   * no entry has a greater version, and every entry after it has a smaller one.
   */
  lemma {:induction false} LastGreatestSpec(ps: seq<(string, Version)>)
    ensures LastGreatest(ps).None? <==> ps == []
    ensures LastGreatest(ps).Some? ==> exists k: nat :: IsLastGreatest(ps, k) && ps[k] == LastGreatest(ps).value
    decreases |ps|
  {
    if ps != [] {
      var n := |ps| - 1;
      var init := ps[..n];
      LastGreatestSpec(init);
      var best := LastGreatest(init);
      if best.None? {
        assert IsLastGreatest(ps, n);
      } else {
        var k: nat :| IsLastGreatest(init, k) && init[k] == best.value;
        assert init[k] == ps[k];
        if LessEq(best.value.1, ps[n].1) {
          LastTakesOver(ps, k);
        } else {
          LessEqTotal(best.value.1, ps[n].1);
          BestStays(ps, k);
        }
      }
    }
  }

  /** `LastReleaseTagSpec` for any way of reading a version from a tag. */
  lemma LastOfVersionTags(tags: seq<string>, version: string -> Option<Version>)
    ensures LastGreatest(VersionTags(tags, version)).None? <==> forall t :: t in tags ==> version(t).None?
    ensures LastGreatest(VersionTags(tags, version)).Some? ==>
      var r := LastGreatest(VersionTags(tags, version)).value.0;
      && r in tags && version(r).Some?
      && forall t :: t in tags && version(t).Some? ==> LessEq(version(t).value, version(r).value)
  {
    VersionTagsSpec(tags, version);
    var ps := VersionTags(tags, version);
    LastGreatestSpec(ps);
    forall t | t in tags && version(t).Some?
      ensures ps != []
    {
      assert (t, version(t).value) in ps;
    }
    if ps != [] {
      var best := LastGreatest(ps).value;
      var k: nat :| IsLastGreatest(ps, k) && ps[k] == best;
      forall t | t in tags && version(t).Some?
        ensures LessEq(version(t).value, version(best.0).value)
      {
        var p := (t, version(t).value);
        assert p in ps;
        var j :| 0 <= j < |ps| && ps[j] == p;
      }
    }
  }

  /**
   * No tag names a version: no release. Otherwise the last release is a tag that
   * names a version, and no tag names a greater one.
   */
  lemma LastReleaseTagSpec(tags: seq<string>)
    ensures LastReleaseTag(tags).None? <==> forall t :: t in tags ==> TagVersion(t).None?
    ensures LastReleaseTag(tags).Some? ==>
      var r := LastReleaseTag(tags).value;
      && r in tags && TagVersion(r).Some?
      && forall t :: t in tags && TagVersion(t).Some? ==> LessEq(TagVersion(t).value, TagVersion(r).value)
  {
    LastOfVersionTags(tags, TagVersion);
  }

  /** A tag `vX.Y.Z` of single digits names the version X.Y.Z. */
  lemma DigitTagVersion(major: nat, minor: nat, patch: nat, tag: string)
    requires major < 10 && minor < 10 && patch < 10
    requires tag == ['v', DigitChar(major), '.', DigitChar(minor), '.', DigitChar(patch)]
    ensures TagVersion(tag) == Some(Version(major, minor, patch))
  {
    var v := Version(major, minor, patch);
    ParseToString(v);
    assert StripV(tag) == tag[1..];
    assert ToString(v) == tag[1..];
  }

  /** A tag with no dot is not a version. */
  lemma DotlessTagVersion(tag: string)
    requires '.' !in tag && (tag == [] || tag[0] != 'v')
    ensures TagVersion(tag).None?
  {
    assert Text.SplitOn(tag, '.') == [tag];
  }

  lemma VersionTagsSnoc(init: seq<string>, t: string, version: string -> Option<Version>)
    ensures VersionTags(init + [t], version) ==
      VersionTags(init, version) + match version(t) case Some(v) => [(t, v)] case None => []
  {
    assert (init + [t])[..|init + [t]| - 1] == init;
  }

  lemma LastGreatestSnoc(init: seq<(string, Version)>, p: (string, Version))
    ensures var best := LastGreatest(init);
      LastGreatest(init + [p]) == if best.None? || LessEq(best.value.1, p.1) then Some(p) else best
  {
    assert (init + [p])[..|init + [p]| - 1] == init;
  }

  lemma VersionTagsKeep(init: seq<string>, t: string, v: Version, version: string -> Option<Version>)
    requires version(t) == Some(v)
    ensures VersionTags(init + [t], version) == VersionTags(init, version) + [(t, v)]
  {
    VersionTagsSnoc(init, t, version);
  }

  lemma VersionTagsSkip(init: seq<string>, t: string, version: string -> Option<Version>)
    requires version(t).None?
    ensures VersionTags(init + [t], version) == VersionTags(init, version)
  {
    VersionTagsSnoc(init, t, version);
  }

  lemma VersionTagsOfFour(a: string, b: string, c: string, d: string, va: Version, vb: Version, vc: Version,
                          version: string -> Option<Version>)
    requires version(a) == Some(va) && version(b) == Some(vb) && version(c) == Some(vc)
    requires version(d).None?
    ensures VersionTags([a, b, c, d], version) == [(a, va), (b, vb), (c, vc)]
  {
    VersionTagsKeep([], a, va, version);
    assert [] + [a] == [a];
    VersionTagsKeep([a], b, vb, version);
    assert [a] + [b] == [a, b];
    VersionTagsKeep([a, b], c, vc, version);
    assert [a, b] + [c] == [a, b, c];
    VersionTagsSkip([a, b, c], d, version);
    assert [a, b, c] + [d] == [a, b, c, d];
  }

  lemma LastGreatestOfThree(pa: (string, Version), pb: (string, Version), pc: (string, Version))
    requires Less(pa.1, pb.1) && Less(pc.1, pb.1)
    ensures LastGreatest([pa, pb, pc]) == Some(pb)
  {
    LastGreatestSnoc([], pa);
    assert [] + [pa] == [pa];
    LastGreatestSnoc([pa], pb);
    assert [pa] + [pb] == [pa, pb];
    LastGreatestSnoc([pa, pb], pc);
    assert [pa, pb] + [pc] == [pa, pb, pc];
  }

  /** The tags `v0.1.0`, `v0.2.0`, `v0.1.5` and `not-a-version` make `v0.2.0` the last release. */
  lemma LastReleaseTagExample()
    ensures LastReleaseTag(["v0.1.0", "v0.2.0", "v0.1.5", "not-a-version"]) == Some("v0.2.0")
  {
    DotlessTagVersion("not-a-version");
    DigitTagVersion(0, 1, 0, "v0.1.0");
    DigitTagVersion(0, 2, 0, "v0.2.0");
    DigitTagVersion(0, 1, 5, "v0.1.5");
    VersionTagsOfFour("v0.1.0", "v0.2.0", "v0.1.5", "not-a-version", Version(0, 1, 0), Version(0, 2, 0), Version(0, 1, 5), TagVersion);
    LastGreatestOfThree(("v0.1.0", Version(0, 1, 0)), ("v0.2.0", Version(0, 2, 0)), ("v0.1.5", Version(0, 1, 5)));
  }
}
