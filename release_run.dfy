/**
 * The release command (`ReleaseOptions::run`): read the current version, find
 * the last release tag, compute the next version and the changelog from the
 * commits since, then (unless it is a dry run) write the manifest, commit, tag,
 * push when confirmed and publish when asked and confirmed.
 *
 * The repository is given as data: its tag names, the commit each tag peels to,
 * the first-parent line of commits from HEAD, and how `cliff.toml` stands.
 * Prompt answers and the outcome of each subprocess are inputs too.
 */
module ReleaseRun {
  import opened Wrappers
  import opened Toml
  import opened SemVer
  import opened Effects
  import opened ReleaseChangelog
  import opened ReleaseCommits
  import ReleaseTags
  import ReleaseManifest
  import PkgOptions

  /** The flags of `cargo verset release` that the run consults. */
  datatype Options = Options(dryRun: bool, yes: bool, publish: bool, registry: Option<string>)

  /** A commit on the line from HEAD: its id and its message. */
  datatype LogEntry = LogEntry(id: nat, message: string)

  /**
   * What `cliff.toml` configures: how git-cliff processes a commit message
   * (`None` when processing fails and the commit is dropped), and the template
   * that renders one release of the given commits and version.
   */
  datatype CliffConfig = CliffConfig(process: string -> Option<CliffCommit>, render: (seq<CliffCommit>, Version) -> string)

  datatype CliffToml = NoCliffToml | Unloadable | Loaded(config: CliffConfig)

  datatype Repository = Repository(
    tags: seq<string>,
    tagCommit: string -> Option<nat>,
    log: seq<LogEntry>,
    cliff: CliffToml)

  /** The prompt answers, and each subprocess's stderr when it fails (`None` when it succeeds). */
  datatype Outside = Outside(
    confirmPush: bool,
    confirmPublish: bool,
    pushHeadError: Option<string>,
    pushTagsError: Option<string>,
    publishError: Option<string>)

  const NoManifest := "Could not find Cargo.toml in the workspace"
  const NoRepository := "Failed to open git repository. Make sure you're in a git repository"
  const CliffConfigError := "Failed to load cliff.toml configuration"
  const DryRunMessage := "Dry run: No changes were made"

  /**
   * A revwalk from HEAD with the released commit hidden: on a line of commits,
   * the messages of those newer than it, newest first.
   */
  function RevwalkMessages(log: seq<LogEntry>, hidden: Option<nat>): (r: seq<string>)
    ensures |r| <= |log|
    ensures forall i :: 0 <= i < |r| ==> r[i] == log[i].message
    decreases |log|
  {
    if log == [] || (hidden.Some? && log[0].id == hidden.value) then []
    else [log[0].message] + RevwalkMessages(log[1..], hidden)
  }

  /** The walk stops exactly at the released commit: what comes before it, and nothing of it or after. */
  lemma {:induction false} RevwalkStopsAtRelease(log: seq<LogEntry>, k: nat)
    requires k < |log| && forall i :: 0 <= i < k ==> log[i].id != log[k].id
    ensures |RevwalkMessages(log, Some(log[k].id))| == k
    decreases k
  {
    if k > 0 {
      RevwalkStopsAtRelease(log[1..], k - 1);
    }
  }

  /**
   * When the hidden commit is not on the modelled line, this model's walk returns
   * every commit of the line. git's `hide` would also hide that commit's
   * ancestors, which this model leaves out.
   */
  lemma {:induction false} RevwalkWithoutRelease(log: seq<LogEntry>, hidden: Option<nat>)
    requires hidden.None? || forall i :: 0 <= i < |log| ==> log[i].id != hidden.value
    ensures |RevwalkMessages(log, hidden)| == |log|
    decreases |log|
  {
    if log != [] {
      RevwalkWithoutRelease(log[1..], hidden);
    }
  }

  /**
   * git-cliff's commits from HEAD with the commit the last release tag points at
   * filtered out: every other commit stays, the already released ones included.
   */
  function CliffLog(log: seq<LogEntry>, released: Option<nat>): (r: seq<LogEntry>)
    ensures forall e :: e in r <==> e in log && (released.None? || e.id != released.value)
    decreases |log|
  {
    if log == [] then []
    else
      var rest := CliffLog(log[1..], released);
      assert forall e :: e in log <==> e == log[0] || e in log[1..];
      if released.Some? && log[0].id == released.value then rest else [log[0]] + rest
  }

  /** `filter_map` of `commit.process(&config.git)`: the processed commits, in order. */
  function Processed(log: seq<LogEntry>, process: string -> Option<CliffCommit>): (r: seq<CliffCommit>)
    ensures |r| <= |log|
    ensures forall c :: c in r ==> exists i :: 0 <= i < |log| && process(log[i].message) == Some(c)
    decreases |log|
  {
    if log == [] then []
    else
      var rest := Processed(log[1..], process);
      assert forall c :: c in rest ==> exists i :: 1 <= i < |log| && process(log[i].message) == Some(c) by {
        forall c | c in rest
          ensures exists i :: 1 <= i < |log| && process(log[i].message) == Some(c)
        {
          var i :| 0 <= i < |log[1..]| && process(log[1..][i].message) == Some(c);
          assert log[i + 1] == log[1..][i];
        }
      }
      match process(log[0].message)
      case Some(c) => [c] + rest
      case None => rest
  }

  /** The commit the last release tag peels to, if the tag is found and peels to one. */
  function ReleasedCommit(repo: Repository, lastTag: Option<string>): Option<nat>
  {
    match lastTag
    case None => None
    case Some(tag) => repo.tagCommit(tag)
  }

  /** `generate_changelog_and_version`: the changelog and the next version, or why they cannot be made. */
  function Generated(repo: Repository, lastTag: Option<string>, current: Version): Result<(string, Version), string>
  {
    var released := ReleasedCommit(repo, lastTag);
    match repo.cliff
    case NoCliffToml =>
      var messages := RevwalkMessages(repo.log, released);
      Ok((Changelog(Selected(messages, BreakingChange), Selected(messages, Feature), Selected(messages, Fix), []),
          Bumped(current, BumpFor(messages))))
    case Unloadable => Err(CliffConfigError)
    case Loaded(config) =>
      var commits := Processed(CliffLog(repo.log, released), config.process);
      var next := Bumped(current, CliffBump(commits));
      Ok((ReleaseSection(config.render(commits, next)), next))
  }

  /** `generate_changelog_and_version`, with git-cliff when `cliff.toml` exists and the built-in walk otherwise. */
  method GenerateChangelogAndVersion(repo: Repository, lastTag: Option<string>, current: Version)
    returns (r: Result<(string, Version), string>)
    ensures r == Generated(repo, lastTag, current)
  {
    var released := ReleasedCommit(repo, lastTag);
    match repo.cliff {
      case NoCliffToml =>
        var changelog, next := GenerateCompatibleChangelog(RevwalkMessages(repo.log, released), current, false);
        r := Ok((changelog, next));
      case Unloadable =>
        r := Err(CliffConfigError);
      case Loaded(config) =>
        var commits := Processed(CliffLog(repo.log, released), config.process);
        var next := ComputeVersionFromCliffCommits(commits, current);
        var changelog := ExtractReleaseSection(config.render(commits, next));
        r := Ok((changelog, next));
    }
  }

  /** What the run has ready before the dry-run check: the parsed manifest, both versions and the changelog. */
  datatype Plan = Plan(doc: Document, current: Version, next: Version, changelog: string)

  /** Everything the run does before the dry-run check, in the source's order of failure. */
  function Prepare(manifest: Manifest, repoOpens: bool, repo: Repository): Result<Plan, string>
  {
    if manifest.Missing? then Err(NoManifest)
    else if !repoOpens then Err(NoRepository)
    else if manifest.Malformed? then Err(manifest.error)
    else
      match ReleaseManifest.CurrentVersion(manifest.doc)
      case Err(e) => Err(e)
      case Ok(current) =>
        match Generated(repo, ReleaseTags.LastReleaseTag(repo.tags), current)
        case Err(e) => Err(e)
        case Ok((changelog, next)) => Ok(Plan(manifest.doc, current, next, changelog))
  }

  function CommitMessage(next: Version, changelog: string): string
  {
    "release: v" + ToString(next) + "\n\n" + changelog
  }

  function TagName(next: Version): string
  {
    "v" + ToString(next)
  }

  /** `should_push`: `--yes`, or the answer to the prompt. */
  predicate Pushing(opts: Options, outside: Outside)
  {
    opts.yes || outside.confirmPush
  }

  /** `self.publish && self.should_publish()`: the prompt is only reached with `--publish`. */
  predicate Publishing(opts: Options, outside: Outside)
  {
    opts.publish && (opts.yes || outside.confirmPublish)
  }

  /** The pushes and the publication after the tag, in order, and how the run ends. */
  function Distribute(opts: Options, outside: Outside): (Outcome, seq<Effect>)
  {
    if Pushing(opts, outside) && outside.pushHeadError.Some? then
      (Failed("Failed to push commits: " + outside.pushHeadError.value), [PushHead])
    else if Pushing(opts, outside) && outside.pushTagsError.Some? then
      (Failed("Failed to push tags: " + outside.pushTagsError.value), [PushHead, PushTags])
    else
      var pushes := if Pushing(opts, outside) then [PushHead, PushTags] else [];
      if !Publishing(opts, outside) then (Done, pushes)
      else if outside.publishError.Some? then
        (Failed("Failed to publish crate: " + outside.publishError.value), pushes + [Publish(opts.registry)])
      else (Done, pushes + [Publish(opts.registry)])
  }

  /** The manifest the release writes: root `package.version` set to the next version. */
  function Written(p: Plan): Document
  {
    SetAt(p.doc, ReleaseManifest.RootVersionPath, PkgOptions.VersionValue(p.next))
  }

  /** What `run` does, effect by effect, and how it ends. */
  function Release(opts: Options, manifest: Manifest, repoOpens: bool, repo: Repository, outside: Outside): (Outcome, seq<Effect>)
  {
    match Prepare(manifest, repoOpens, repo)
    case Err(e) => (Failed(e), [])
    case Ok(p) =>
      if opts.dryRun then (Done, [Info(DryRunMessage)])
      else
        var after := Distribute(opts, outside);
        (after.0, [WriteManifest(Written(p)), Commit(CommitMessage(p.next, p.changelog)), Tag(TagName(p.next))] + after.1)
  }

  /** `push_changes` and `publish_crate`, each behind its confirmation. */
  method PushAndPublish(opts: Options, outside: Outside) returns (outcome: Outcome, effects: seq<Effect>)
    ensures (outcome, effects) == Distribute(opts, outside)
  {
    effects := [];
    if Pushing(opts, outside) {
      effects := [PushHead];
      if outside.pushHeadError.Some? {
        return Failed("Failed to push commits: " + outside.pushHeadError.value), effects;
      }
      effects := [PushHead, PushTags];
      if outside.pushTagsError.Some? {
        return Failed("Failed to push tags: " + outside.pushTagsError.value), effects;
      }
    }
    if Publishing(opts, outside) {
      effects := effects + [Publish(opts.registry)];
      if outside.publishError.Some? {
        return Failed("Failed to publish crate: " + outside.publishError.value), effects;
      }
    }
    return Done, effects;
  }

  /** Everything before the dry-run check, as `run` does it. */
  method Preparation(manifest: Manifest, repoOpens: bool, repo: Repository) returns (r: Result<Plan, string>)
    ensures r == Prepare(manifest, repoOpens, repo)
  {
    if manifest.Missing? {
      return Err(NoManifest);
    }
    if !repoOpens {
      return Err(NoRepository);
    }
    if manifest.Malformed? {
      return Err(manifest.error);
    }
    var current := ReleaseManifest.CurrentVersion(manifest.doc);
    if current.Err? {
      return Err(current.error);
    }
    var lastTag := ReleaseTags.GetLastReleaseTag(repo.tags);
    var generated := GenerateChangelogAndVersion(repo, lastTag, current.value);
    if generated.Err? {
      return Err(generated.error);
    }
    var (changelog, next) := generated.value;
    return Ok(Plan(manifest.doc, current.value, next, changelog));
  }

  /** `ReleaseOptions::run`. */
  method Run(opts: Options, manifest: Manifest, repoOpens: bool, repo: Repository, outside: Outside)
    returns (outcome: Outcome, effects: seq<Effect>)
    ensures (outcome, effects) == Release(opts, manifest, repoOpens, repo, outside)
  {
    var prepared := Preparation(manifest, repoOpens, repo);
    if prepared.Err? {
      return Failed(prepared.error), [];
    }
    var p := prepared.value;
    if opts.dryRun {
      return Done, [Info(DryRunMessage)];
    }
    // The version was read from the same place, so `update_version` finds it.
    ReleaseManifest.UpdateThenRead(p.doc, p.next);
    var updated := ReleaseManifest.UpdateVersion(p.doc, p.next);
    assert updated == Ok(Written(p));
    var rest;
    outcome, rest := PushAndPublish(opts, outside);
    effects := [WriteManifest(updated.value), Commit(CommitMessage(p.next, p.changelog)), Tag(TagName(p.next))] + rest;
  }

  /** A dry run changes nothing, and it succeeds exactly when the release could be prepared. */
  lemma DryRunChangesNothing(opts: Options, manifest: Manifest, repoOpens: bool, repo: Repository, outside: Outside)
    requires opts.dryRun
    ensures NoneMutating(Release(opts, manifest, repoOpens, repo, outside).1)
    ensures Release(opts, manifest, repoOpens, repo, outside).0 == Done <==> Prepare(manifest, repoOpens, repo).Ok?
  {
  }

  /** A prepared release read its current version from the manifest, and its next version is greater. */
  lemma PreparedPlan(manifest: Manifest, repoOpens: bool, repo: Repository)
    requires Prepare(manifest, repoOpens, repo).Ok?
    ensures var p := Prepare(manifest, repoOpens, repo).value;
      && manifest == Present(p.doc) && repoOpens
      && ReleaseManifest.CurrentVersion(p.doc) == Ok(p.current)
      && Less(p.current, p.next)
  {
  }

  /**
   * The manifest a release writes reads back as the next version, and every path
   * that parts ways with root `package.version` is unchanged.
   */
  lemma WrittenManifest(p: Plan, q: seq<string>)
    requires ReleaseManifest.CurrentVersion(p.doc).Ok?
    requires Diverge(ReleaseManifest.RootVersionPath, q)
    ensures ReleaseManifest.CurrentVersion(Written(p)) == Ok(p.next)
    ensures GetAt(Written(p), q) == GetAt(p.doc, q)
  {
    ReleaseManifest.UpdateThenRead(p.doc, p.next);
    ReleaseManifest.UpdateFrame(p.doc, p.next, q);
  }

  /** A release writes the manifest, commits, then tags, before anything else. */
  lemma ReleaseWritesCommitsTags(opts: Options, manifest: Manifest, repoOpens: bool, repo: Repository, outside: Outside)
    requires !opts.dryRun && Prepare(manifest, repoOpens, repo).Ok?
    ensures var p := Prepare(manifest, repoOpens, repo).value;
      var effects := Release(opts, manifest, repoOpens, repo, outside).1;
      && |effects| >= 3
      && effects[0] == WriteManifest(Written(p))
      && effects[1] == Commit(CommitMessage(p.next, p.changelog))
      && effects[2] == Tag(TagName(p.next))
  {
  }

  /**
   * The tag a release creates names the next version; when no existing tag names a
   * version above the current one, it becomes the last release tag.
   */
  lemma NewTagIsLastRelease(tags: seq<string>, current: Version, next: Version)
    requires Less(current, next)
    requires forall t :: t in tags && ReleaseTags.TagVersion(t).Some? ==> LessEq(ReleaseTags.TagVersion(t).value, current)
    ensures ReleaseTags.TagVersion(TagName(next)) == Some(next)
    ensures ReleaseTags.LastReleaseTag(tags + [TagName(next)]) == Some(TagName(next))
  {
    var t := TagName(next);
    ParseToString(next);
    assert ReleaseTags.StripV(t) == ToString(next);
    ReleaseTags.VersionTagsKeep(tags, t, next, ReleaseTags.TagVersion);
    ReleaseTags.LastReleaseTagSpec(tags);
    var ps := ReleaseTags.VersionTags(tags, ReleaseTags.TagVersion);
    ReleaseTags.LastGreatestSnoc(ps, (t, next));
    var best := ReleaseTags.LastGreatest(ps);
    if best.Some? {
      ReleaseTags.VersionTagsSpec(tags, ReleaseTags.TagVersion);
      assert best.value in ps;
      ReleaseTags.LessEqTrans(best.value.1, current, next);
    }
  }

  /** The three effects before the pushes are neither a push nor a publication. */
  lemma AfterTag(p: Plan, rest: seq<Effect>, e: Effect)
    requires e.PushHead? || e.Publish?
    ensures e in [WriteManifest(Written(p)), Commit(CommitMessage(p.next, p.changelog)), Tag(TagName(p.next))] + rest <==> e in rest
  {
  }

  lemma DistributeSpec(opts: Options, outside: Outside)
    ensures PushHead in Distribute(opts, outside).1 <==> Pushing(opts, outside)
    ensures Publish(opts.registry) in Distribute(opts, outside).1 <==>
      Publishing(opts, outside) && (Pushing(opts, outside) ==> outside.pushHeadError.None? && outside.pushTagsError.None?)
  {
  }

  /** The push happens exactly when a release got as far as its tag and the push was confirmed. */
  lemma PushOnlyWhenConfirmed(opts: Options, manifest: Manifest, repoOpens: bool, repo: Repository, outside: Outside)
    ensures var effects := Release(opts, manifest, repoOpens, repo, outside).1;
      PushHead in effects <==> Prepare(manifest, repoOpens, repo).Ok? && !opts.dryRun && Pushing(opts, outside)
  {
    DistributeSpec(opts, outside);
    if Prepare(manifest, repoOpens, repo).Ok? && !opts.dryRun {
      AfterTag(Prepare(manifest, repoOpens, repo).value, Distribute(opts, outside).1, PushHead);
    }
  }

  /**
   * The crate is published exactly when the release got as far as its tag,
   * `--publish` was given and confirmed, and every push asked for succeeded.
   */
  lemma PublishOnlyWhenConfirmed(opts: Options, manifest: Manifest, repoOpens: bool, repo: Repository, outside: Outside)
    ensures var effects := Release(opts, manifest, repoOpens, repo, outside).1;
      Publish(opts.registry) in effects <==>
        && Prepare(manifest, repoOpens, repo).Ok? && !opts.dryRun && Publishing(opts, outside)
        && (Pushing(opts, outside) ==> outside.pushHeadError.None? && outside.pushTagsError.None?)
  {
    DistributeSpec(opts, outside);
    if Prepare(manifest, repoOpens, repo).Ok? && !opts.dryRun {
      AfterTag(Prepare(manifest, repoOpens, repo).value, Distribute(opts, outside).1, Publish(opts.registry));
    }
  }

  /** The run succeeds exactly when it is prepared and no subprocess it runs fails. */
  lemma RunSucceedsIff(opts: Options, manifest: Manifest, repoOpens: bool, repo: Repository, outside: Outside)
    ensures Release(opts, manifest, repoOpens, repo, outside).0 == Done <==>
      && Prepare(manifest, repoOpens, repo).Ok?
      && (opts.dryRun || (
        && (Pushing(opts, outside) ==> outside.pushHeadError.None? && outside.pushTagsError.None?)
        && (Publishing(opts, outside) ==> outside.publishError.None?)))
  {
  }

  /** With `--yes` the prompt answers do not matter. */
  lemma YesSkipsPrompts(opts: Options, manifest: Manifest, repoOpens: bool, repo: Repository, outside: Outside, push: bool, publish: bool)
    requires opts.yes
    ensures Release(opts, manifest, repoOpens, repo, outside) ==
      Release(opts, manifest, repoOpens, repo, outside.(confirmPush := push, confirmPublish := publish))
  {
  }

  /**
   * On a line of commits where the last release tag points at the k-th: the walk
   * sees only the k newer commits, while git-cliff's list keeps every commit but
   * that one, the older ones included.
   */
  lemma HistoriesSinceRelease(log: seq<LogEntry>, k: nat)
    requires k < |log| && forall i :: 0 <= i < |log| && i != k ==> log[i].id != log[k].id
    ensures |RevwalkMessages(log, Some(log[k].id))| == k
    ensures forall j :: k < j < |log| ==> log[j] in CliffLog(log, Some(log[k].id))
    ensures log[k] !in CliffLog(log, Some(log[k].id))
  {
    RevwalkStopsAtRelease(log, k);
  }
}
