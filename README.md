# cargo-verset, modelled in Dafny

cargo-verset is a cargo subcommand that edits version numbers in `Cargo.toml`
and cuts releases. This project models the three commands and the older
top-level entry point:

- **package** (`PackageOptions::run`): sets `package.version` under the
  manifest's entry point. The entry point is the `workspace` item whenever the
  manifest has one, and the document root otherwise. When there is no
  `package.version` to replace, the command only warns. The warning is "Package
  section not found" when the entry point is not table-like, and "Version key
  not found" otherwise.
- **package, older entry point** (`Cli::run`): the same edit, but it reaches the
  version with `get_mut` alone. On a table-like item toml_edit's `get_mut`
  inserts the key it does not find. So this command appends a missing `version`
  to a table-like `package`, and creates a missing `package` as
  `{ version = … }`. It warns only when the entry point or `package` is not
  table-like.
- **dependency** (`DependencyOptions::run`): the first step takes the
  dependency whenever `workspace` is table-like and its `dependencies` is
  absent or table-like. It then rewrites the entry there, or stores a new
  `{ version = … }` entry, creating `dependencies` as an inline table when it
  is absent. Otherwise the root `dependencies` table takes it, created when
  absent, in the same way. Rewriting is `update_dep_item`: keep the comment,
  drop `path` when there is no `version`, turn a table into an inline table.
  A root `dependencies` that is not table-like makes toml_edit panic.
- **release** (`ReleaseOptions::run`), in this order:
  1. read the root `package.version`;
  2. pick the last release tag, the greatest tag that names a semantic version;
  3. classify the commits since that tag as conventional commits;
  4. compute the next version and the changelog, with git-cliff when there is a
     `cliff.toml` and the built-in formatter otherwise;
  5. unless it is a dry run: write the manifest, commit, tag, push when
     confirmed, and publish when asked and confirmed.

A manifest is a tree of TOML items (`Toml.Item`) that keeps key order and the
suffix comment of values. Each command is a method over an input
`Manifest` (missing, unparsable, or a parsed document). It returns how the
command ends (`Effects.Outcome`) and the sequence of `Effects.Effect`s it
performs. Each effect is a write of the manifest, a git operation, a
subprocess or a log line. For the release command, the repository is data:
- its tag names;
- the commit each tag peels to;
- the first-parent line of commits from HEAD;
- the state of `cliff.toml`.

Prompt answers and the success or failure of each subprocess are inputs too.

Modules:
- `Wrappers`: `Option` and `Result`.
- `Text`: the string functions the source uses (`trim`, `to_lowercase`, `find`,
  `split`, `lines`, `join`).
- `SemVer`: the version type, its order, `Display` and `Version::parse`.
- `Toml`: toml_edit's item tree.
- `Effects`: outcomes and effects.
- `PkgOptions` and `Cli`: the package command.
- `DepOptions`: the dependency command.
- `ReleaseCommits`: `parse_conventional_commit` and the two bump computations.
- `ReleaseChangelog`: the changelog format and `extract_release_section`.
- `ReleaseTags`: `get_last_release_tag`.
- `ReleaseManifest`: `get_current_version` and `update_version`.
- `ReleaseRun`: `run` and its steps.

## Model

| member | source | states |
|---|---|---|
| PkgOptions.Run | src/cli/pkgoptions.rs:27-65 | A missing manifest fails with "Could not find a Cargo.toml file" and an unparsable one with its parse error, both doing nothing. Otherwise the run succeeds, and its effects are those `Reported` demands for the edit `SetPackageVersion` makes. After an edit, a dry run changes nothing; otherwise the run writes the edited document once and changes nothing else. Without an edit, the effects are exactly the one warning. |
| PkgOptions.Finish | src/cli/pkgoptions.rs:47-53 | After an edit, a dry run changes nothing. Otherwise the only mutating effect is a single write of the edited document. |
| PkgOptions.GetAtVersionPath | src/cli/pkgoptions.rs:40-46 | The path to the version leads to `package.version` under the entry point: `workspace` when that key exists, the root otherwise. |
| PkgOptions.EditReplacesOnlyVersion | src/cli/pkgoptions.rs:40-47 | The edit happens exactly when `package.version` exists under the entry point. It then holds the new version string, and every path that parts ways with the edited one leads where it led before. |
| PkgOptions.EditKeepsKeys | src/cli/pkgoptions.rs:44-47 | The tables on the way to the version keep their keys in their order. |
| PkgOptions.WorkspaceHidesRootPackage | src/cli/pkgoptions.rs:40-43 | With a `workspace` key, the outcome does not depend on root `package`, and an edit leaves root `package` alone. |
| PkgOptions.NoFallbackToRoot | src/cli/pkgoptions.rs:40-59 | A workspace without `package` is a warning even when the root has a `package.version`. The warning is "Version key not found" when the workspace is table-like, because `get_mut("package")` inserts an empty placeholder. It is "Package section not found" otherwise. |
| PkgOptions.WarningCases | src/cli/pkgoptions.rs:40-60 | "Package section not found" happens exactly when the entry point is not table-like, which needs a `workspace` key. "Version key not found" happens exactly when the entry point is table-like and has no `package.version`. |
| PkgOptions.EditedWhenPresent | src/cli/pkgoptions.rs:44-47 | Whenever the version path leads somewhere, the edit is the replacement at that path. |
| PkgOptions.EditIdempotent | src/cli/pkgoptions.rs:40-47 | Setting the same version twice gives the same document as setting it once. |
| Cli.Run | src/cli.rs:26-62 | A missing manifest fails with "Could not find a Cargo.toml file" and an unparsable one with its parse error, both doing nothing. Otherwise the run succeeds with the effects `Reported` demands for `SetVersion`. After an edit, a dry run changes nothing; otherwise the run writes the edited document once and changes nothing else. Without an edit, the effects are exactly the one warning. |
| Cli.GetAtPackagePath | src/cli.rs:39-43 | The path to `package` leads to the entry point's `package`. |
| Cli.AgreesWhenVersionPresent | src/cli.rs:39-45 | Wherever the entry point has `package.version`, this command makes exactly the package command's edit. |
| Cli.WarnsLessOften | src/cli.rs:43-56 | This command gives "Package section not found" exactly where the package command does. It gives "Version key not found" only where the package command gives it too. |
| Cli.VersionInserted | src/cli.rs:43-45 | A table-like `package` without `version` gets `version` appended with the new version. Its other entries are unchanged, and so is every path that parts ways with `package`. The package command only warns here. |
| Cli.PackageCreated | src/cli.rs:43-45 | A table-like entry point without `package` gets `package = { version = … }` appended. The entry point stays the same item, its other entries are unchanged, and so are the other root keys. The package command only warns here. |
| Cli.EditLeavesVersion | src/cli.rs:43-45 | After an edit the entry point is the same, and its `package.version` holds the new version. |
| Cli.SetVersionIdempotent | src/cli.rs:39-45 | A second run with the same version gives the same document. |
| DepOptions.UpdateDepItem | src/cli/depoptions.rs:26-75 | The new item is `RewriteDep(item, v)`. The warning is logged exactly when the item is table-like with a `path` key and no `version` key. |
| DepOptions.CopyEntries | src/cli/depoptions.rs:32-44 | The copy loop builds `Rebuilt`: `version` gets the new version, `path` is skipped when there is no `version`, other values are copied and sub-tables dropped. |
| DepOptions.RebuiltSpec | src/cli/depoptions.rs:32-44 | On distinct keys, the copied table keeps the surviving keys in their original order, and each maps to the new version, its old value, or nothing. |
| DepOptions.RewriteBareString | src/cli/depoptions.rs:58-63 | A bare string becomes the new version string and keeps its suffix comment. |
| DepOptions.RewriteTableLike | src/cli/depoptions.rs:31-57 | A table-like entry becomes an inline table with the value's comment. It has the surviving keys in order, plus `version` appended when `path` was dropped, the old values under other keys, and the new version under `version` exactly when `version` or `path` was there. |
| DepOptions.RewriteKeepsOtherValues | src/cli/depoptions.rs:33-43 | With a `version` key, every other value entry is copied verbatim and `version` holds the new version. |
| DepOptions.RewriteDropsPath | src/cli/depoptions.rs:38-52 | Without `version` but with `path`, `path` is gone and `("version", new version)` is the last entry. |
| DepOptions.KeptKeysNoPath | src/cli/depoptions.rs:38-40 | Without a `version` key, `path` never survives the copy. |
| DepOptions.RewriteNoVersionNoPath | src/cli/depoptions.rs:47-52 | Without `version` and `path`, no `version` key is added. |
| DepOptions.RewriteOther | src/cli/depoptions.rs:64-74 | Any other item becomes an inline table holding only `version`, and a value keeps its comment. |
| DepOptions.WithDependencies | src/cli/depoptions.rs:114 | After `entry("dependencies").or_insert(table())` the document has a `dependencies` key. |
| DepOptions.NewDepEntryIsRewrite | src/cli/depoptions.rs:64-74 | Any item that is neither table-like nor a string and has no comment becomes the inline table `{ version = … }`. The placeholder that `get_mut` inserts for a missing name is such an item. |
| DepOptions.EditDocument | src/cli/depoptions.rs:90-119 | The document in memory is `SetDependency`. The workspace step is taken exactly when `workspace` is table-like and its `dependencies` is absent or table-like. |
| DepOptions.EditWorkspaceDependencies | src/cli/depoptions.rs:91-96 | The workspace step gives `SetWorkspaceDependency`: rewrite the entry, or store `{ version = … }` under the name, creating `dependencies` as an inline table when it is absent. |
| DepOptions.EditRootDependencies | src/cli/depoptions.rs:113-119 | The root step gives `SetRootDependency`. |
| DepOptions.Report | src/cli/depoptions.rs:97-109 | A dry run changes nothing. Otherwise the only mutating effect is a single write of the edited document. |
| DepOptions.Conclude | src/cli/depoptions.rs:95-133 | With no document, the run panics with "index not found" and changes nothing; that is the panic of indexing into a non-table. Otherwise it succeeds. A dry run then changes nothing. A real run writes the edited document once and changes nothing else. |
| DepOptions.Run | src/cli/depoptions.rs:78-134 | A missing manifest fails with "Could not find Cargo.toml in the workspace" and an unparsable one with its error, both doing nothing. Otherwise the run ends as `Concluded` states for `SetDependency`: a panic that changes nothing, or success with at most the one write of the edited document. |
| DepOptions.GetAtWorkspacePath | src/cli/depoptions.rs:91-95 | The workspace path leads to an entry exactly when `workspace`, then `dependencies`, then the name are found. |
| DepOptions.WorkspaceMatchIsFinal | src/cli/depoptions.rs:90-111 | An existing `workspace.dependencies` entry means the workspace step is taken. That entry is rewritten, and every path off it, root `dependencies` included, is unchanged. |
| DepOptions.WorkspaceLeavesRoot | src/cli/depoptions.rs:90-111 | Whenever the workspace step is taken, the root keeps its keys, and every root key but `workspace` is unchanged. There is no second step. |
| DepOptions.WorkspaceEntryInserted | src/cli/depoptions.rs:91-96 | A name missing from a table-like `workspace.dependencies` is stored there as `{ version = … }`, after the other entries, which are unchanged. The other `workspace` entries are unchanged too. |
| DepOptions.WorkspaceDependenciesCreated | src/cli/depoptions.rs:91-96 | A table-like `workspace` without `dependencies` gets `dependencies = { <name> = { version = … } }` after its other entries, which are unchanged. |
| DepOptions.FallsBackToRoot | src/cli/depoptions.rs:90-114 | When the workspace step is not taken, the root step decides. |
| DepOptions.RootEntryRewritten | src/cli/depoptions.rs:113-116 | When the workspace step is not taken, an existing root entry is rewritten, and every path that parts ways with it is unchanged. |
| DepOptions.RootEntryInserted | src/cli/depoptions.rs:114-116 | When the workspace step is not taken, a new name is stored in a table-like root `dependencies` as `{ version = … }`. It goes after the other entries, which are unchanged. The document's keys, and every root key but `dependencies`, are unchanged. |
| DepOptions.DependenciesCreated | src/cli/depoptions.rs:114-116 | When the workspace step is not taken and there is no `dependencies`, a table holding only `<name> = { version = … }` is appended last to the document. The other keys are unchanged. |
| DepOptions.RootDependenciesCreated | src/cli/depoptions.rs:114-116 | The root step on a document without `dependencies` appends that one-entry table. |
| DepOptions.PanicsExactly | src/cli/depoptions.rs:113-119 | The run panics exactly when the workspace step is not taken and the root `dependencies` exists but is not table-like. |
| ReleaseCommits.ParseConventionalCommit | src/cli/releaseoptions.rs:428-446 | A message is breaking exactly when it has a `!` anywhere or contains "breaking change" in any case. Without a colon its type is "other". |
| ReleaseCommits.CommitTypeShape | src/cli/releaseoptions.rs:435-440 | The type has no `!`, `(` or `:`, no upper-case letter, and no whitespace at either end. |
| ReleaseCommits.CommitTypeBeforeColon | src/cli/releaseoptions.rs:435-436 | The type depends only on the text before the first colon. |
| ReleaseCommits.FeatureCommit | src/cli/releaseoptions.rs:306-310 | `feat: …` and `feat(scope): …` are features unless marked breaking. |
| ReleaseCommits.HasIff | src/cli/releaseoptions.rs:292-326 | A category's list is non-empty exactly when some walked message, trimmed, has that category. |
| ReleaseCommits.SelectedStep | src/cli/releaseoptions.rs:296-324 | One more message extends only its own category's list, by its trimmed text. |
| ReleaseCommits.Bumped | src/cli/releaseoptions.rs:328-343 | The next version is greater than the current one. Major resets minor and patch, minor resets patch, and patch increments. |
| ReleaseCommits.GenerateCompatibleChangelog | src/cli/releaseoptions.rs:265-354 | The next version is the bump for the walk: a breaking commit gives major, else a feature gives minor, else patch, including when there are no commits. The changelog is the formatted breaking, feature and fix lists, plus the "other" list only in git-cliff style. |
| ReleaseCommits.ComputeVersionFromCliffCommits | src/cli/releaseoptions.rs:357-406 | The same bump, where git-cliff's own breaking flag also makes a commit breaking. |
| ReleaseCommits.CliffHasStep | src/cli/releaseoptions.rs:366-386 | After one more commit, a category is present exactly when it was before or that commit has it. |
| ReleaseCommits.SelectedCounts | src/cli/releaseoptions.rs:296-324 | Each list holds the trimmed messages of its category, each as often as the walk has it. |
| ReleaseCommits.SelectedPartition | src/cli/releaseoptions.rs:302-323 | The four lists together are a rearrangement of the trimmed walk: each message lands in exactly one. |
| ReleaseCommits.BumpOrderIndependent | src/cli/releaseoptions.rs:292-343 | The bump does not depend on the order of the commits. |
| ReleaseCommits.BumpMonotone | src/cli/releaseoptions.rs:302-343 | More commits never give a smaller bump. |
| ReleaseCommits.BreakingMakesMajor | src/cli/releaseoptions.rs:302-304 | A single breaking commit anywhere makes the release major. |
| ReleaseCommits.CliffAgreesWithRevwalk | src/cli/releaseoptions.rs:357-406 | When git-cliff flags nothing and the messages are already trimmed, both paths bump alike. |
| ReleaseCommits.CliffBreakingMakesMajor | src/cli/releaseoptions.rs:371-374 | git-cliff's breaking flag on any commit makes the release major. |
| ReleaseCommits.CliffMessages | src/cli/releaseoptions.rs:366-367 | The messages of git-cliff's commits, one per commit, in order. |
| ReleaseChangelog.RawChangelogSections | src/cli/releaseoptions.rs:456-488 | The text is the four sections appended in the fixed order: breaking, features, fixes, other. |
| ReleaseChangelog.AppendSection | src/cli/releaseoptions.rs:458-464 | One section: nothing for no entries, else the heading, a blank line, one `- entry` line per entry in order, and a blank line. |
| ReleaseChangelog.FormatChangelog | src/cli/releaseoptions.rs:449-495 | The formatter returns `Changelog`: the placeholder, or the sections with trailing whitespace trimmed. |
| ReleaseChangelog.ChangelogLeadingSection | src/cli/releaseoptions.rs:458-494 | The changelog opens with the heading of the first non-empty section. |
| ReleaseChangelog.ChangelogPlaceholderIff | src/cli/releaseoptions.rs:490-494 | "No changes since last release" is returned exactly when all four lists are empty. |
| ReleaseChangelog.ChangelogFeatureAndFix | src/cli/releaseoptions.rs:466-494 | One feature and one fix give the two sections, without the trailing blank lines. |
| ReleaseChangelog.FirstHeader | src/cli/releaseoptions.rs:414-419 | The index found is the first line starting with `## [` or `## unreleased`, or the line count when there is none. |
| ReleaseChangelog.ExtractReleaseSection | src/cli/releaseoptions.rs:409-427 | The loop computes `ReleaseSection`: the lines from the first release header, joined and trimmed. |
| ReleaseChangelog.ReleaseSectionAtHeader | src/cli/releaseoptions.rs:414-423 | With a header, the section starts at the first one and begins with `## [` or `## unreleased`. |
| ReleaseChangelog.ReleaseSectionWithoutHeader | src/cli/releaseoptions.rs:411-426 | Without a header, the whole text is kept, trimmed. |
| ReleaseTags.StripV | src/cli/releaseoptions.rs:116 | One leading `v` is removed, and nothing else changes. |
| ReleaseTags.CollectVersionTags | src/cli/releaseoptions.rs:114-120 | The first loop keeps, in listing order, the tags that name a version. |
| ReleaseTags.VersionTagsSpec | src/cli/releaseoptions.rs:114-120 | A kept pair is a listed tag together with the version it parses to, and every such pair is kept. |
| ReleaseTags.LastOfGreatest | src/cli/releaseoptions.rs:123-129 | The stable sort by version followed by `last()` gives the last of the greatest entries. |
| ReleaseTags.LastGreatestSpec | src/cli/releaseoptions.rs:123-129 | There is a result exactly when there are entries. It is an entry that no entry exceeds, and every later entry is smaller. |
| ReleaseTags.GetLastReleaseTag | src/cli/releaseoptions.rs:110-130 | The method returns `LastReleaseTag`. |
| ReleaseTags.LastReleaseTagSpec | src/cli/releaseoptions.rs:110-130 | No release when no tag names a version. Otherwise the result is a listed tag that names a version, and no tag names a greater one. |
| ReleaseTags.LastOfVersionTags | src/cli/releaseoptions.rs:110-130 | The same, for any way of reading a version from a tag. |
| ReleaseTags.DigitTagVersion | src/cli/releaseoptions.rs:116-117 | `vX.Y.Z` of single digits names X.Y.Z. |
| ReleaseTags.DotlessTagVersion | src/cli/releaseoptions.rs:116-117 | A tag without a dot names no version. |
| ReleaseTags.LastReleaseTagExample | src/cli/test_releaseoptions.rs:166-188 | The tags `v0.1.0`, `v0.2.0`, `v0.1.5` and `not-a-version` make `v0.2.0` the last release. |
| ReleaseManifest.CurrentVersionSpec | src/cli/releaseoptions.rs:96-107 | The version read is exactly the text of root `package.version`. A missing key or non-string value gives "Could not find package version in Cargo.toml", and an unparsable one gives "Failed to parse current version". |
| ReleaseManifest.GetAtRootVersion | src/cli/releaseoptions.rs:100-102 | The version path is `get("package")` then `get("version")` on the root. |
| ReleaseManifest.UpdateVersion | src/cli/releaseoptions.rs:498-515 | No `package` gives "Package section not found in Cargo.toml". A `package` that is not table-like gives "Version key not found in package section". In a table-like `package`, an existing `version` is replaced in place, which is the assignment at the version path. A missing `version` is appended after the other keys, because `get_mut` inserts it. Either way the version path then holds the new version string, and the other entries of `package` and the other root keys are unchanged. |
| ReleaseManifest.StoredVersion | src/cli/releaseoptions.rs:502-504 | Storing through `get_mut("version")` leaves the new version at the root version path. When the key was there, this is the in-place assignment at that path. |
| ReleaseManifest.UpdateThenRead | src/cli/releaseoptions.rs:96-107 | A manifest whose version could be read can be updated, and it reads back as the new version. |
| ReleaseManifest.UpdateFrame | src/cli/releaseoptions.rs:502-504 | The update touches only root `package.version`. |
| ReleaseManifest.CommandsEditDifferentVersions | src/cli/releaseoptions.rs:502-504 | With both versions present, the release edits root `package.version` and leaves `workspace.package.version`, while the package command does the opposite. |
| ReleaseRun.RevwalkMessages | src/cli/releaseoptions.rs:273-292 | The walk from HEAD yields, newest first, a prefix of the line of commits. |
| ReleaseRun.RevwalkStopsAtRelease | src/cli/releaseoptions.rs:276-281 | Hiding the released commit stops the walk exactly before it. |
| ReleaseRun.RevwalkWithoutRelease | src/cli/releaseoptions.rs:273-282 | In the model, when the hidden commit is not on the modelled line, the walk returns every commit of that line. git can return fewer; see "## Left out". |
| ReleaseRun.CliffLog | src/cli/releaseoptions.rs:196-211 | git-cliff's list is every commit except the one the last tag peels to. |
| ReleaseRun.Processed | src/cli/releaseoptions.rs:219-227 | The `filter_map` keeps, in order, the commits whose processing succeeds. |
| ReleaseRun.HistoriesSinceRelease | src/cli/releaseoptions.rs:188-211 | With the tag on the k-th commit, the walk sees the k newer commits, while git-cliff keeps the older ones too and drops only the tagged one. |
| ReleaseRun.GenerateChangelogAndVersion | src/cli/releaseoptions.rs:133-166 | The method returns `Generated`. Without `cliff.toml`, it uses the built-in walk without "other" changes. With an unloadable one, it fails with "Failed to load cliff.toml configuration". Otherwise git-cliff's commits are bumped and the render passes through `extract_release_section`. |
| ReleaseRun.Preparation | src/cli/releaseoptions.rs:38-67 | The method returns `Prepare`, which fails in the source's order: missing manifest, no repository, parse error, version error, generation error. |
| ReleaseRun.PreparedPlan | src/cli/releaseoptions.rs:38-67 | A prepared release read its current version from the manifest, and its next version is greater. |
| ReleaseRun.PushAndPublish | src/cli/releaseoptions.rs:82-89 | The method returns `Distribute`: each push behind its confirmation, and publishing behind `--publish` and its confirmation, each stopping the run with its message on failure. |
| ReleaseRun.DistributeSpec | src/cli/releaseoptions.rs:550-617 | A push happens exactly when confirmed. Publishing happens exactly when asked, confirmed, and after successful pushes. |
| ReleaseRun.Run | src/cli/releaseoptions.rs:38-93 | The method returns `Release`: a failure with no effects, the dry-run log line, or the write, commit, tag and distribution. |
| ReleaseRun.DryRunChangesNothing | src/cli/releaseoptions.rs:72-73 | A dry run changes nothing, and it succeeds exactly when the release could be prepared. |
| ReleaseRun.WrittenManifest | src/cli/releaseoptions.rs:76 | The written manifest reads back as the next version, and nothing off root `package.version` changes. |
| ReleaseRun.ReleaseWritesCommitsTags | src/cli/releaseoptions.rs:75-79 | The first three effects are, in order: the manifest write, the commit "release: v<next>" with a blank line and the changelog, and the tag `v<next>`. |
| ReleaseRun.NewTagIsLastRelease | src/cli/releaseoptions.rs:542-543 | The new tag names the next version. It becomes the last release tag when no existing tag names a version above the current one. |
| ReleaseRun.PushOnlyWhenConfirmed | src/cli/releaseoptions.rs:82-84 | `git push origin HEAD` happens exactly when the release got past its tag, it is not a dry run, and `--yes` or the prompt confirmed. |
| ReleaseRun.PublishOnlyWhenConfirmed | src/cli/releaseoptions.rs:87-89 | `cargo publish` happens exactly when the release got past its tag, `--publish` was given and confirmed, and any push asked for succeeded. |
| ReleaseRun.RunSucceedsIff | src/cli/releaseoptions.rs:38-93 | The run succeeds exactly when it is prepared and no subprocess it runs fails. |
| ReleaseRun.YesSkipsPrompts | src/cli/releaseoptions.rs:550-553 | With `--yes`, the prompt answers do not matter. |
| SemVer.ParseToString | src/cli/releaseoptions.rs:106 | Parsing a rendered version gives it back. |
| SemVer.ToStringOfParse | src/cli/releaseoptions.rs:106 | Whatever parses is the canonical rendering of its version. |
| Toml.Insert | src/cli/depoptions.rs:36 | `insert` replaces an existing key in place, otherwise appends, and leaves other keys alone. |
| Toml.SetAtGet | src/cli/pkgoptions.rs:44-47 | After assigning at a path that leads somewhere, the path leads to the new item. |
| Toml.SetAtFrame | src/cli/pkgoptions.rs:44-47 | Every path that parts ways with the edited one is unchanged. |
| Toml.SetAtKeys | src/cli/pkgoptions.rs:44-47 | Tables on the way keep their keys in order. |
| Text.TrimEndSpec | src/cli/releaseoptions.rs:493 | `trim_end` removes exactly the trailing whitespace. |
| Text.LowerSpec | src/cli/releaseoptions.rs:429 | Lower-casing maps `A`–`Z` to `a`–`z` and keeps the length. |
| Text.JoinLines | src/cli/releaseoptions.rs:410-425 | Joining the lines gives the text back, less one final line feed. |

## Left out

- Reading and writing files, parsing and printing TOML, and path resolution are
  not modelled. The manifest arrives as `Missing`, `Malformed(error)` or a
  parsed document, and a write is an effect that carries the document.
- Log lines are not all modelled. The package and dependency commands record
  their info and warning lines. The release command records only the
  dry-run line; its info lines are left out.
- git2 is not modelled. The history is the first-parent line of commits from
  HEAD (a revwalk over merges is not modelled), and the tag list comes in the
  order git gives it.
- The failures of git2 calls are not modelled:
  - opening the index, committing and tagging;
  - `tag_lightweight` refusing a tag that already exists;
  - a bare repository's "Repository has no working directory";
  - `Generated changelog is not valid UTF-8`;
  - messages that are not UTF-8, which the walk skips.
- git-cliff internals are not modelled. Processing a commit and rendering the
  release are input functions of the loaded configuration, and the timestamp is
  not modelled.
- Prompts and subprocesses are inputs: the prompt answers, and whether
  `git push` and `cargo publish` fail, with their stderr. Errors from the prompt
  terminal are not modelled.
- `semver::Version`: the model covers `MAJOR.MINOR.PATCH` with canonical numbers
  and no pre-release or build metadata. Numbers are unbounded rather than `u64`.
- `to_lowercase` maps ASCII letters only. `lines` splits on `\n` only, and a
  `\r` before it is not removed.
- ReleaseRun.RevwalkMessages: hides only the released commit itself. If that
  commit is not on the modelled line, it hides nothing, and the walk returns
  the whole line. git's `hide` also hides every ancestor of that commit. When
  the tag sits on a branch that forked from HEAD's line, for example a
  squash-merged or unmerged release branch, git stops at the fork point. The
  model walks past it into commits that were already released.
- ReleaseTags.LastOfGreatest: models the stable sort and `last()` by the entry
  they select (the last of the greatest, in listing order) rather than by
  sorting the list.
- toml_edit decor is not modelled beyond a value's suffix comment.
  `Item::None` is not a value of the model. `get_mut` inserts an `Item::None`
  placeholder for a key it does not find in a table-like item. The model
  represents that placeholder by what is then stored into it. Where the run
  stops at a warning instead, the model does not keep the placeholder: it is
  never printed, and no write follows. Scalars other than strings are one opaque
  value, and arrays of tables are never entered by a string key.
- The git-cliff path keeps commits older than the last release: only the commit
  the tag points at is filtered out (`ReleaseRun.HistoriesSinceRelease`). This
  is modelled as written.
- command-line parsing (clap) and `main` are not part of this model.
