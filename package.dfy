/**
 * The package command (`cargo verset package`): sets `package.version` under the
 * entry point of the manifest, which is the `workspace` table whenever the
 * manifest has one and the document root otherwise.
 */
module PkgOptions {
  import opened Wrappers
  import opened Toml
  import opened SemVer
  import opened Effects

  /** `toml_edit::value(version.to_string())`: a string value with no decor. */
  function VersionValue(v: Version): Item
  {
    Val(Str(ToString(v)), None)
  }

  /** The entry point: the `workspace` item when that key exists, else the document itself. */
  function Entry(doc: Document): Item
  {
    if Get(doc, "workspace").Some? then Get(doc, "workspace").value else doc
  }

  /** The path of the entry point: `["workspace"]` or the root. */
  function EntryPath(doc: Document): seq<string>
  {
    if Get(doc, "workspace").Some? then ["workspace"] else []
  }

  /** Where `entrypoint.get_mut("package")` and then `get_mut("version")` lead. */
  function VersionPath(doc: Document): seq<string>
  {
    EntryPath(doc) + ["package", "version"]
  }

  /** What the command finds under the entry point and, when it can, does to the document. */
  datatype Edit = Edited(doc: Document) | NoVersionKey | NoPackage

  /**
   * The edit in memory: replace `package.version` under the entry point, or report
   * what is missing. `entrypoint.get_mut("package")` finds nothing only when the
   * entry point is not table-like; on a table-like one it puts an empty placeholder
   * in place of a missing `package`, and `get("version")` finds nothing in that.
   */
  function SetPackageVersion(doc: Document, v: Version): Edit
  {
    var entry := Entry(doc);
    if TableLike(entry).None? then NoPackage
    else match Get(entry, "package")
      case None => NoVersionKey
      case Some(package) =>
        if Get(package, "version").None? then NoVersionKey
        else Edited(SetAt(doc, VersionPath(doc), VersionValue(v)))
  }

  const MissingManifest := "Could not find a Cargo.toml file"
  const NoVersionWarning := "Version key not found in Cargo.toml"
  const NoPackageWarning := "Package section not found in Cargo.toml"

  /**
   * The effects of a command run: after an edit, the single write of the edited
   * document unless it is a dry run, and otherwise one warning and nothing changed.
   */
  predicate Reported(effects: seq<Effect>, edit: Edit, dryRun: bool)
  {
    match edit
    case Edited(d) => if dryRun then NoneMutating(effects) else WritesOnly(effects, d)
    case NoVersionKey => effects == [Warn(NoVersionWarning)]
    case NoPackage => effects == [Warn(NoPackageWarning)]
  }

  /** The log line and the write after a successful edit. */
  method Finish(doc: Document, v: Version, dryRun: bool) returns (effects: seq<Effect>)
    ensures Reported(effects, Edited(doc), dryRun)
  {
    if dryRun {
      effects := [Info("Dry run: Did not set version to " + ToString(v) + "!")];
    } else {
      effects := [WriteManifest(doc), Info("Successfully set version to " + ToString(v))];
      assert effects[0] == WriteManifest(doc) && OnlyMutatingAt(effects, 0);
    }
  }

  /** `PackageOptions::run` on the manifest found at the given path. */
  method Run(manifest: Manifest, v: Version, dryRun: bool) returns (outcome: Outcome, effects: seq<Effect>)
    ensures manifest.Missing? ==> outcome == Failed(MissingManifest) && effects == []
    ensures manifest.Malformed? ==> outcome == Failed(manifest.error) && effects == []
    ensures manifest.Present? ==> outcome == Done && Reported(effects, SetPackageVersion(manifest.doc, v), dryRun)
  {
    match manifest
    case Missing =>
      return Failed(MissingManifest), [];
    case Malformed(error) =>
      return Failed(error), [];
    case Present(doc0) =>
      var doc := doc0;
      var entrypoint := Entry(doc);
      if TableLike(entrypoint).None? {
        effects := [Warn(NoPackageWarning)];
      } else {
        // `None` stands for the empty placeholder `get_mut` inserted.
        var package := Get(entrypoint, "package");
        if package.Some? && Get(package.value, "version").Some? {
          doc := SetAt(doc, VersionPath(doc0), VersionValue(v));
          effects := Finish(doc, v, dryRun);
        } else {
          effects := [Warn(NoVersionWarning)];
        }
      }
      return Done, effects;
  }

  lemma GetAtVersionPath(doc: Document)
    ensures GetAt(doc, VersionPath(doc)) ==
      match Get(Entry(doc), "package")
      case None => None
      case Some(p) => Get(p, "version")
  {
    var entry := Entry(doc);
    GetAtCons(entry, "package", ["version"]);
    if Get(entry, "package").Some? {
      GetAtSingle(Get(entry, "package").value, "version");
    }
    if Get(doc, "workspace").Some? {
      GetAtCons(doc, "workspace", ["package", "version"]);
      assert VersionPath(doc) == ["workspace"] + ["package", "version"];
    } else {
      assert VersionPath(doc) == ["package"] + ["version"];
    }
  }

  /**
   * The version is replaced exactly when `package.version` exists under the entry
   * point; the new value is the version string, and every path that parts ways
   * with the edited one leads where it led before.
   */
  lemma EditReplacesOnlyVersion(doc: Document, v: Version, q: seq<string>)
    requires Diverge(VersionPath(doc), q)
    ensures SetPackageVersion(doc, v).Edited? <==> GetAt(doc, VersionPath(doc)).Some?
    ensures SetPackageVersion(doc, v).Edited? ==>
      && GetAt(SetPackageVersion(doc, v).doc, VersionPath(doc)) == Some(VersionValue(v))
      && GetAt(SetPackageVersion(doc, v).doc, q) == GetAt(doc, q)
  {
    GetAtVersionPath(doc);
    if SetPackageVersion(doc, v).Edited? {
      SetAtGet(doc, VersionPath(doc), VersionValue(v));
      SetAtFrame(doc, VersionPath(doc), q, VersionValue(v));
    }
  }

  /** The tables on the way to the version keep their keys in their order: nothing is inserted. */
  lemma EditKeepsKeys(doc: Document, v: Version, q: seq<string>)
    requires q < VersionPath(doc)
    requires SetPackageVersion(doc, v).Edited?
    ensures KeysAt(SetPackageVersion(doc, v).doc, q) == KeysAt(doc, q)
  {
    SetAtKeys(doc, VersionPath(doc), VersionValue(v), q);
  }

  /**
   * With a `workspace` key, root `package` is never consulted: the outcome is the
   * same whatever the root `package` holds, and an edit leaves it alone.
   */
  lemma WorkspaceHidesRootPackage(doc: Document, other: Document, v: Version)
    requires Get(doc, "workspace").Some?
    requires Get(other, "workspace") == Get(doc, "workspace")
    ensures SetPackageVersion(doc, v).Edited? <==> SetPackageVersion(other, v).Edited?
    ensures SetPackageVersion(doc, v) == NoPackage <==> SetPackageVersion(other, v) == NoPackage
    ensures SetPackageVersion(doc, v).Edited? ==> GetAt(SetPackageVersion(doc, v).doc, ["package"]) == GetAt(doc, ["package"])
  {
    if SetPackageVersion(doc, v).Edited? {
      EditReplacesOnlyVersion(doc, v, ["package"]);
    }
  }

  /**
   * A workspace without a `package` table is a warning even when the root has a
   * `package.version`: the version key is missing when the workspace is
   * table-like, the package section when it is not.
   */
  lemma NoFallbackToRoot(doc: Document, v: Version)
    requires Get(doc, "workspace").Some? && Get(Get(doc, "workspace").value, "package").None?
    ensures SetPackageVersion(doc, v) ==
      if TableLike(Get(doc, "workspace").value).Some? then NoVersionKey else NoPackage
  {
  }

  /**
   * Which warning a manifest gets: "Package section not found" only for a
   * `workspace` key that is not table-like, "Version key not found" whenever the
   * entry point is table-like but has no `package.version`.
   */
  lemma WarningCases(doc: Document, v: Version)
    ensures SetPackageVersion(doc, v) == NoPackage <==> TableLike(Entry(doc)).None?
    ensures SetPackageVersion(doc, v) == NoPackage ==> Get(doc, "workspace").Some?
    ensures SetPackageVersion(doc, v) == NoVersionKey <==>
      TableLike(Entry(doc)).Some? && GetAt(doc, VersionPath(doc)).None?
  {
    GetAtVersionPath(doc);
  }

  /** The edit happens whenever the version path leads somewhere. */
  lemma EditedWhenPresent(doc: Document, v: Version)
    requires GetAt(doc, VersionPath(doc)).Some?
    ensures SetPackageVersion(doc, v) == Edited(SetAt(doc, VersionPath(doc), VersionValue(v)))
  {
    GetAtVersionPath(doc);
  }

  /** Setting the version a second time changes nothing more. */
  lemma EditIdempotent(doc: Document, v: Version)
    requires SetPackageVersion(doc, v).Edited?
    ensures SetPackageVersion(SetPackageVersion(doc, v).doc, v) == SetPackageVersion(doc, v)
  {
    var path := VersionPath(doc);
    var x := VersionValue(v);
    var d := SetPackageVersion(doc, v).doc;
    GetAtVersionPath(doc);
    assert d == SetAt(doc, path, x);
    SetAtPresence(doc, path, x, "workspace");
    assert VersionPath(d) == path;
    SetAtGet(doc, path, x);
    EditedWhenPresent(d, v);
    SetAtSame(d, path, x);
  }
}
