/**
 * The release command's view of the manifest: it reads and writes the ROOT
 * `package.version` (`get_current_version`, `update_version`), whereas the
 * package command goes through `workspace` when there is one.
 */
module ReleaseManifest {
  import opened Wrappers
  import opened Toml
  import opened SemVer
  import PkgOptions

  const RootVersionPath: seq<string> := ["package", "version"]

  const NoCurrentVersion := "Could not find package version in Cargo.toml"
  const UnparsableVersion := "Failed to parse current version"
  const NoPackageSection := "Package section not found in Cargo.toml"
  const NoVersionKey := "Version key not found in package section"

  /** `doc.get("package").and_then(|p| p.get("version")).and_then(|v| v.as_str())`. */
  function RootVersionText(doc: Document): Option<string>
  {
    match GetAt(doc, RootVersionPath)
    case Some(Val(Str(s), _)) => Some(s)
    case _ => None
  }

  /** `get_current_version` on the parsed manifest. */
  function CurrentVersion(doc: Document): Result<Version, string>
  {
    match RootVersionText(doc)
    case None => Err(NoCurrentVersion)
    case Some(s) =>
      match Parse(s)
      case None => Err(UnparsableVersion)
      case Some(v) => Ok(v)
  }

  /**
   * The version read is the one written in root `package.version`, character for
   * character; each way of failing has its own message.
   */
  lemma CurrentVersionSpec(doc: Document)
    ensures CurrentVersion(doc).Ok? ==>
      RootVersionText(doc) == Some(ToString(CurrentVersion(doc).value))
    ensures CurrentVersion(doc) == Err(NoCurrentVersion) <==> RootVersionText(doc).None?
    ensures CurrentVersion(doc) == Err(UnparsableVersion) <==>
      RootVersionText(doc).Some? && Parse(RootVersionText(doc).value).None?
  {
    if CurrentVersion(doc).Ok? {
      ToStringOfParse(RootVersionText(doc).value);
    }
  }

  lemma GetAtRootVersion(doc: Document)
    ensures GetAt(doc, RootVersionPath) ==
      match Get(doc, "package")
      case None => None
      case Some(p) => Get(p, "version")
  {
    GetAtCons(doc, "package", ["version"]);
    if Get(doc, "package").Some? {
      GetAtSingle(Get(doc, "package").value, "version");
    }
  }

  /**
   * `update_version` on the parsed manifest: the document it writes, or why it
   * gives up. `doc.get_mut("package")` inserts nothing, whereas `get_mut("version")`
   * on a table-like `package` does: a missing `version` is appended to it, and
   * only a `package` that is not table-like lacks a version key.
   */
  method UpdateVersion(doc0: Document, v: Version) returns (r: Result<Document, string>)
    ensures Get(doc0, "package").None? ==> r == Err(NoPackageSection)
    ensures Get(doc0, "package").Some? && TableLike(Get(doc0, "package").value).None? ==>
      r == Err(NoVersionKey)
    ensures GetAt(doc0, RootVersionPath).Some? ==>
      r == Ok(SetAt(doc0, RootVersionPath, PkgOptions.VersionValue(v)))
    ensures Get(doc0, "package").Some? && TableLike(Get(doc0, "package").value).Some? ==>
      var p := Get(doc0, "package").value;
      && r.Ok?
      && GetAt(r.value, RootVersionPath) == Some(PkgOptions.VersionValue(v))
      && Keys(TableLike(r.value).value) == Keys(TableLike(doc0).value)
      && (forall k :: k != "package" ==> Get(r.value, k) == Get(doc0, k))
      && Get(r.value, "package").Some?
      && var p' := Get(r.value, "package").value;
      && Keys(TableLike(p').value) ==
        (if Get(p, "version").Some? then Keys(TableLike(p).value) else Keys(TableLike(p).value) + ["version"])
      && (forall k :: k != "version" ==> Get(p', k) == Get(p, k))
  {
    var package := Get(doc0, "package");
    if package.None? {
      return Err(NoPackageSection);
    }
    if TableLike(package.value).None? {
      return Err(NoVersionKey);
    }
    var x := PkgOptions.VersionValue(v);
    var doc := SetChild(doc0, "package", InsertChild(package.value, "version", x));
    StoredVersion(doc0, v);
    return Ok(doc);
  }

  /** What the assignment through `get_mut("version")` leaves: the root version path holds the new version. */
  lemma StoredVersion(doc: Document, v: Version)
    requires Get(doc, "package").Some? && TableLike(Get(doc, "package").value).Some?
    ensures var p := Get(doc, "package").value;
      var x := PkgOptions.VersionValue(v);
      var r := SetChild(doc, "package", InsertChild(p, "version", x));
      && GetAt(r, RootVersionPath) == Some(x)
      && (GetAt(doc, RootVersionPath).Some? ==> r == SetAt(doc, RootVersionPath, x))
  {
    var p := Get(doc, "package").value;
    var x := PkgOptions.VersionValue(v);
    var r := SetChild(doc, "package", InsertChild(p, "version", x));
    GetAtRootVersion(doc);
    GetAtRootVersion(r);
    if GetAt(doc, RootVersionPath).Some? {
      InsertChildExisting(p, "version", x);
      assert RootVersionPath[1..] == ["version"];
      SetAtUnfold(doc, RootVersionPath, x);
    }
  }

  /** A manifest whose version could be read can be updated, and reading it back gives the new version. */
  lemma UpdateThenRead(doc: Document, v: Version)
    requires CurrentVersion(doc).Ok?
    ensures GetAt(doc, RootVersionPath).Some?
    ensures CurrentVersion(SetAt(doc, RootVersionPath, PkgOptions.VersionValue(v))) == Ok(v)
  {
    SetAtGet(doc, RootVersionPath, PkgOptions.VersionValue(v));
    ParseToString(v);
  }

  /** The update touches root `package.version` alone: every path that parts ways with it is unchanged. */
  lemma UpdateFrame(doc: Document, v: Version, q: seq<string>)
    requires Diverge(RootVersionPath, q)
    ensures GetAt(SetAt(doc, RootVersionPath, PkgOptions.VersionValue(v)), q) == GetAt(doc, q)
  {
    SetAtFrame(doc, RootVersionPath, q, PkgOptions.VersionValue(v));
  }

  /**
   * In a manifest with both a root `package.version` and a
   * `workspace.package.version`, the release command rewrites the first and leaves
   * the second, while the package command rewrites the second and leaves the first.
   */
  lemma CommandsEditDifferentVersions(doc: Document, v: Version)
    requires Get(doc, "workspace").Some?
    requires GetAt(doc, RootVersionPath).Some?
    requires GetAt(doc, ["workspace", "package", "version"]).Some?
    ensures var released := SetAt(doc, RootVersionPath, PkgOptions.VersionValue(v));
      && GetAt(released, RootVersionPath) == Some(PkgOptions.VersionValue(v))
      && GetAt(released, ["workspace", "package", "version"]) == GetAt(doc, ["workspace", "package", "version"])
    ensures PkgOptions.SetPackageVersion(doc, v).Edited?
    ensures var packaged := PkgOptions.SetPackageVersion(doc, v).doc;
      && GetAt(packaged, ["workspace", "package", "version"]) == Some(PkgOptions.VersionValue(v))
      && GetAt(packaged, RootVersionPath) == GetAt(doc, RootVersionPath)
  {
    var x := PkgOptions.VersionValue(v);
    var ws: seq<string> := ["workspace", "package", "version"];
    assert PkgOptions.VersionPath(doc) == ws;
    SetAtGet(doc, RootVersionPath, x);
    SetAtFrame(doc, RootVersionPath, ws, x);
    PkgOptions.EditReplacesOnlyVersion(doc, v, RootVersionPath);
  }
}
