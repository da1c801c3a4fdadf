/**
 * The older top-level command (`Cli::run`): the package-version edit of the
 * package command, but reaching the version with `get_mut` alone. On a
 * table-like item toml_edit's `get_mut` inserts what it does not find, so this
 * command adds a missing `version`, and a missing `package`, instead of warning.
 */
module Cli {
  import opened Wrappers
  import opened Toml
  import opened SemVer
  import opened Effects
  import opened PkgOptions

  /**
   * `package = { version = "…" }`: the empty placeholder that `get_mut("package")`
   * inserted, once `get_mut("version")` has made it an inline table and the
   * version has been assigned into it.
   */
  function NewPackage(v: Version): Item
  {
    Val(Inline([("version", VersionValue(v))]), None)
  }

  /** The entry point put back: under `workspace`, or as the document itself. */
  function WithEntry(doc: Document, entry: Item): Document
    requires Get(doc, "workspace").None? ==> entry.Table?
  {
    if Get(doc, "workspace").Some? then SetChild(doc, "workspace", entry) else entry
  }

  /** Where `entrypoint.get_mut("package")` leads. */
  function PackagePath(doc: Document): seq<string>
  {
    EntryPath(doc) + ["package"]
  }

  /**
   * The edit in memory: the entry point gets `package`, with `version` set, unless
   * the entry point or its `package` is not table-like.
   */
  function SetVersion(doc: Document, v: Version): Edit
  {
    var entry := Entry(doc);
    if TableLike(entry).None? then NoPackage
    else
      var package := Get(entry, "package");
      if package.Some? && TableLike(package.value).None? then NoVersionKey
      else
        var filled := if package.None? then NewPackage(v) else InsertChild(package.value, "version", VersionValue(v));
        Edited(WithEntry(doc, InsertChild(entry, "package", filled)))
  }

  /** `Cli::run` on the manifest found at the given path. */
  method Run(manifest: Manifest, v: Version, dryRun: bool) returns (outcome: Outcome, effects: seq<Effect>)
    ensures manifest.Missing? ==> outcome == Failed(MissingManifest) && effects == []
    ensures manifest.Malformed? ==> outcome == Failed(manifest.error) && effects == []
    ensures manifest.Present? ==> outcome == Done && Reported(effects, SetVersion(manifest.doc, v), dryRun)
  {
    if manifest.Missing? {
      return Failed(MissingManifest), [];
    }
    if manifest.Malformed? {
      return Failed(manifest.error), [];
    }
    var doc := manifest.doc;
    var entrypoint := Entry(doc);
    if TableLike(entrypoint).None? {
      return Done, [Warn(NoPackageWarning)];
    }
    var package := Get(entrypoint, "package");
    if package.Some? && TableLike(package.value).None? {
      return Done, [Warn(NoVersionWarning)];
    }
    var filled;
    if package.None? {
      // `get_mut("version")` turns the placeholder into an inline table.
      filled := NewPackage(v);
    } else {
      filled := InsertChild(package.value, "version", VersionValue(v));
    }
    doc := WithEntry(doc, InsertChild(entrypoint, "package", filled));
    effects := Finish(doc, v, dryRun);
    return Done, effects;
  }

  /** `package` is found at its path exactly when the entry point holds it. */
  lemma GetAtPackagePath(doc: Document)
    ensures GetAt(doc, PackagePath(doc)) == Get(Entry(doc), "package")
  {
    if Get(doc, "workspace").Some? {
      GetAtCons(doc, "workspace", ["package"]);
      GetAtSingle(Entry(doc), "package");
      assert PackagePath(doc) == ["workspace"] + ["package"];
    } else {
      GetAtSingle(doc, "package");
    }
  }

  /** Storing into an existing `package` is an edit at its path. */
  lemma ThroughPackage(doc: Document, x: Item)
    requires TableLike(Entry(doc)).Some? && Get(Entry(doc), "package").Some?
    ensures WithEntry(doc, InsertChild(Entry(doc), "package", x)) == SetAt(doc, PackagePath(doc), x)
  {
    var entry := Entry(doc);
    InsertChildExisting(entry, "package", x);
    if Get(doc, "workspace").Some? {
      var path := PackagePath(doc);
      assert path == ["workspace", "package"] && path[1..] == ["package"];
      SetAtUnfold(doc, path, x);
    }
  }

  /**
   * Wherever the package command edits, this command makes the same edit: with
   * the version key present, `get_mut` and `get` find the same item.
   */
  lemma AgreesWhenVersionPresent(doc: Document, v: Version)
    requires GetAt(doc, VersionPath(doc)).Some?
    ensures SetVersion(doc, v) == SetPackageVersion(doc, v)
  {
    GetAtVersionPath(doc);
    GetAtPackagePath(doc);
    EditAtPackage(doc, v);
    VersionThroughPackage(doc, VersionValue(v));
    EditedWhenPresent(doc, v);
  }

  /** Storing `version` into a `package` that has one is assigning at the version path. */
  lemma VersionThroughPackage(doc: Document, x: Item)
    requires GetAt(doc, PackagePath(doc)).Some? && Get(GetAt(doc, PackagePath(doc)).value, "version").Some?
    ensures SetAt(doc, PackagePath(doc), InsertChild(GetAt(doc, PackagePath(doc)).value, "version", x)) ==
      SetAt(doc, VersionPath(doc), x)
  {
    var p := GetAt(doc, PackagePath(doc)).value;
    InsertChildExisting(p, "version", x);
    assert VersionPath(doc) == PackagePath(doc) + ["version"];
    SetAtExtend(doc, PackagePath(doc), "version", x);
  }

  /** With a table-like `package` there, the edit is an assignment at its path. */
  lemma EditAtPackage(doc: Document, v: Version)
    requires TableLike(Entry(doc)).Some? && Get(Entry(doc), "package").Some?
    requires TableLike(Get(Entry(doc), "package").value).Some?
    ensures SetVersion(doc, v) ==
      Edited(SetAt(doc, PackagePath(doc), InsertChild(Get(Entry(doc), "package").value, "version", VersionValue(v))))
  {
    ThroughPackage(doc, InsertChild(Get(Entry(doc), "package").value, "version", VersionValue(v)));
  }

  /**
   * This command warns only where the package command warns too, and with the same
   * "Package section not found" wherever that one gives it.
   */
  lemma WarnsLessOften(doc: Document, v: Version)
    ensures SetVersion(doc, v) == NoPackage <==> SetPackageVersion(doc, v) == NoPackage
    ensures SetVersion(doc, v) == NoVersionKey ==> SetPackageVersion(doc, v) == NoVersionKey
  {
  }

  /**
   * A table-like `package` without `version` gets `version` appended, its other
   * entries untouched, and every path that parts ways with `package` leads where
   * it led before; the package command only warns here.
   */
  lemma VersionInserted(doc: Document, v: Version, q: seq<string>)
    requires TableLike(Entry(doc)).Some? && Get(Entry(doc), "package").Some?
    requires TableLike(Get(Entry(doc), "package").value).Some?
    requires Get(Get(Entry(doc), "package").value, "version").None?
    ensures SetPackageVersion(doc, v) == NoVersionKey
    ensures SetVersion(doc, v).Edited?
    ensures var d := SetVersion(doc, v).doc;
      var p := Get(Entry(doc), "package").value;
      && GetAt(d, PackagePath(doc)).Some?
      && var p' := GetAt(d, PackagePath(doc)).value;
      && Get(p', "version") == Some(VersionValue(v))
      && Keys(TableLike(p').value) == Keys(TableLike(p).value) + ["version"]
      && (forall k :: k != "version" ==> Get(p', k) == Get(p, k))
      && (Diverge(PackagePath(doc), q) ==> GetAt(d, q) == GetAt(doc, q))
  {
    var p := Get(Entry(doc), "package").value;
    var x := InsertChild(p, "version", VersionValue(v));
    EditAtPackage(doc, v);
    GetAtPackagePath(doc);
    SetAtGet(doc, PackagePath(doc), x);
    if Diverge(PackagePath(doc), q) {
      SetAtFrame(doc, PackagePath(doc), q, x);
    }
  }

  /**
   * A table-like entry point without `package` gets `package = { version = … }`
   * appended, the entry point stays where it was, and nothing else in it or
   * around it changes; the package command only warns here.
   */
  lemma PackageCreated(doc: Document, v: Version)
    requires TableLike(Entry(doc)).Some? && Get(Entry(doc), "package").None?
    ensures SetPackageVersion(doc, v) == NoVersionKey
    ensures SetVersion(doc, v).Edited?
    ensures var d := SetVersion(doc, v).doc;
      var entry := Entry(doc);
      && (Get(d, "workspace").Some? <==> Get(doc, "workspace").Some?)
      && var entry' := Entry(d);
      && TableLike(entry').Some?
      && Get(entry', "package") == Some(NewPackage(v))
      && Keys(TableLike(entry').value) == Keys(TableLike(entry).value) + ["package"]
      && (forall k :: k != "package" ==> Get(entry', k) == Get(entry, k))
      && (forall k :: k != "workspace" && Get(doc, "workspace").Some? ==> Get(d, k) == Get(doc, k))
  {
    var entry := Entry(doc);
    var entry' := InsertChild(entry, "package", NewPackage(v));
    var d := SetVersion(doc, v).doc;
    if Get(doc, "workspace").Some? {
      assert d == SetChild(doc, "workspace", entry');
      assert Entry(d) == entry';
    } else {
      assert d == entry';
      assert Get(entry', "workspace") == Get(entry, "workspace");
    }
  }

  /** After an edit the entry point is where it was and `package.version` holds the new version. */
  lemma EditLeavesVersion(doc: Document, v: Version)
    requires SetVersion(doc, v).Edited?
    ensures var d := SetVersion(doc, v).doc;
      VersionPath(d) == VersionPath(doc) && GetAt(d, VersionPath(d)) == Some(VersionValue(v))
  {
    var d := SetVersion(doc, v).doc;
    var package := Get(Entry(doc), "package");
    if package.None? {
      PackageCreated(doc, v);
      assert EntryPath(d) == EntryPath(doc);
      GetAtVersionPath(d);
      assert Get(NewPackage(v), "version") == Some(VersionValue(v));
    } else {
      var filled := InsertChild(package.value, "version", VersionValue(v));
      EditAtPackage(doc, v);
      GetAtPackagePath(doc);
      SetAtPresence(doc, PackagePath(doc), filled, "workspace");
      assert EntryPath(d) == EntryPath(doc);
      SetAtGet(doc, PackagePath(doc), filled);
      GetAtPackagePath(d);
      GetAtVersionPath(d);
    }
  }

  /** A second run changes nothing more: the version is then where both commands look. */
  lemma SetVersionIdempotent(doc: Document, v: Version)
    requires SetVersion(doc, v).Edited?
    ensures SetVersion(SetVersion(doc, v).doc, v) == SetVersion(doc, v)
  {
    var d := SetVersion(doc, v).doc;
    EditLeavesVersion(doc, v);
    AgreesWhenVersionPresent(d, v);
    EditedWhenPresent(d, v);
    SetAtSame(d, VersionPath(d), VersionValue(v));
  }
}
