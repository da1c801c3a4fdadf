/**
 * The dependency command (`cargo verset dep`): rewrites one dependency entry to a
 * new version, looking in `workspace.dependencies` first and in the root
 * `dependencies` table otherwise, where a missing entry is added.
 */
module DepOptions {
  import opened Wrappers
  import opened Toml
  import opened SemVer
  import opened Effects

  /** `toml_edit::value(version.to_string())`: a string value with no decor. */
  function VersionItem(v: Version): Item
  {
    Val(Str(ToString(v)), None)
  }

  /** The suffix comment `update_dep_item` carries over: only a value item has one. */
  function SuffixOf(item: Item): Option<string>
  {
    if item.Val? then item.suffix else None
  }

  /** A table-like entry has `path` but no `version`: the rebuilt table drops `path`. */
  predicate PathWithoutVersion(es: seq<(string, Item)>)
  {
    "version" !in Keys(es) && "path" in Keys(es)
  }

  /** What the copy loop puts in the inline table for one entry of the old one, if anything. */
  function RebuiltEntry(e: (string, Item), hasVersion: bool, v: Version): Option<(string, Item)>
  {
    if e.0 == "version" then Some(("version", VersionItem(v)))
    else if e.0 == "path" && !hasVersion then None
    else if e.1.Val? then Some(e)
    else None
  }

  /** The inline table after the copy loop has seen the entries `es`. */
  function Rebuilt(es: seq<(string, Item)>, hasVersion: bool, v: Version): seq<(string, Item)>
    decreases |es|
  {
    if es == [] then []
    else
      var init := Rebuilt(es[..|es| - 1], hasVersion, v);
      match RebuiltEntry(es[|es| - 1], hasVersion, v)
      case None => init
      case Some(e) => Insert(init, e.0, e.1)
  }

  /**
   * `update_dep_item`: a table-like entry becomes an inline table with the new
   * `version`, a bare string becomes the new version string, anything else an
   * inline table holding only `version`; a value's suffix comment is kept.
   */
  function RewriteDep(item: Item, v: Version): Item
  {
    var comment := SuffixOf(item);
    match TableLike(item)
    case Some(es) =>
      var inline := Rebuilt(es, "version" in Keys(es), v);
      if PathWithoutVersion(es) then Val(Inline(Insert(inline, "version", VersionItem(v))), comment)
      else Val(Inline(inline), comment)
    case None =>
      if item.Val? && item.value.Str? then Val(Str(ToString(v)), comment)
      else Val(Inline([("version", VersionItem(v))]), comment)
  }

  const PathWarning := "A path key was found but no version key, setting version explicitly"

  /** `update_dep_item`; `warned` tells whether it logged its warning about `path`. */
  method UpdateDepItem(item: Item, v: Version) returns (r: Item, warned: bool)
    ensures r == RewriteDep(item, v)
    ensures warned <==> TableLike(item).Some? && PathWithoutVersion(TableLike(item).value)
  {
    warned := false;
    var comment := SuffixOf(item);
    match TableLike(item)
    case Some(table) =>
      var hasVersion := "version" in Keys(table);
      var inline := CopyEntries(table, hasVersion, v);
      if !hasVersion && "path" in Keys(table) {
        warned := true;
        inline := Insert(inline, "version", VersionItem(v));
      }
      r := Val(Inline(inline), comment);
    case None =>
      if item.Val? && item.value.Str? {
        r := Val(Str(ToString(v)), comment);
      } else {
        r := Val(Inline([("version", VersionItem(v))]), comment);
      }
  }

  /**
   * The copy loop of `update_dep_item`: `version` gets the new version, `path` is
   * skipped when there is no `version`, other values are copied and tables dropped.
   */
  method CopyEntries(table: seq<(string, Item)>, hasVersion: bool, v: Version) returns (inline: seq<(string, Item)>)
    ensures inline == Rebuilt(table, hasVersion, v)
  {
    inline := [];
    for i := 0 to |table|
      invariant inline == Rebuilt(table[..i], hasVersion, v)
    {
      assert table[..i + 1][..i] == table[..i];
      var (k, value) := table[i];
      if k == "version" {
        inline := Insert(inline, k, VersionItem(v));
      } else if k == "path" && !hasVersion {
        // the path key is skipped
      } else if value.Val? {
        inline := Insert(inline, k, value);
      }
    }
    assert table[..|table|] == table;
  }

  /** The keys of `es` that survive the copy loop, in their order. */
  function KeptKeys(es: seq<(string, Item)>, hasVersion: bool): seq<string>
    decreases |es|
  {
    if es == [] then []
    else
      var e := es[|es| - 1];
      KeptKeys(es[..|es| - 1], hasVersion)
        + (if e.0 == "version" || (e.1.Val? && !(e.0 == "path" && !hasVersion)) then [e.0] else [])
  }

  /** What the rebuilt table holds under `k`: the new version, a copied value, or nothing. */
  function Expected(es: seq<(string, Item)>, hasVersion: bool, v: Version, k: string): Option<Item>
  {
    match Lookup(es, k)
    case None => None
    case Some(prev) =>
      if k == "version" then Some(VersionItem(v))
      else if k == "path" && !hasVersion then None
      else if prev.Val? then Some(prev)
      else None
  }

  lemma {:induction false} KeptKeysIn(es: seq<(string, Item)>, hasVersion: bool, k: string)
    requires k in KeptKeys(es, hasVersion)
    ensures k in Keys(es)
    decreases |es|
  {
    var init := es[..|es| - 1];
    assert Keys(es) == Keys(init) + [es[|es| - 1].0];
    if k in KeptKeys(init, hasVersion) {
      KeptKeysIn(init, hasVersion, k);
    }
  }

  lemma LookupLast(es: seq<(string, Item)>, k: string)
    requires es != [] && UniqueKeys(es)
    ensures Lookup(es, k) == if k == es[|es| - 1].0 then Some(es[|es| - 1].1) else Lookup(es[..|es| - 1], k)
    ensures UniqueKeys(es[..|es| - 1]) && es[|es| - 1].0 !in Keys(es[..|es| - 1])
  {
    var init := es[..|es| - 1];
    var e := es[|es| - 1];
    assert es == init + [e];
    assert e.0 !in Keys(init);
    AppendLookup(init, e.0, e.1);
  }

  /**
   * On a table with distinct keys, the copy loop keeps the surviving keys in their
   * order and maps each to the new version, its old value, or nothing.
   */
  lemma {:induction false} RebuiltSpec(es: seq<(string, Item)>, hasVersion: bool, v: Version)
    requires UniqueKeys(es)
    ensures Keys(Rebuilt(es, hasVersion, v)) == KeptKeys(es, hasVersion)
    ensures forall k :: Lookup(Rebuilt(es, hasVersion, v), k) == Expected(es, hasVersion, v, k)
    decreases |es|
  {
    if es != [] {
      var init := es[..|es| - 1];
      LookupLast(es, es[|es| - 1].0);
      RebuiltSpec(init, hasVersion, v);
      RebuiltStepKeys(es, hasVersion, v);
      forall k ensures Lookup(Rebuilt(es, hasVersion, v), k) == Expected(es, hasVersion, v, k) {
        RebuiltStepLookup(es, hasVersion, v, k);
      }
    }
  }

  /** The last entry's key is new to the table built from the entries before it. */
  lemma RebuiltStepKeys(es: seq<(string, Item)>, hasVersion: bool, v: Version)
    requires es != [] && UniqueKeys(es)
    requires Keys(Rebuilt(es[..|es| - 1], hasVersion, v)) == KeptKeys(es[..|es| - 1], hasVersion)
    ensures Keys(Rebuilt(es, hasVersion, v)) == KeptKeys(es, hasVersion)
  {
    var init := es[..|es| - 1];
    var e := es[|es| - 1];
    LookupLast(es, e.0);
    var prev := Rebuilt(init, hasVersion, v);
    if e.0 in KeptKeys(init, hasVersion) {
      KeptKeysIn(init, hasVersion, e.0);
    }
    assert e.0 !in Keys(prev);
  }

  lemma RebuiltStepLookup(es: seq<(string, Item)>, hasVersion: bool, v: Version, k: string)
    requires es != [] && UniqueKeys(es)
    requires Lookup(Rebuilt(es[..|es| - 1], hasVersion, v), k) == Expected(es[..|es| - 1], hasVersion, v, k)
    ensures Lookup(Rebuilt(es, hasVersion, v), k) == Expected(es, hasVersion, v, k)
  {
    var init := es[..|es| - 1];
    var e := es[|es| - 1];
    LookupLast(es, k);
    var before := Lookup(init, k);
    if k == e.0 {
      assert before == None;
      ExpectedLast(es, hasVersion, v, k, e, Lookup(Rebuilt(init, hasVersion, v), k));
    } else {
      ExpectedOther(es, hasVersion, v, k, e);
    }
  }

  lemma ExpectedLast(es: seq<(string, Item)>, hasVersion: bool, v: Version, k: string, e: (string, Item), prevAt: Option<Item>)
    requires es != [] && e == es[|es| - 1] && k == e.0
    requires Lookup(es, k) == Some(e.1)
    requires prevAt == Lookup(Rebuilt(es[..|es| - 1], hasVersion, v), k) && prevAt == None
    ensures Lookup(Rebuilt(es, hasVersion, v), k) == Expected(es, hasVersion, v, k)
  {
    var prev := Rebuilt(es[..|es| - 1], hasVersion, v);
    match RebuiltEntry(e, hasVersion, v)
    case None =>
      assert Rebuilt(es, hasVersion, v) == prev;
    case Some(x) =>
      assert Rebuilt(es, hasVersion, v) == Insert(prev, x.0, x.1);
  }

  lemma ExpectedOther(es: seq<(string, Item)>, hasVersion: bool, v: Version, k: string, e: (string, Item))
    requires es != [] && e == es[|es| - 1] && k != e.0
    requires Lookup(es, k) == Lookup(es[..|es| - 1], k)
    requires Lookup(Rebuilt(es[..|es| - 1], hasVersion, v), k) == Expected(es[..|es| - 1], hasVersion, v, k)
    ensures Lookup(Rebuilt(es, hasVersion, v), k) == Expected(es, hasVersion, v, k)
  {
    ExpectedSameLookup(es, hasVersion, v, k);
    RebuiltOtherKey(es, hasVersion, v, k, e);
  }

  lemma ExpectedSameLookup(es: seq<(string, Item)>, hasVersion: bool, v: Version, k: string)
    requires es != []
    requires Lookup(es, k) == Lookup(es[..|es| - 1], k)
    ensures Expected(es, hasVersion, v, k) == Expected(es[..|es| - 1], hasVersion, v, k)
  {
  }

  lemma RebuiltOtherKey(es: seq<(string, Item)>, hasVersion: bool, v: Version, k: string, e: (string, Item))
    requires es != [] && e == es[|es| - 1] && k != e.0
    ensures Lookup(Rebuilt(es, hasVersion, v), k) == Lookup(Rebuilt(es[..|es| - 1], hasVersion, v), k)
  {
    var prev := Rebuilt(es[..|es| - 1], hasVersion, v);
    match RebuiltEntry(e, hasVersion, v)
    case None =>
      assert Rebuilt(es, hasVersion, v) == prev;
    case Some(x) =>
      assert Rebuilt(es, hasVersion, v) == Insert(prev, x.0, x.1);
      assert Lookup(Insert(prev, x.0, x.1), k) == Lookup(prev, k);
  }

  /** A bare version string becomes the new version string and keeps its comment. */
  lemma RewriteBareString(s: string, comment: Option<string>, v: Version)
    ensures RewriteDep(Val(Str(s), comment), v) == Val(Str(ToString(v)), comment)
  {
  }

  /**
   * A table-like entry becomes an inline table that keeps its value entries in
   * order, sets `version` to the new version, drops sub-tables, drops `path` when
   * there was no `version` and then appends `version` last; a value's comment is kept.
   */
  lemma RewriteTableLike(item: Item, v: Version)
    requires TableLike(item).Some? && UniqueKeys(TableLike(item).value)
    ensures var es := TableLike(item).value;
      var r := RewriteDep(item, v);
      && r.Val? && r.value.Inline? && r.suffix == SuffixOf(item)
      && Keys(r.value.entries) == KeptKeys(es, "version" in Keys(es)) + (if PathWithoutVersion(es) then ["version"] else [])
      && (forall k :: k != "version" ==> Lookup(r.value.entries, k) == Expected(es, "version" in Keys(es), v, k))
      && (Lookup(r.value.entries, "version") == if "version" in Keys(es) || "path" in Keys(es) then Some(VersionItem(v)) else None)
  {
    var es := TableLike(item).value;
    var hasVersion := "version" in Keys(es);
    RebuiltSpec(es, hasVersion, v);
    if PathWithoutVersion(es) {
      var inline := Rebuilt(es, hasVersion, v);
      assert "version" !in Keys(inline) by {
        if "version" in KeptKeys(es, hasVersion) {
          KeptKeysIn(es, hasVersion, "version");
        }
      }
    }
  }

  /** With a `version` key, only its value changes: every other value entry is copied verbatim. */
  lemma RewriteKeepsOtherValues(item: Item, v: Version, k: string, prev: Item)
    requires TableLike(item).Some? && UniqueKeys(TableLike(item).value)
    requires "version" in Keys(TableLike(item).value)
    requires k != "version" && Lookup(TableLike(item).value, k) == Some(prev) && prev.Val?
    ensures Lookup(RewriteDep(item, v).value.entries, k) == Some(prev)
    ensures Lookup(RewriteDep(item, v).value.entries, "version") == Some(VersionItem(v))
  {
    RewriteTableLike(item, v);
  }

  /** Without `version` but with `path`: `path` is gone and `version` is the last key. */
  lemma RewriteDropsPath(item: Item, v: Version)
    requires TableLike(item).Some? && UniqueKeys(TableLike(item).value)
    requires PathWithoutVersion(TableLike(item).value)
    ensures var r := RewriteDep(item, v).value.entries;
      && "path" !in Keys(r)
      && r != [] && r[|r| - 1] == ("version", VersionItem(v))
  {
    var es := TableLike(item).value;
    var inline := Rebuilt(es, false, v);
    RebuiltSpec(es, false, v);
    if "version" in KeptKeys(es, false) {
      KeptKeysIn(es, false, "version");
    }
    KeptKeysNoPath(es);
    assert Insert(inline, "version", VersionItem(v)) == inline + [("version", VersionItem(v))];
    assert Keys(inline + [("version", VersionItem(v))]) == Keys(inline) + ["version"];
  }

  /** Without a `version` key, `path` never survives the copy loop. */
  lemma {:induction false} KeptKeysNoPath(es: seq<(string, Item)>)
    ensures "path" !in KeptKeys(es, false)
    decreases |es|
  {
    if es != [] {
      KeptKeysNoPath(es[..|es| - 1]);
    }
  }

  /** Without `version` or `path`, no `version` key is added. */
  lemma RewriteNoVersionNoPath(item: Item, v: Version)
    requires TableLike(item).Some? && UniqueKeys(TableLike(item).value)
    requires "version" !in Keys(TableLike(item).value) && "path" !in Keys(TableLike(item).value)
    ensures "version" !in Keys(RewriteDep(item, v).value.entries)
  {
    RewriteTableLike(item, v);
  }

  /** Any other kind of item becomes an inline table with only `version`, keeping a value's comment. */
  lemma RewriteOther(item: Item, v: Version)
    requires TableLike(item).None? && !(item.Val? && item.value.Str?)
    ensures RewriteDep(item, v) == Val(Inline([("version", VersionItem(v))]), SuffixOf(item))
    ensures item.Val? ==> RewriteDep(item, v).suffix == item.suffix
  {
  }

  /**
   * What `update_dep_item` makes of the empty placeholder that `get_mut(name)`
   * inserts for a missing name: an inline table holding only `version`.
   */
  function NewDepEntry(v: Version): Item
  {
    Val(Inline([("version", VersionItem(v))]), None)
  }

  /** The placeholder is neither table-like nor a string and has no decor: any such item becomes `NewDepEntry`. */
  lemma NewDepEntryIsRewrite(v: Version)
    ensures forall item :: TableLike(item).None? && !(item.Val? && item.value.Str?) && SuffixOf(item).None? ==>
      RewriteDep(item, v) == NewDepEntry(v)
  {
  }

  /** Where `doc.get_mut("workspace").and_then(|ws| ws.get_mut("dependencies"))` then `get_mut(name)` leads. */
  function WorkspacePath(name: string): seq<string>
  {
    ["workspace", "dependencies", name]
  }

  /**
   * The first step takes the dependency: `workspace` is table-like and so is its
   * `dependencies`, when there is one. Each `get_mut` on a table-like item then
   * finds or inserts what it asks for; a missing `dependencies` gets a placeholder
   * that the next `get_mut` turns into an inline table.
   */
  predicate WorkspaceTakes(doc: Document)
  {
    && Get(doc, "workspace").Some?
    && TableLike(Get(doc, "workspace").value).Some?
    && var deps := Get(Get(doc, "workspace").value, "dependencies");
    (deps.None? || TableLike(deps.value).Some?)
  }

  /**
   * The document the command leaves in memory: `None` when the root `dependencies`
   * is not table-like and a new entry would have to be indexed into it, which
   * makes toml_edit panic.
   */
  function SetDependency(doc: Document, name: string, v: Version): Option<Document>
  {
    if WorkspaceTakes(doc) then Some(SetWorkspaceDependency(doc, name, v))
    else SetRootDependency(doc, name, v)
  }

  /** The first step: rewrite the entry of `workspace.dependencies`, or store a new one there. */
  function SetWorkspaceDependency(doc: Document, name: string, v: Version): Document
    requires WorkspaceTakes(doc)
  {
    var ws := Get(doc, "workspace").value;
    match Get(ws, "dependencies")
    case None =>
      SetChild(doc, "workspace", InsertChild(ws, "dependencies", Val(Inline([(name, NewDepEntry(v))]), None)))
    case Some(deps) =>
      match Get(deps, name)
      case Some(item) => SetAt(doc, WorkspacePath(name), RewriteDep(item, v))
      case None => SetAt(doc, ["workspace", "dependencies"], InsertChild(deps, name, NewDepEntry(v)))
  }

  /** The second step: the root `dependencies` table, created empty when it is absent. */
  function SetRootDependency(doc: Document, name: string, v: Version): Option<Document>
  {
    SetInDependencies(WithDependencies(doc), name, v)
  }

  /** `doc.entry("dependencies").or_insert(table())`. */
  function WithDependencies(doc: Document): (r: Document)
    ensures Get(r, "dependencies").Some?
  {
    if Get(doc, "dependencies").None? then InsertChild(doc, "dependencies", Table([])) else doc
  }

  /**
   * Rewrite the entry of the root `dependencies` table, or store a new one in it;
   * indexing a name into a `dependencies` that is not table-like panics.
   */
  function SetInDependencies(withDeps: Document, name: string, v: Version): Option<Document>
    requires Get(withDeps, "dependencies").Some?
  {
    var deps := Get(withDeps, "dependencies").value;
    if Get(deps, name).Some? then
      Some(SetAt(withDeps, ["dependencies", name], RewriteDep(Get(deps, name).value, v)))
    else if TableLike(deps).Some? then
      Some(SetChild(withDeps, "dependencies", InsertChild(deps, name, NewDepEntry(v))))
    else None
  }

  /**
   * The in-memory part of `DependencyOptions::run`: the located entry is
   * rewritten, or the new one stored, in the parsed document.
   */
  method EditDocument(doc0: Document, name: string, v: Version)
    returns (doc: Option<Document>, inWorkspace: bool, warned: bool)
    ensures doc == SetDependency(doc0, name, v)
    ensures inWorkspace <==> WorkspaceTakes(doc0)
  {
    // 1. [workspace.dependencies]
    if WorkspaceTakes(doc0) {
      var d;
      d, warned := EditWorkspaceDependencies(doc0, name, v);
      return Some(d), true, warned;
    }
    // 2. [dependencies]
    doc, warned := EditRootDependencies(doc0, name, v);
    inWorkspace := false;
  }

  /** The first step on a manifest whose `workspace` takes the dependency. */
  method EditWorkspaceDependencies(doc0: Document, name: string, v: Version)
    returns (doc: Document, warned: bool)
    requires WorkspaceTakes(doc0)
    ensures doc == SetWorkspaceDependency(doc0, name, v)
  {
    var ws := Get(doc0, "workspace").value;
    var deps := Get(ws, "dependencies");
    if deps.None? {
      // The placeholder for `dependencies` becomes an inline table holding the new entry.
      return SetChild(doc0, "workspace", InsertChild(ws, "dependencies", Val(Inline([(name, NewDepEntry(v))]), None))), false;
    }
    var item := Get(deps.value, name);
    if item.None? {
      return SetAt(doc0, ["workspace", "dependencies"], InsertChild(deps.value, name, NewDepEntry(v))), false;
    }
    var newItem;
    newItem, warned := UpdateDepItem(item.value, v);
    doc := SetAt(doc0, WorkspacePath(name), newItem);
  }

  /** `doc.entry("dependencies").or_insert(table())`, then rewrite or store the entry. */
  method EditRootDependencies(doc0: Document, name: string, v: Version)
    returns (doc: Option<Document>, warned: bool)
    ensures doc == SetRootDependency(doc0, name, v)
  {
    var d := doc0;
    warned := false;
    if Get(d, "dependencies").None? {
      d := InsertChild(d, "dependencies", Table([]));
    }
    assert d == WithDependencies(doc0);
    var deps := Get(d, "dependencies").value;
    var item := Get(deps, name);
    if item.Some? {
      var newItem;
      newItem, warned := UpdateDepItem(item.value, v);
      doc := Some(SetAt(d, ["dependencies", name], newItem));
    } else if TableLike(deps).Some? {
      // `get_mut(name)` inserted a placeholder, which `update_dep_item` fills.
      doc := Some(SetChild(d, "dependencies", InsertChild(deps, name, NewDepEntry(v))));
    } else {
      // `deps[name]` on an item that is not table-like: "index not found".
      doc := None;
    }
  }

  /** The log lines and the write that follow a successful edit. */
  method Report(doc: Document, scope: string, name: string, v: Version, dryRun: bool) returns (effects: seq<Effect>)
    ensures dryRun ==> NoneMutating(effects)
    ensures !dryRun ==> WritesOnly(effects, doc)
  {
    if dryRun {
      effects := [Info("Dry run: Did not set version for " + scope + " dependency '" + name + "'!")];
    } else {
      effects := [WriteManifest(doc), Info("Successfully set version for " + scope
        + " dependency '" + name + "' to " + ToString(v))];
      assert effects[0] == WriteManifest(doc) && OnlyMutatingAt(effects, 0);
    }
  }

  /** The message of toml_edit's panic when a key is indexed into an item that is not table-like. */
  const IndexNotFound := "index not found"

  /**
   * How a run over a parsed manifest ends: a panic with nothing written, or the
   * edited document, written once and nothing else changed unless it is a dry run.
   */
  predicate Concluded(outcome: Outcome, effects: seq<Effect>, edit: Option<Document>, dryRun: bool)
  {
    match edit
    case None => outcome == Panicked(IndexNotFound) && NoneMutating(effects)
    case Some(d) => outcome == Done && if dryRun then NoneMutating(effects) else WritesOnly(effects, d)
  }

  /** The warning about `path`, then the panic or the log lines and the write. */
  method Conclude(edit: Option<Document>, inWorkspace: bool, warned: bool, name: string, v: Version, dryRun: bool)
    returns (outcome: Outcome, effects: seq<Effect>)
    ensures Concluded(outcome, effects, edit, dryRun)
  {
    var warnings := if warned then [Warn(PathWarning)] else [];
    assert NoneMutating(warnings);
    if edit.None? {
      return Panicked(IndexNotFound), warnings;
    }
    var report := Report(edit.value, if inWorkspace then "workspace" else "root", name, v, dryRun);
    effects := warnings + report;
    if dryRun {
      NoneMutatingAppend(warnings, report);
    } else {
      WritesOnlyAfter(warnings, report, edit.value);
    }
    return Done, effects;
  }

  /** `DependencyOptions::run` on the manifest found at the given path. */
  method Run(manifest: Manifest, name: string, v: Version, dryRun: bool)
    returns (outcome: Outcome, effects: seq<Effect>)
    ensures manifest.Missing? ==> outcome == Failed("Could not find Cargo.toml in the workspace") && effects == []
    ensures manifest.Malformed? ==> outcome == Failed(manifest.error) && effects == []
    ensures manifest.Present? ==> Concluded(outcome, effects, SetDependency(manifest.doc, name, v), dryRun)
  {
    match manifest
    case Missing =>
      return Failed("Could not find Cargo.toml in the workspace"), [];
    case Malformed(error) =>
      return Failed(error), [];
    case Present(doc0) =>
      var doc, inWorkspace, warned := EditDocument(doc0, name, v);
      outcome, effects := Conclude(doc, inWorkspace, warned, name, v, dryRun);
  }

  /** The workspace path leads to an entry exactly when each `get` on the way finds its key. */
  lemma GetAtWorkspacePath(doc: Document, name: string)
    ensures GetAt(doc, WorkspacePath(name)) ==
      match Get(doc, "workspace")
      case None => None
      case Some(ws) =>
        match Get(ws, "dependencies")
        case None => None
        case Some(deps) => Get(deps, name)
  {
    GetAtCons(doc, "workspace", ["dependencies", name]);
    assert WorkspacePath(name) == ["workspace"] + ["dependencies", name];
    if Get(doc, "workspace").Some? {
      var ws := Get(doc, "workspace").value;
      GetAtCons(ws, "dependencies", [name]);
      if Get(ws, "dependencies").Some? {
        GetAtSingle(Get(ws, "dependencies").value, name);
      }
    }
  }

  /**
   * An existing entry in `workspace.dependencies` is final: that entry is
   * rewritten, and every part of the manifest off its path is left as it was.
   */
  lemma WorkspaceMatchIsFinal(doc: Document, name: string, v: Version, q: seq<string>)
    requires GetAt(doc, WorkspacePath(name)).Some?
    requires Diverge(WorkspacePath(name), q)
    ensures WorkspaceTakes(doc)
    ensures var r := SetDependency(doc, name, v);
      && r.Some?
      && GetAt(r.value, WorkspacePath(name)) == Some(RewriteDep(GetAt(doc, WorkspacePath(name)).value, v))
      && GetAt(r.value, q) == GetAt(doc, q)
  {
    GetAtWorkspacePath(doc, name);
    var p := WorkspacePath(name);
    var x := RewriteDep(GetAt(doc, p).value, v);
    SetAtGet(doc, p, x);
    SetAtFrame(doc, p, q, x);
  }

  /**
   * Whenever the workspace takes the dependency, the root of the manifest, and so
   * the root `dependencies` table, is left as it was: there is no second step.
   */
  lemma WorkspaceLeavesRoot(doc: Document, name: string, v: Version)
    requires WorkspaceTakes(doc)
    ensures var r := SetDependency(doc, name, v);
      && r.Some?
      && Keys(TableLike(r.value).value) == Keys(TableLike(doc).value)
      && (forall k :: k != "workspace" ==> Get(r.value, k) == Get(doc, k))
  {
    var ws := Get(doc, "workspace").value;
    var r := SetWorkspaceDependency(doc, name, v);
    if Get(ws, "dependencies").Some? {
      var deps := Get(ws, "dependencies").value;
      var path := if Get(deps, name).Some? then WorkspacePath(name) else ["workspace", "dependencies"];
      var x := if Get(deps, name).Some? then RewriteDep(Get(deps, name).value, v) else InsertChild(deps, name, NewDepEntry(v));
      assert r == SetAt(doc, path, x);
      SetAtUnfold(doc, path, x);
    }
  }

  /**
   * A name missing from a table-like `workspace.dependencies` is stored there as
   * `{ version = … }`, after the other entries, which are as they were.
   */
  lemma WorkspaceEntryInserted(doc: Document, name: string, v: Version)
    requires WorkspaceTakes(doc)
    requires Get(Get(doc, "workspace").value, "dependencies").Some?
    requires Get(Get(Get(doc, "workspace").value, "dependencies").value, name).None?
    ensures var r := SetDependency(doc, name, v);
      var ws := Get(doc, "workspace").value;
      var deps := Get(ws, "dependencies").value;
      && r.Some? && Get(r.value, "workspace").Some?
      && var ws' := Get(r.value, "workspace").value;
      && Keys(TableLike(ws').value) == Keys(TableLike(ws).value)
      && (forall k :: k != "dependencies" ==> Get(ws', k) == Get(ws, k))
      && Get(ws', "dependencies").Some?
      && var deps' := Get(ws', "dependencies").value;
      && Get(deps', name) == Some(NewDepEntry(v))
      && Keys(TableLike(deps').value) == Keys(TableLike(deps).value) + [name]
      && (forall k :: k != name ==> Get(deps', k) == Get(deps, k))
  {
    var ws := Get(doc, "workspace").value;
    var deps := Get(ws, "dependencies").value;
    var x := InsertChild(deps, name, NewDepEntry(v));
    var path := ["workspace", "dependencies"];
    assert path[1..] == ["dependencies"];
    SetAtUnfold(doc, path, x);
    assert SetDependency(doc, name, v) == Some(SetChild(doc, "workspace", SetChild(ws, "dependencies", x)));
  }

  /**
   * A table-like `workspace` without `dependencies` gets
   * `dependencies = { <name> = { version = … } }` after its other entries.
   */
  lemma WorkspaceDependenciesCreated(doc: Document, name: string, v: Version)
    requires WorkspaceTakes(doc)
    requires Get(Get(doc, "workspace").value, "dependencies").None?
    ensures var r := SetDependency(doc, name, v);
      var ws := Get(doc, "workspace").value;
      && r.Some? && Get(r.value, "workspace").Some?
      && var ws' := Get(r.value, "workspace").value;
      && TableLike(ws').Some?
      && Get(ws', "dependencies") == Some(Val(Inline([(name, NewDepEntry(v))]), None))
      && Keys(TableLike(ws').value) == Keys(TableLike(ws).value) + ["dependencies"]
      && (forall k :: k != "dependencies" ==> Get(ws', k) == Get(ws, k))
  {
  }

  /** Without the workspace taking it, the dependency goes to the root `dependencies` table. */
  lemma FallsBackToRoot(doc: Document, name: string, v: Version)
    requires !WorkspaceTakes(doc)
    ensures SetDependency(doc, name, v) == SetRootDependency(doc, name, v)
  {
  }

  /**
   * At the root, an existing entry is rewritten and every path that parts ways
   * with it leads where it led before.
   */
  lemma RootEntryRewritten(doc: Document, name: string, v: Version, q: seq<string>)
    requires !WorkspaceTakes(doc)
    requires GetAt(doc, ["dependencies", name]).Some?
    requires Diverge(["dependencies", name], q)
    ensures var r := SetDependency(doc, name, v);
      && r.Some?
      && GetAt(r.value, ["dependencies", name]) == Some(RewriteDep(GetAt(doc, ["dependencies", name]).value, v))
      && GetAt(r.value, q) == GetAt(doc, q)
  {
    var p := ["dependencies", name];
    assert p[1..] == [name] && [name][1..] == [];
    var deps := Get(doc, "dependencies").value;
    assert GetAt(deps, [name]) == Get(deps, name) by {
      assert GetAt(Get(deps, name).value, []) == Get(deps, name);
    }
    assert GetAt(doc, p) == Get(deps, name);
    var x := RewriteDep(Get(deps, name).value, v);
    SetAtGet(doc, p, x);
    SetAtFrame(doc, p, q, x);
  }

  /**
   * At the root, a name missing from a table-like `dependencies` is stored as
   * `{ version = … }` after the other entries, which are as they were, and
   * nothing else in the manifest changes.
   */
  lemma RootEntryInserted(doc: Document, name: string, v: Version)
    requires !WorkspaceTakes(doc)
    requires Get(doc, "dependencies").Some? && TableLike(Get(doc, "dependencies").value).Some?
    requires Get(Get(doc, "dependencies").value, name).None?
    ensures var r := SetDependency(doc, name, v);
      var deps := Get(doc, "dependencies").value;
      && r.Some?
      && Keys(TableLike(r.value).value) == Keys(TableLike(doc).value)
      && (forall k :: k != "dependencies" ==> Get(r.value, k) == Get(doc, k))
      && Get(r.value, "dependencies").Some?
      && var deps' := Get(r.value, "dependencies").value;
      && Get(deps', name) == Some(NewDepEntry(v))
      && Keys(TableLike(deps').value) == Keys(TableLike(deps).value) + [name]
      && (forall k :: k != name ==> Get(deps', k) == Get(deps, k))
  {
  }

  /**
   * At the root, without a `dependencies` table, a table holding only the new
   * entry is appended to the document.
   */
  lemma DependenciesCreated(doc: Document, name: string, v: Version)
    requires !WorkspaceTakes(doc)
    requires Get(doc, "dependencies").None?
    ensures var r := SetDependency(doc, name, v);
      && r.Some?
      && Keys(TableLike(r.value).value) == Keys(TableLike(doc).value) + ["dependencies"]
      && Get(r.value, "dependencies") == Some(Table([(name, NewDepEntry(v))]))
      && (forall k :: k != "dependencies" ==> Get(r.value, k) == Get(doc, k))
  {
    FallsBackToRoot(doc, name, v);
    RootDependenciesCreated(doc, name, v);
  }

  lemma RootDependenciesCreated(doc: Document, name: string, v: Version)
    requires Get(doc, "dependencies").None?
    ensures var r := SetRootDependency(doc, name, v);
      && r.Some?
      && Keys(TableLike(r.value).value) == Keys(TableLike(doc).value) + ["dependencies"]
      && Get(r.value, "dependencies") == Some(Table([(name, NewDepEntry(v))]))
      && (forall k :: k != "dependencies" ==> Get(r.value, k) == Get(doc, k))
  {
    var withDeps := InsertChild(doc, "dependencies", Table([]));
    assert WithDependencies(doc) == withDeps;
    assert Keys(TableLike(withDeps).value) == Keys(TableLike(doc).value) + ["dependencies"];
    var filled := Table([(name, NewDepEntry(v))]);
    SingleEntry(name, NewDepEntry(v));
    var r := SetChild(withDeps, "dependencies", filled);
    assert SetRootDependency(doc, name, v) == Some(r);
    assert Keys(TableLike(r).value) == Keys(TableLike(withDeps).value);
  }

  lemma SingleEntry(name: string, x: Item)
    ensures InsertChild(Table([]), name, x) == Table([(name, x)])
  {
    assert Insert([], name, x) == [(name, x)];
  }

  /**
   * The run panics exactly when the dependency falls to a root `dependencies`
   * that is not table-like: `get_mut(name)` finds nothing in it and indexing a
   * new entry into it fails.
   */
  lemma PanicsExactly(doc: Document, name: string, v: Version)
    ensures SetDependency(doc, name, v).None? <==>
      && !WorkspaceTakes(doc)
      && Get(doc, "dependencies").Some?
      && TableLike(Get(doc, "dependencies").value).None?
  {
  }
}
