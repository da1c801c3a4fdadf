/**
 * What a command does to the outside world, in the order it does it, and how it
 * ends. Writing the manifest, git operations, subprocesses and log lines are
 * recorded as effects instead of being performed.
 */
module Effects {
  import opened Wrappers
  import Toml

  /** How `run` returns: `Ok(())`, an `anyhow` error, or a panic inside toml_edit. */
  datatype Outcome = Done | Failed(message: string) | Panicked(message: string)

  datatype Effect =
    | Warn(message: string)
    | Info(message: string)
      /** `fs::write(Cargo.toml, doc.to_string())`. */
    | WriteManifest(doc: Toml.Document)
      /** A commit of the staged manifest on HEAD, with this message. */
    | Commit(message: string)
      /** A lightweight tag on the new HEAD. */
    | Tag(name: string)
      /** `git push origin HEAD`. */
    | PushHead
      /** `git push origin --tags`. */
    | PushTags
      /** `cargo publish`, with `--registry` when one is named. */
    | Publish(registry: Option<string>)

  /** The effects that change a file, the repository or a remote. */
  predicate Mutating(e: Effect)
  {
    e.WriteManifest? || e.Commit? || e.Tag? || e.PushHead? || e.PushTags? || e.Publish?
  }

  predicate NoneMutating(effects: seq<Effect>)
  {
    forall i :: 0 <= i < |effects| ==> !Mutating(effects[i])
  }

  /** Every effect but the one at `i` leaves the world as it is. */
  predicate OnlyMutatingAt(effects: seq<Effect>, i: int)
  {
    forall j :: 0 <= j < |effects| && j != i ==> !Mutating(effects[j])
  }

  /** The manifest is written once, with `d`, and nothing else is changed. */
  predicate WritesOnly(effects: seq<Effect>, d: Toml.Document)
  {
    exists i :: 0 <= i < |effects| && effects[i] == WriteManifest(d) && OnlyMutatingAt(effects, i)
  }

  /** Log lines before a single write leave it the single write. */
  lemma WritesOnlyAfter(prefix: seq<Effect>, rest: seq<Effect>, d: Toml.Document)
    requires NoneMutating(prefix) && WritesOnly(rest, d)
    ensures WritesOnly(prefix + rest, d)
  {
    var i :| 0 <= i < |rest| && rest[i] == WriteManifest(d) && OnlyMutatingAt(rest, i);
    var all := prefix + rest;
    assert all[|prefix| + i] == WriteManifest(d);
    forall j | 0 <= j < |all| && j != |prefix| + i
      ensures !Mutating(all[j])
    {
      if j < |prefix| {
        assert all[j] == prefix[j];
      } else {
        assert all[j] == rest[j - |prefix|];
      }
    }
  }

  /** Nothing mutating on either side: nothing mutating together. */
  lemma NoneMutatingAppend(prefix: seq<Effect>, rest: seq<Effect>)
    requires NoneMutating(prefix) && NoneMutating(rest)
    ensures NoneMutating(prefix + rest)
  {
    var all := prefix + rest;
    forall j | 0 <= j < |all|
      ensures !Mutating(all[j])
    {
      if j < |prefix| {
        assert all[j] == prefix[j];
      } else {
        assert all[j] == rest[j - |prefix|];
      }
    }
  }
}
