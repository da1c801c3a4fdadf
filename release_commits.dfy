/**
 * How the release command reads commit messages: conventional-commit parsing,
 * the sorting of commits into changelog sections, and the version bump they
 * call for, both for the built-in revwalk and for git-cliff's commit list.
 */
module ReleaseCommits {
  import opened Wrappers
  import opened Text
  import opened SemVer
  import opened ReleaseChangelog

  /** The commit type and breaking flag of one message. */
  datatype ParsedCommit = ParsedCommit(commitType: string, isBreaking: bool)

  /**
   * `parse_conventional_commit`: breaking when the message has a `!` anywhere or
   * mentions "breaking change" in any case; the type is what precedes the first
   * colon, cut at the first `(`, without `!`, trimmed and lowered; "other" when
   * there is no colon.
   */
  function ParseConventionalCommit(message: string): (r: ParsedCommit)
    ensures r.isBreaking <==> '!' in message || Contains(Lower(message), "breaking change")
    ensures ':' !in message ==> r.commitType == "other"
  {
    var isBreaking := '!' in message || Contains(Lower(message), "breaking change");
    match IndexOf(message, ':')
    case None => ParsedCommit("other", isBreaking)
    case Some(colon) =>
      var typePart := RemoveAll(BeforeFirst(message[..colon], '('), '!');
      ParsedCommit(Lower(Trim(typePart)), isBreaking)
  }

  /**
   * The type of a message with a colon has no `!`, `(` or `:`, no upper-case
   * letter, and no whitespace at either end.
   */
  lemma CommitTypeShape(message: string)
    requires ':' in message
    ensures var t := ParseConventionalCommit(message).commitType;
      && '!' !in t && '(' !in t && ':' !in t
      && (forall i :: 0 <= i < |t| ==> !('A' <= t[i] <= 'Z'))
      && (t == [] || (!IsWhitespace(t[0]) && !IsWhitespace(t[|t| - 1])))
  {
    var colon := IndexOf(message, ':').value;
    var head := BeforeFirst(message[..colon], '(');
    var typePart := RemoveAll(head, '!');
    assert '(' !in typePart && ':' !in typePart && '!' !in typePart by {
      RemoveAllSpec(head, '!');
      assert ':' !in head by {
        assert head == message[..colon][..|head|];
      }
    }
    LowerTrimShape(typePart);
  }

  /** The type of a message depends only on the text before its first colon. */
  lemma CommitTypeBeforeColon(message: string, rest: string)
    requires ':' in message
    ensures ParseConventionalCommit(message).commitType
      == ParseConventionalCommit(BeforeFirst(message, ':') + ":" + rest).commitType
  {
    var head := BeforeFirst(message, ':');
    var other := head + ":" + rest;
    assert other[|head|] == ':' && other[..|head|] == head;
    assert IndexOf(other, ':') == Some(|head|);
    assert IndexOf(message, ':') == Some(|head|);
  }

  /** The changelog section, and bump, a message belongs to. */
  datatype Category = BreakingChange | Feature | Fix | Other

  /** Breaking first; then the type decides: `feat`/`feature`, `fix`, anything else. */
  function Classify(parsed: ParsedCommit): Category
  {
    if parsed.isBreaking then BreakingChange
    else if parsed.commitType == "feat" || parsed.commitType == "feature" then Feature
    else if parsed.commitType == "fix" then Fix
    else Other
  }

  function CategoryOf(message: string): Category
  {
    Classify(ParseConventionalCommit(message))
  }

  /** The trimmed messages of category `c`, in walk order. */
  function Selected(messages: seq<string>, c: Category): seq<string>
    decreases |messages|
  {
    if messages == [] then []
    else
      var last := Trim(messages[|messages| - 1]);
      Selected(messages[..|messages| - 1], c) + (if CategoryOf(last) == c then [last] else [])
  }

  /** Some message is, once trimmed, of category `c`: its list is not empty. */
  predicate Has(messages: seq<string>, c: Category)
  {
    Selected(messages, c) != []
  }

  /** A list is non-empty exactly when some message of the walk has its category. */
  lemma {:induction false} HasIff(messages: seq<string>, c: Category)
    ensures Has(messages, c) <==> exists m :: m in messages && CategoryOf(Trim(m)) == c
    decreases |messages|
  {
    if messages != [] {
      var init := messages[..|messages| - 1];
      var last := messages[|messages| - 1];
      HasIff(init, c);
      assert messages == init + [last];
      if Has(messages, c) {
        if CategoryOf(Trim(last)) != c {
          var m :| m in init && CategoryOf(Trim(m)) == c;
          assert m in messages;
        }
      } else {
        forall m | m in messages ensures CategoryOf(Trim(m)) != c {
          if m != last {
            assert m in init;
          }
        }
      }
    }
  }

  lemma WholePrefix(messages: seq<string>)
    ensures forall c :: Selected(messages[..|messages|], c) == Selected(messages, c)
  {
    assert messages[..|messages|] == messages;
  }

  /** One more message extends the list of its category and leaves the others alone. */
  lemma SelectedStep(messages: seq<string>, i: nat, c: Category)
    requires i < |messages|
    ensures Selected(messages[..i + 1], c) == Selected(messages[..i], c)
      + (if CategoryOf(Trim(messages[i])) == c then [Trim(messages[i])] else [])
  {
    assert messages[..i + 1][..i] == messages[..i];
  }

  datatype Bump = Major | Minor | Patch

  /** A breaking change bumps the major version, else a feature the minor, else the patch. */
  function BumpFor(messages: seq<string>): Bump
  {
    if Has(messages, BreakingChange) then Major
    else if Has(messages, Feature) then Minor
    else Patch
  }

  /** The next version for a bump. */
  function Bumped(v: Version, b: Bump): (r: Version)
    ensures Less(v, r)
    ensures b == Major ==> r == Version(v.major + 1, 0, 0)
    ensures b == Minor ==> r == Version(v.major, v.minor + 1, 0)
    ensures b == Patch ==> r == Version(v.major, v.minor, v.patch + 1)
  {
    match b
    case Major => v.(major := v.major + 1, minor := 0, patch := 0)
    case Minor => v.(minor := v.minor + 1, patch := 0)
    case Patch => v.(patch := v.patch + 1)
  }

  /**
   * `generate_git_cliff_compatible_changelog` after the revwalk: `messages` are the
   * UTF-8 messages of the walked commits, newest first.
   */
  method GenerateCompatibleChangelog(messages: seq<string>, current: Version, useGitCliffStyle: bool)
    returns (changelog: string, next: Version)
    ensures next == Bumped(current, BumpFor(messages))
    ensures changelog == Changelog(Selected(messages, BreakingChange), Selected(messages, Feature),
      Selected(messages, Fix), if useGitCliffStyle then Selected(messages, Other) else [])
  {
    var features: seq<string> := [];
    var fixes: seq<string> := [];
    var breakingChanges: seq<string> := [];
    var otherChanges: seq<string> := [];
    var bumpMajor, bumpMinor, bumpPatch := false, false, false;
    for i := 0 to |messages|
      invariant breakingChanges == Selected(messages[..i], BreakingChange)
      invariant features == Selected(messages[..i], Feature)
      invariant fixes == Selected(messages[..i], Fix)
      invariant otherChanges == if useGitCliffStyle then Selected(messages[..i], Other) else []
      invariant bumpMajor <==> Has(messages[..i], BreakingChange)
      invariant bumpMinor <==> Has(messages[..i], Feature)
    {
      var message := Trim(messages[i]);
      var parsed := ParseConventionalCommit(message);
      SelectedStep(messages, i, BreakingChange);
      SelectedStep(messages, i, Feature);
      SelectedStep(messages, i, Fix);
      SelectedStep(messages, i, Other);
      match Classify(parsed)
      case BreakingChange =>
        bumpMajor := true;
        breakingChanges := breakingChanges + [message];
      case Feature =>
        bumpMinor := true;
        features := features + [message];
      case Fix =>
        bumpPatch := true;
        fixes := fixes + [message];
      case Other =>
        if !bumpMajor && !bumpMinor {
          bumpPatch := true;
        }
        if useGitCliffStyle {
          otherChanges := otherChanges + [message];
        }
    }
    WholePrefix(messages);
    next := current;
    if bumpMajor {
      next := next.(major := next.major + 1, minor := 0, patch := 0);
    } else if bumpMinor {
      next := next.(minor := next.minor + 1, patch := 0);
    } else if bumpPatch {
      next := next.(patch := next.patch + 1);
    } else {
      next := next.(patch := next.patch + 1);
    }
    changelog := FormatChangelog(breakingChanges, features, fixes, otherChanges);
  }

  /** A commit as git-cliff hands it over: its message and git-cliff's own breaking flag. */
  datatype CliffCommit = CliffCommit(message: string, conventionalBreaking: bool)

  /** git-cliff's flag joins the parser's: either makes the commit breaking. */
  function CliffCategory(commit: CliffCommit): Category
  {
    var parsed := ParseConventionalCommit(commit.message);
    Classify(parsed.(isBreaking := parsed.isBreaking || commit.conventionalBreaking))
  }

  predicate CliffHas(commits: seq<CliffCommit>, c: Category)
  {
    exists commit :: commit in commits && CliffCategory(commit) == c
  }

  lemma CliffHasStep(commits: seq<CliffCommit>, i: nat, c: Category)
    requires i < |commits|
    ensures CliffHas(commits[..i + 1], c) <==> CliffHas(commits[..i], c) || CliffCategory(commits[i]) == c
  {
    assert commits[..i + 1] == commits[..i] + [commits[i]];
    if CliffHas(commits[..i + 1], c) && CliffCategory(commits[i]) != c {
      var x :| x in commits[..i + 1] && CliffCategory(x) == c;
      assert x in commits[..i];
    }
  }

  function CliffBump(commits: seq<CliffCommit>): Bump
  {
    if CliffHas(commits, BreakingChange) then Major
    else if CliffHas(commits, Feature) then Minor
    else Patch
  }

  /** `compute_version_from_git_cliff_commits`. */
  method ComputeVersionFromCliffCommits(commits: seq<CliffCommit>, current: Version) returns (next: Version)
    ensures next == Bumped(current, CliffBump(commits))
  {
    var bumpMajor, bumpMinor, bumpPatch := false, false, false;
    for i := 0 to |commits|
      invariant bumpMajor <==> CliffHas(commits[..i], BreakingChange)
      invariant bumpMinor <==> CliffHas(commits[..i], Feature)
    {
      CliffHasStep(commits, i, BreakingChange);
      CliffHasStep(commits, i, Feature);
      var message := commits[i].message;
      var parsed := ParseConventionalCommit(message);
      var isBreaking := parsed.isBreaking || commits[i].conventionalBreaking;
      match Classify(parsed.(isBreaking := isBreaking))
      case BreakingChange =>
        bumpMajor := true;
      case Feature =>
        bumpMinor := true;
      case Fix =>
        bumpPatch := true;
      case Other =>
        if !bumpMajor && !bumpMinor {
          bumpPatch := true;
        }
    }
    assert commits[..|commits|] == commits;
    next := current;
    if bumpMajor {
      next := next.(major := next.major + 1, minor := 0, patch := 0);
    } else if bumpMinor {
      next := next.(minor := next.minor + 1, patch := 0);
    } else if bumpPatch {
      next := next.(patch := next.patch + 1);
    } else {
      next := next.(patch := next.patch + 1);
    }
  }

  /** The messages as the revwalk loop sees them, trimmed. */
  function TrimmedAll(messages: seq<string>): seq<string>
    decreases |messages|
  {
    if messages == [] then []
    else TrimmedAll(messages[..|messages| - 1]) + [Trim(messages[|messages| - 1])]
  }

  /**
   * Each list holds exactly the trimmed messages of its category, each as often
   * as the walk has it.
   */
  lemma {:induction false} SelectedCounts(messages: seq<string>, c: Category, x: string)
    ensures multiset(Selected(messages, c))[x]
      == if CategoryOf(x) == c then multiset(TrimmedAll(messages))[x] else 0
    decreases |messages|
  {
    if messages != [] {
      var init := messages[..|messages| - 1];
      SelectedCounts(init, c, x);
    }
  }

  /**
   * With the "other" list kept, every trimmed message lands in exactly one of the
   * four lists: together they are a rearrangement of the walk.
   */
  lemma SelectedPartition(messages: seq<string>, x: string)
    ensures multiset(Selected(messages, BreakingChange))[x] + multiset(Selected(messages, Feature))[x]
      + multiset(Selected(messages, Fix))[x] + multiset(Selected(messages, Other))[x]
      == multiset(TrimmedAll(messages))[x]
  {
    SelectedCounts(messages, BreakingChange, x);
    SelectedCounts(messages, Feature, x);
    SelectedCounts(messages, Fix, x);
    SelectedCounts(messages, Other, x);
  }

  /** The bump does not depend on the order in which the commits are walked. */
  lemma BumpOrderIndependent(messages: seq<string>, reordered: seq<string>)
    requires multiset(messages) == multiset(reordered)
    ensures BumpFor(messages) == BumpFor(reordered)
  {
    HasIff(messages, BreakingChange);
    HasIff(messages, Feature);
    HasIff(reordered, BreakingChange);
    HasIff(reordered, Feature);
    forall m ensures m in messages <==> m in reordered {
      assert m in messages <==> m in multiset(messages);
      assert m in reordered <==> m in multiset(reordered);
    }
  }

  function Rank(b: Bump): nat
  {
    match b
    case Patch => 0
    case Minor => 1
    case Major => 2
  }

  /** More commits never call for a smaller bump. */
  lemma BumpMonotone(messages: seq<string>, more: seq<string>)
    ensures Rank(BumpFor(messages)) <= Rank(BumpFor(messages + more))
  {
    forall c | Has(messages, c) ensures Has(messages + more, c) {
      HasIff(messages, c);
      HasIff(messages + more, c);
      var m :| m in messages && CategoryOf(Trim(m)) == c;
      assert m in messages + more;
    }
  }

  /** A single breaking commit anywhere makes the release a major one. */
  lemma BreakingMakesMajor(messages: seq<string>, i: nat)
    requires i < |messages| && CategoryOf(Trim(messages[i])) == BreakingChange
    ensures BumpFor(messages) == Major
  {
    HasIff(messages, BreakingChange);
    assert messages[i] in messages;
  }

  /** The messages of git-cliff's commits. */
  function CliffMessages(commits: seq<CliffCommit>): (r: seq<string>)
    ensures |r| == |commits|
    ensures forall i :: 0 <= i < |r| ==> r[i] == commits[i].message
  {
    seq(|commits|, i requires 0 <= i < |commits| => commits[i].message)
  }

  /**
   * When git-cliff flags nothing as breaking and the messages carry no surrounding
   * whitespace, both paths compute the same bump.
   */
  lemma CliffAgreesWithRevwalk(commits: seq<CliffCommit>)
    requires forall i :: 0 <= i < |commits| ==> !commits[i].conventionalBreaking
    requires forall i :: 0 <= i < |commits| ==> Trim(commits[i].message) == commits[i].message
    ensures CliffBump(commits) == BumpFor(CliffMessages(commits))
  {
    var ms := CliffMessages(commits);
    forall c ensures CliffHas(commits, c) <==> Has(ms, c) {
      HasIff(ms, c);
      if CliffHas(commits, c) {
        var x :| x in commits && CliffCategory(x) == c;
        var i :| 0 <= i < |commits| && commits[i] == x;
        assert ms[i] in ms;
      }
      if Has(ms, c) {
        var m :| m in ms && CategoryOf(Trim(m)) == c;
        var i :| 0 <= i < |ms| && ms[i] == m;
        assert commits[i] in commits;
      }
    }
  }

  /** git-cliff's own breaking flag makes the release a major one. */
  lemma CliffBreakingMakesMajor(commits: seq<CliffCommit>, i: nat)
    requires i < |commits| && commits[i].conventionalBreaking
    ensures CliffBump(commits) == Major
  {
    assert commits[i] in commits;
  }

  /** The text before the first colon of `feat: ...` or `feat(scope): ...` lowers to `feat`. */
  lemma FeatTypePart(tail: string, k: nat)
    requires tail != [] && (tail[0] == ':' || tail[0] == '(')
    requires k < |"feat" + tail| && ("feat" + tail)[k] == ':' && ':' !in ("feat" + tail)[..k]
    ensures BeforeFirst(("feat" + tail)[..k], '(') == "feat"
  {
    var m := "feat" + tail;
    assert m[..4] == "feat";
    assert k >= 4;
    var head := m[..k];
    assert head[..4] == "feat";
    if k == 4 {
      assert head == "feat";
    } else {
      assert head[4] == '(';
      assert IndexOf(head, '(') == Some(4);
    }
  }

  /** A `feat` commit, with or without a scope, is a feature unless something marks it breaking. */
  lemma FeatureCommit(tail: string)
    requires tail != [] && (tail[0] == ':' || tail[0] == '(') && ':' in tail
    requires '!' !in tail && !Contains(Lower("feat" + tail), "breaking change")
    ensures CategoryOf("feat" + tail) == Feature
  {
    var m := "feat" + tail;
    assert ':' in m by {
      var j :| 0 <= j < |tail| && tail[j] == ':';
      assert m[4 + j] == ':';
    }
    var k := IndexOf(m, ':').value;
    FeatTypePart(tail, k);
    assert '!' !in m;
    FeatLowers();
    assert ParseConventionalCommit(m).commitType == "feat";
  }

  lemma FeatLowers()
    ensures Lower(Trim(RemoveAll("feat", '!'))) == "feat"
  {
    assert RemoveAll("feat", '!') == "feat";
    assert Trim("feat") == "feat";
    assert Lower("feat") == "feat";
  }
}
