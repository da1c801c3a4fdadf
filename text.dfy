/**
 * The string operations of Rust's `str` that the release, dependency and package
 * commands rely on, over Dafny strings (sequences of characters).
 */
module Text {
  import opened Wrappers

  /** `char::is_whitespace`: the characters with the Unicode White_Space property. */
  predicate IsWhitespace(c: char)
  {
    ('\t' <= c <= '\r') || c == ' ' || c == '\U{0085}' || c == '\U{00A0}' || c == '\U{1680}'
    || ('\U{2000}' <= c <= '\U{200A}') || c == '\U{2028}' || c == '\U{2029}'
    || c == '\U{202F}' || c == '\U{205F}' || c == '\U{3000}'
  }

  /** Every character of `s` is whitespace. */
  predicate AllWhitespace(s: string)
  {
    forall i :: 0 <= i < |s| ==> IsWhitespace(s[i])
  }

  /** `str::trim_start`: drops the longest all-whitespace prefix. */
  function TrimStart(s: string): string
    decreases |s|
  {
    if s != [] && IsWhitespace(s[0]) then TrimStart(s[1..]) else s
  }

  /** What `trim_start` keeps is a suffix that does not start with whitespace, and all it drops is whitespace. */
  lemma {:induction false} TrimStartSpec(s: string)
    ensures var r := TrimStart(s);
      && |r| <= |s| && r == s[|s| - |r|..]
      && (r == [] || !IsWhitespace(r[0]))
      && AllWhitespace(s[..|s| - |r|])
    decreases |s|
  {
    if s != [] && IsWhitespace(s[0]) {
      TrimStartSpec(s[1..]);
      var r := TrimStart(s);
      assert s[1..][|s| - 1 - |r|..] == s[|s| - |r|..];
      assert forall i :: 1 <= i < |s| - |r| ==> s[i] == s[1..][..|s| - 1 - |r|][i - 1];
    }
  }

  /** `str::trim_end`: drops the longest all-whitespace suffix. */
  function TrimEnd(s: string): string
    decreases |s|
  {
    if s != [] && IsWhitespace(s[|s| - 1]) then TrimEnd(s[..|s| - 1]) else s
  }

  /** What `trim_end` keeps is a prefix that does not end in whitespace, and all it drops is whitespace. */
  lemma {:induction false} TrimEndSpec(s: string)
    ensures var r := TrimEnd(s);
      && |r| <= |s| && r == s[..|r|]
      && (r == [] || !IsWhitespace(r[|r| - 1]))
      && AllWhitespace(s[|r|..])
    decreases |s|
  {
    if s != [] && IsWhitespace(s[|s| - 1]) {
      TrimEndSpec(s[..|s| - 1]);
      var r := TrimEnd(s);
      assert s[..|s| - 1][..|r|] == s[..|r|];
      assert forall i :: |r| <= i < |s| - 1 ==> s[i] == s[..|s| - 1][|r|..][i - |r|];
    }
  }

  /** `str::trim`: both ends. */
  function Trim(s: string): string
  {
    TrimEnd(TrimStart(s))
  }

  /** A prefix that ends in a non-whitespace character survives `trim_end`. */
  lemma TrimEndKeepsPrefix(s: string, p: string)
    requires StartsWith(s, p) && p != [] && !IsWhitespace(p[|p| - 1])
    ensures StartsWith(TrimEnd(s), p)
  {
    TrimEndSpec(s);
    var r := TrimEnd(s);
    assert r[..|p|] == s[..|p|];
  }

  /** `trim_end` strips exactly a whitespace tail appended to a string that ends in non-whitespace. */
  lemma TrimEndOfPadded(s: string, t: string)
    requires s == [] || !IsWhitespace(s[|s| - 1])
    requires AllWhitespace(t)
    ensures TrimEnd(s + t) == s
  {
    TrimEndSpec(s + t);
    var r := TrimEnd(s + t);
    if s != [] {
      assert (s + t)[|s| - 1] == s[|s| - 1];
      assert |r| >= |s| by {
        assert AllWhitespace((s + t)[|r|..]);
      }
    }
    assert forall i :: |s| <= i < |s + t| ==> IsWhitespace((s + t)[i]) by {
      assert forall i :: |s| <= i < |s + t| ==> (s + t)[i] == t[i - |s|];
    }
  }

  /** A string that starts with a non-whitespace character is left alone by `trim_start`. */
  lemma TrimStartNoop(s: string)
    requires s != [] && !IsWhitespace(s[0])
    ensures TrimStart(s) == s
  {
  }

  /** A prefix that starts and ends in non-whitespace characters survives `trim`. */
  lemma TrimKeepsPrefix(s: string, p: string)
    requires StartsWith(s, p) && p != [] && !IsWhitespace(p[0]) && !IsWhitespace(p[|p| - 1])
    ensures StartsWith(Trim(s), p)
  {
    assert s[0] == p[0];
    TrimStartNoop(s);
    TrimEndKeepsPrefix(s, p);
  }

  /** `char::to_lowercase`, restricted to ASCII letters. */
  function LowerChar(c: char): char
  {
    if 'A' <= c <= 'Z' then (c as int + 32) as char else c
  }

  /** `str::to_lowercase`, restricted to ASCII letters. */
  function Lower(s: string): string
    decreases |s|
  {
    if s == [] then [] else [LowerChar(s[0])] + Lower(s[1..])
  }

  /** Lowering maps each character on its own. */
  lemma {:induction false} LowerSpec(s: string)
    ensures |Lower(s)| == |s|
    ensures forall i :: 0 <= i < |s| ==> Lower(s)[i] == LowerChar(s[i])
    decreases |s|
  {
    if s != [] {
      LowerSpec(s[1..]);
      assert forall i :: 1 <= i < |s| ==> Lower(s)[i] == Lower(s[1..])[i - 1];
    }
  }

  /** Lowering only produces characters other than `a`-`z` from themselves. */
  lemma LowerKeepsOthers(s: string, c: char)
    requires !('a' <= c <= 'z')
    ensures c in Lower(s) ==> c in s
  {
    LowerSpec(s);
    if c in Lower(s) {
      var i :| 0 <= i < |s| && Lower(s)[i] == c;
      assert s[i] == c;
    }
  }

  /** `trim` keeps only characters of its argument. */
  lemma TrimSubset(s: string)
    ensures forall c :: c in Trim(s) ==> c in s
  {
    var t := TrimStart(s);
    var r := TrimEnd(t);
    TrimStartSpec(s);
    TrimEndSpec(t);
    assert forall c :: c in r ==> c in t by {
      assert r == t[..|r|];
    }
    assert forall c :: c in t ==> c in s by {
      assert t == s[|s| - |t|..];
    }
  }

  /** `trim` leaves non-whitespace characters at both ends. */
  lemma TrimEnds(s: string)
    ensures Trim(s) == [] || (!IsWhitespace(Trim(s)[0]) && !IsWhitespace(Trim(s)[|Trim(s)| - 1]))
  {
    var t := TrimStart(s);
    var r := TrimEnd(t);
    TrimStartSpec(s);
    TrimEndSpec(t);
    if r != [] {
      assert r[0] == t[0];
    }
  }

  /**
   * A trimmed, lowered text: no upper-case ASCII letter, no whitespace at either
   * end, and every character other than `a`-`z` comes from the original.
   */
  lemma LowerTrimShape(s: string)
    ensures forall c :: !('a' <= c <= 'z') && c in Lower(Trim(s)) ==> c in s
    ensures forall i :: 0 <= i < |Lower(Trim(s))| ==> !('A' <= Lower(Trim(s))[i] <= 'Z')
    ensures var t := Lower(Trim(s)); t == [] || (!IsWhitespace(t[0]) && !IsWhitespace(t[|t| - 1]))
  {
    var trimmed := Trim(s);
    LowerSpec(trimmed);
    TrimSubset(s);
    TrimEnds(s);
    forall c | !('a' <= c <= 'z') && c in Lower(trimmed) ensures c in s {
      LowerKeepsOthers(trimmed, c);
    }
  }

  predicate StartsWith(s: string, p: string)
  {
    |p| <= |s| && s[..|p|] == p
  }

  /** `str::contains` with a string pattern. */
  predicate Contains(s: string, p: string)
    decreases |s|
  {
    StartsWith(s, p) || (s != [] && Contains(s[1..], p))
  }

  /** `str::find` with a character pattern: the index of the first occurrence. */
  function IndexOf(s: string, c: char): (r: Option<nat>)
    ensures r.None? <==> c !in s
    ensures r.Some? ==> r.value < |s| && s[r.value] == c && c !in s[..r.value]
  {
    if s == [] then None
    else if s[0] == c then Some(0)
    else match IndexOf(s[1..], c)
      case None => None
      case Some(i) =>
        assert s[1..][..i] == s[1..i + 1];
        Some(i + 1)
  }

  /** `s.split(c).next()`: the text before the first `c`, or all of `s`. */
  function BeforeFirst(s: string, c: char): (r: string)
    ensures StartsWith(s, r) && c !in r
    ensures |r| < |s| ==> s[|r|] == c
  {
    match IndexOf(s, c)
    case None => s
    case Some(i) => s[..i]
  }

  /** `s.replace(c, "")`. */
  function RemoveAll(s: string, c: char): string
    decreases |s|
  {
    if s == [] then []
    else (if s[0] == c then [] else [s[0]]) + RemoveAll(s[1..], c)
  }

  /** No `c` is left, and every other character stays exactly when it was there. */
  lemma {:induction false} RemoveAllSpec(s: string, c: char)
    ensures c !in RemoveAll(s, c)
    ensures forall d :: d != c ==> (d in RemoveAll(s, c) <==> d in s)
    decreases |s|
  {
    if s != [] {
      RemoveAllSpec(s[1..], c);
      assert forall d :: d in s <==> d == s[0] || d in s[1..];
    }
  }

  /** `s.split(c)`, as a sequence of pieces (always at least one). */
  function SplitOn(s: string, c: char): (parts: seq<string>)
    ensures |parts| >= 1
    ensures forall i :: 0 <= i < |parts| ==> c !in parts[i]
    decreases |s|
  {
    match IndexOf(s, c)
    case None => [s]
    case Some(i) => [s[..i]] + SplitOn(s[i + 1..], c)
  }

  /** `parts.join(sep)`. */
  function Join(parts: seq<string>, sep: string): string
    decreases |parts|
  {
    if parts == [] then []
    else if |parts| == 1 then parts[0]
    else parts[0] + sep + Join(parts[1..], sep)
  }

  /** Splitting and joining on the same character gives the text back. */
  lemma {:induction false} JoinSplit(s: string, c: char)
    ensures Join(SplitOn(s, c), [c]) == s
    decreases |s|
  {
    match IndexOf(s, c)
    case None =>
    case Some(i) =>
      var rest := SplitOn(s[i + 1..], c);
      var parts := [s[..i]] + rest;
      assert SplitOn(s, c) == parts;
      assert parts[0] == s[..i] && parts[1..] == rest;
      JoinSplit(s[i + 1..], c);
      calc {
        Join(parts, [c]);
        s[..i] + [c] + Join(rest, [c]);
        s[..i] + [c] + s[i + 1..];
        { assert s[..i] + [c] == s[..i + 1]; }
        s;
      }
  }

  /** Joining pieces free of `c` with `c` and splitting again gives the pieces back. */
  lemma {:induction false} SplitJoin(parts: seq<string>, c: char)
    requires |parts| >= 1
    requires forall i :: 0 <= i < |parts| ==> c !in parts[i]
    ensures SplitOn(Join(parts, [c]), c) == parts
    decreases |parts|
  {
    if |parts| > 1 {
      var rest := Join(parts[1..], [c]);
      var s := parts[0] + [c] + rest;
      assert s[|parts[0]|] == c;
      assert s[..|parts[0]|] == parts[0];
      assert IndexOf(s, c) == Some(|parts[0]|);
      assert s[|parts[0]| + 1..] == rest;
      SplitJoin(parts[1..], c);
      assert [parts[0]] + parts[1..] == parts;
    }
  }

  /** A joined text starts with its first piece. */
  lemma JoinStartsWithFirst(parts: seq<string>, sep: string)
    requires parts != []
    ensures StartsWith(Join(parts, sep), parts[0])
  {
    if |parts| > 1 {
      assert Join(parts, sep)[..|parts[0]|] == parts[0];
    }
  }

  /** Joining pieces one of which is an empty tail adds one trailing separator. */
  lemma {:induction false} JoinEmptyTail(parts: seq<string>, sep: string)
    requires parts != []
    ensures Join(parts + [[]], sep) == Join(parts, sep) + sep
    decreases |parts|
  {
    if |parts| > 1 {
      JoinEmptyTail(parts[1..], sep);
      assert (parts + [[]])[1..] == parts[1..] + [[]];
    } else {
      assert (parts + [[]])[1..] == [[]];
    }
  }

  /**
   * `str::lines`, simplified to `\n` only: the pieces between line feeds, where a
   * final line feed does not start another (empty) line.
   */
  function Lines(s: string): (ls: seq<string>)
    ensures s == [] <==> ls == []
    ensures forall i :: 0 <= i < |ls| ==> '\n' !in ls[i]
  {
    if s == [] then []
    else
      var parts := SplitOn(s, '\n');
      if parts[|parts| - 1] == [] && |parts| > 1 then parts[..|parts| - 1] else parts
  }

  /** Joining the lines again gives the text back, less one final line feed. */
  lemma JoinLines(s: string)
    ensures Join(Lines(s), "\n") == s
      || (s != [] && s[|s| - 1] == '\n' && Join(Lines(s), "\n") == s[..|s| - 1])
  {
    if s != [] {
      var parts := SplitOn(s, '\n');
      JoinSplit(s, '\n');
      if parts[|parts| - 1] == [] && |parts| > 1 {
        var init := parts[..|parts| - 1];
        assert parts == init + [[]];
        JoinEmptyTail(init, "\n");
        assert s == Join(init, "\n") + "\n";
        assert s[..|s| - 1] == Join(init, "\n");
      }
    }
  }

  /** A whitespace character appended at the end does not change `trim_end`. */
  lemma TrimEndAppendWhitespace(s: string, c: char)
    requires IsWhitespace(c)
    ensures TrimEnd(s + [c]) == TrimEnd(s)
  {
    assert (s + [c])[..|s + [c]| - 1] == s;
  }

  /** When `s` has a non-whitespace character, a character appended at the end survives `trim_start`. */
  lemma {:induction false} TrimStartAppend(s: string, c: char)
    requires !AllWhitespace(s)
    ensures TrimStart(s + [c]) == TrimStart(s) + [c]
    decreases |s|
  {
    if IsWhitespace(s[0]) {
      assert !AllWhitespace(s[1..]) by {
        var i :| 0 <= i < |s| && !IsWhitespace(s[i]);
        assert s[1..][i - 1] == s[i];
      }
      TrimStartAppend(s[1..], c);
      assert (s + [c])[1..] == s[1..] + [c];
    }
  }

  /** An all-whitespace text trims to nothing. */
  lemma {:induction false} TrimStartAllWhitespace(s: string)
    requires AllWhitespace(s)
    ensures TrimStart(s) == []
    decreases |s|
  {
    if s != [] {
      assert AllWhitespace(s[1..]) by {
        forall i | 0 <= i < |s[1..]| ensures IsWhitespace(s[1..][i]) {
          assert s[1..][i] == s[i + 1];
        }
      }
      TrimStartAllWhitespace(s[1..]);
    }
  }

  /** A whitespace character appended at the end does not change `trim`. */
  lemma TrimAppendWhitespace(s: string, c: char)
    requires IsWhitespace(c)
    ensures Trim(s + [c]) == Trim(s)
  {
    if AllWhitespace(s) {
      TrimStartAllWhitespace(s);
      assert AllWhitespace(s + [c]) by {
        forall i | 0 <= i < |s + [c]| ensures IsWhitespace((s + [c])[i]) {
          if i < |s| {
            assert (s + [c])[i] == s[i];
          }
        }
      }
      TrimStartAllWhitespace(s + [c]);
    } else {
      TrimStartAppend(s, c);
      TrimEndAppendWhitespace(TrimStart(s), c);
    }
  }
}
