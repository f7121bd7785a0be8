/**
 * The parts of Rust's `str` API that the chat code relies on, written out
 * over `seq<char>`: `trim`, `find`, `rfind`, `contains`, `split`,
 * `split_whitespace`, `lines` and `replace`. Each function follows the
 * documented behaviour of the standard library method it is named after.
 */
module RustStr {
  import opened Wrappers

  /** Rust's `char::is_whitespace`: the Unicode White_Space property. */
  predicate IsWhitespace(c: char)
  {
    ('\t' <= c <= '\r') || c == ' ' || c == '\U{85}' || c == '\U{A0}' || c == '\U{1680}'
    || ('\U{2000}' <= c <= '\U{200A}') || c == '\U{2028}' || c == '\U{2029}'
    || c == '\U{202F}' || c == '\U{205F}' || c == '\U{3000}'
  }

  predicate NoWhitespace(s: string)
  {
    forall i :: 0 <= i < |s| ==> !IsWhitespace(s[i])
  }

  /** Neither end of `s` is whitespace: what `trim` leaves behind. */
  predicate IsTrimmed(s: string)
  {
    s == [] || (!IsWhitespace(s[0]) && !IsWhitespace(s[|s| - 1]))
  }

  /** `str::trim_start`. */
  function TrimStart(s: string): string
    decreases |s|
  {
    if s != [] && IsWhitespace(s[0]) then TrimStart(s[1..]) else s
  }

  /** `trim_start` removes a run of leading whitespace and nothing else. */
  lemma {:induction false} TrimStartSpec(s: string)
    ensures var r := TrimStart(s);
      |r| <= |s| && r == s[|s| - |r|..] && (r == [] || !IsWhitespace(r[0]))
      && forall i :: 0 <= i < |s| - |r| ==> IsWhitespace(s[i])
    decreases |s|
  {
    if s != [] && IsWhitespace(s[0]) {
      TrimStartSpec(s[1..]);
      var r := TrimStart(s);
      forall i | 0 < i < |s| - |r| ensures IsWhitespace(s[i]) {
        assert s[i] == s[1..][i - 1];
      }
    }
  }

  /** `str::trim_end`. */
  function TrimEnd(s: string): string
    decreases |s|
  {
    if s != [] && IsWhitespace(s[|s| - 1]) then TrimEnd(s[..|s| - 1]) else s
  }

  /** `trim_end` removes a run of trailing whitespace and nothing else. */
  lemma {:induction false} TrimEndSpec(s: string)
    ensures var r := TrimEnd(s);
      |r| <= |s| && r == s[..|r|] && (r == [] || !IsWhitespace(r[|r| - 1]))
      && forall i :: |r| <= i < |s| ==> IsWhitespace(s[i])
    decreases |s|
  {
    if s != [] && IsWhitespace(s[|s| - 1]) {
      var init := s[..|s| - 1];
      TrimEndSpec(init);
      var r := TrimEnd(s);
      assert r == TrimEnd(init);
      assert init[..|r|] == s[..|r|];
      forall i | |r| <= i < |init| ensures IsWhitespace(s[i]) {
        assert s[i] == init[i];
      }
    }
  }

  /** `str::trim`: `trim_start`, then `trim_end`. */
  function Trim(s: string): string
  {
    TrimEnd(TrimStart(s))
  }

  /**
   * `trim` removes whitespace from both ends and nothing else: the result
   * occurs in the input at some offset, everything before and after it is
   * whitespace, and its own ends are not.
   */
  lemma TrimSpec(s: string)
    ensures var r := Trim(s);
      IsTrimmed(r) && |r| <= |s|
      && exists a: nat :: a + |r| <= |s| && OccursAt(s, r, a)
           && (forall i :: 0 <= i < a ==> IsWhitespace(s[i]))
           && (forall i :: a + |r| <= i < |s| ==> IsWhitespace(s[i]))
  {
    var t := TrimStart(s);
    TrimStartSpec(s);
    TrimEndSpec(t);
    var r := Trim(s);
    var a := |s| - |t|;
    assert s[a..a + |r|] == t[..|r|] == r;
    forall i | a + |r| <= i < |s| ensures IsWhitespace(s[i]) {
      assert s[i] == t[i - a];
    }
    assert OccursAt(s, r, a);
  }

  /** Trimming a string whose ends are not whitespace gives it back unchanged. */
  lemma TrimOfTrimmed(s: string)
    requires IsTrimmed(s)
    ensures Trim(s) == s
  {
  }

  /** `trim` is idempotent. */
  lemma TrimIdempotent(s: string)
    ensures Trim(Trim(s)) == Trim(s)
  {
    TrimSpec(s);
    TrimOfTrimmed(Trim(s));
  }

  /** A string trims to empty exactly when every character is whitespace. */
  lemma {:induction false} TrimEmptyIffBlank(s: string)
    ensures Trim(s) == [] <==> forall i :: 0 <= i < |s| ==> IsWhitespace(s[i])
    decreases |s|
  {
    if s != [] && IsWhitespace(s[0]) {
      TrimEmptyIffBlank(s[1..]);
      assert forall i :: 0 <= i < |s| - 1 ==> s[1..][i] == s[i + 1];
    } else if s != [] {
      TrimEndSpec(s);
    }
  }

  /** `str::find` for a single character: the index of its first occurrence. */
  function Find(s: string, c: char): (r: Option<nat>)
    ensures r.None? <==> c !in s
    ensures r.Some? ==> r.value < |s| && s[r.value] == c && c !in s[..r.value]
    decreases |s|
  {
    if s == [] then None
    else if s[0] == c then Some(0)
    else match Find(s[1..], c)
      case None => None
      case Some(i) => Some(i + 1)
  }

  /** The part of `s` before the first `c`, or all of `s` when there is no `c`. */
  function Before(s: string, c: char): (r: string)
    ensures c !in r
    ensures r <= s
    ensures c in s ==> |r| < |s| && s[|r|] == c
    ensures c !in s ==> r == s
  {
    match Find(s, c)
    case None => s
    case Some(i) => s[..i]
  }

  /** `pat` occurs in `s` starting at index `j`. */
  predicate OccursAt(s: string, pat: string, j: nat)
  {
    j + |pat| <= |s| && s[j..j + |pat|] == pat
  }

  /** `str::contains` for a string pattern. */
  function Contains(s: string, pat: string): (r: bool)
    ensures r <==> exists j: nat :: OccursAt(s, pat, j)
    decreases |s|
  {
    if |s| < |pat| then false
    else if s[..|pat|] == pat then (assert OccursAt(s, pat, 0); true)
    else
      var r := Contains(s[1..], pat);
      assert forall j: nat :: OccursAt(s[1..], pat, j) <==> OccursAt(s, pat, j + 1) by {
        forall j: nat ensures OccursAt(s[1..], pat, j) <==> OccursAt(s, pat, j + 1) {
          if j + 1 + |pat| <= |s| {
            assert s[1..][j..j + |pat|] == s[j + 1..j + 1 + |pat|];
          }
        }
      }
      assert r ==> exists j: nat :: OccursAt(s, pat, j) by {
        if r {
          var j: nat :| OccursAt(s[1..], pat, j);
          assert OccursAt(s, pat, j + 1);
        }
      }
      assert (exists j: nat :: OccursAt(s, pat, j)) ==> r by {
        if exists j: nat :: OccursAt(s, pat, j) {
          var j: nat :| OccursAt(s, pat, j);
          assert j != 0;
          assert OccursAt(s[1..], pat, j - 1);
        }
      }
      r
  }

  /** `str::rfind` for a non-empty string pattern: the start of its last occurrence. */
  function RFind(s: string, pat: string): (r: Option<nat>)
    requires pat != []
    ensures r.None? ==> forall j: nat :: !OccursAt(s, pat, j)
    ensures r.Some? ==> OccursAt(s, pat, r.value)
    ensures r.Some? ==> forall j: nat :: r.value < j ==> !OccursAt(s, pat, j)
    decreases |s|
  {
    if |s| < |pat| then None
    else if s[|s| - |pat|..] == pat then Some(|s| - |pat|)
    else
      var r := RFind(s[..|s| - 1], pat);
      assert forall j: nat :: OccursAt(s, pat, j) ==> OccursAt(s[..|s| - 1], pat, j) by {
        forall j: nat | OccursAt(s, pat, j) ensures OccursAt(s[..|s| - 1], pat, j) {
          assert j + |pat| != |s|;
          assert s[..|s| - 1][j..j + |pat|] == s[j..j + |pat|];
        }
      }
      if r.Some? then
        assert s[..|s| - 1][r.value..r.value + |pat|] == s[r.value..r.value + |pat|];
        r
      else r
  }

  /** `str::split` on one character: never empty, and no piece holds the separator. */
  function Split(s: string, c: char): (r: seq<string>)
    ensures |r| >= 1
    ensures forall i :: 0 <= i < |r| ==> c !in r[i]
    decreases |s|
  {
    match Find(s, c)
    case None => [s]
    case Some(i) => [s[..i]] + Split(s[i + 1..], c)
  }

  /** The pieces joined back together with `c` between neighbours (`join`). */
  function Join(parts: seq<string>, c: char): string
    requires |parts| >= 1
    decreases |parts|
  {
    if |parts| == 1 then parts[0] else parts[0] + [c] + Join(parts[1..], c)
  }

  /** Splitting and joining again gives back the original string. */
  lemma {:induction false} JoinSplit(s: string, c: char)
    ensures Join(Split(s, c), c) == s
    decreases |s|
  {
    match Find(s, c)
    case None =>
    case Some(i) =>
      var rest := Split(s[i + 1..], c);
      var parts := [s[..i]] + rest;
      assert Split(s, c) == parts;
      assert parts[1..] == rest;
      assert Join(parts, c) == s[..i] + [c] + Join(rest, c);
      JoinSplit(s[i + 1..], c);
      assert s == s[..i] + [c] + s[i + 1..];
  }

  /** Joining pieces free of `c` and splitting again gives back the pieces. */
  lemma {:induction false} SplitJoin(parts: seq<string>, c: char)
    requires |parts| >= 1
    requires forall i :: 0 <= i < |parts| ==> c !in parts[i]
    ensures Split(Join(parts, c), c) == parts
    decreases |parts|
  {
    if |parts| == 1 {
    } else {
      var rest := Join(parts[1..], c);
      var s := parts[0] + [c] + rest;
      assert Join(parts, c) == s;
      FindAfter(parts[0], c, rest);
      assert s[..|parts[0]|] == parts[0];
      assert s[|parts[0]| + 1..] == rest;
      assert Split(s, c) == [parts[0]] + Split(rest, c);
      SplitJoin(parts[1..], c);
      assert parts == [parts[0]] + parts[1..];
    }
  }

  /** The first `c` in `a + [c] + b` is the one right after `a` when `a` has none. */
  lemma FindAfter(a: string, c: char, b: string)
    requires c !in a
    ensures Find(a + [c] + b, c) == Some(|a|)
  {
    var s := a + [c] + b;
    var r := Find(s, c);
    assert s[|a|] == c;
    assert s[..|a|] == a;
  }

  /** The first whitespace-free run at the start of `s` (`s[0]` is not whitespace). */
  function TokenEnd(s: string): (n: nat)
    ensures n <= |s|
    ensures forall i :: 0 <= i < n ==> !IsWhitespace(s[i])
    ensures n == |s| || IsWhitespace(s[n])
    decreases |s|
  {
    if s == [] || IsWhitespace(s[0]) then 0 else 1 + TokenEnd(s[1..])
  }

  /** `str::split_whitespace`: maximal non-whitespace runs, in order. */
  function SplitWhitespace(s: string): (r: seq<string>)
    ensures forall i :: 0 <= i < |r| ==> r[i] != [] && NoWhitespace(r[i])
    decreases |s|
  {
    if s == [] then []
    else if IsWhitespace(s[0]) then SplitWhitespace(s[1..])
    else
      var n := TokenEnd(s);
      [s[..n]] + SplitWhitespace(s[n..])
  }

  /** There are no tokens exactly when the string is all whitespace. */
  lemma {:induction false} SplitWhitespaceBlank(s: string)
    ensures SplitWhitespace(s) == [] <==> forall i :: 0 <= i < |s| ==> IsWhitespace(s[i])
    decreases |s|
  {
    if s != [] && IsWhitespace(s[0]) {
      SplitWhitespaceBlank(s[1..]);
      assert forall i :: 1 <= i < |s| ==> s[i] == s[1..][i - 1];
    }
  }

  /** A whitespace-free token followed by whitespace (or nothing) is the first token. */
  lemma {:induction false} SplitWhitespaceToken(a: string, rest: string)
    requires a != [] && NoWhitespace(a)
    requires rest == [] || IsWhitespace(rest[0])
    ensures SplitWhitespace(a + rest) == [a] + SplitWhitespace(rest)
  {
    TokenEndOf(a, rest);
    assert (a + rest)[..|a|] == a;
    assert (a + rest)[|a|..] == rest;
  }

  lemma {:induction false} TokenEndOf(a: string, rest: string)
    requires NoWhitespace(a)
    requires rest == [] || IsWhitespace(rest[0])
    ensures TokenEnd(a + rest) == |a|
    decreases |a|
  {
    if a != [] {
      assert (a + rest)[1..] == a[1..] + rest;
      TokenEndOf(a[1..], rest);
    }
  }

  /** Leading whitespace of any kind does not change the tokens. */
  lemma SplitWhitespaceLeading(c: char, rest: string)
    requires IsWhitespace(c)
    ensures SplitWhitespace([c] + rest) == SplitWhitespace(rest)
  {
    assert ([c] + rest)[1..] == rest;
  }

  /**
   * `str::lines`: split at `\n`; a `\r` right before a `\n` is dropped with
   * it; a final line ending produces no empty line after it.
   */
  function Lines(text: string): seq<string>
    decreases |text|
  {
    if text == [] then []
    else match Find(text, '\n')
      case None => [text]
      case Some(i) =>
        var line := text[..i];
        var line' := if line != [] && line[|line| - 1] == '\r' then line[..|line| - 1] else line;
        [line'] + Lines(text[i + 1..])
  }

  /** No line holds a line break, and there are no more lines than characters. */
  lemma {:induction false} LinesSpec(text: string)
    ensures forall i :: 0 <= i < |Lines(text)| ==> '\n' !in Lines(text)[i]
    ensures |Lines(text)| <= |text|
    decreases |text|
  {
    if text != [] {
      match Find(text, '\n')
      case None =>
      case Some(i) =>
        var line := text[..i];
        var line' := if line != [] && line[|line| - 1] == '\r' then line[..|line| - 1] else line;
        assert forall k :: 0 <= k < |line'| ==> line'[k] == line[k];
        LinesSpec(text[i + 1..]);
        var r := Lines(text);
        assert r == [line'] + Lines(text[i + 1..]);
        forall j | 0 <= j < |r| ensures '\n' !in r[j] {
          if j > 0 {
            assert r[j] == Lines(text[i + 1..])[j - 1];
          }
        }
    }
  }

  /** Lines written out, each followed by `\n`. */
  function Terminated(lines: seq<string>): string
    decreases |lines|
  {
    if lines == [] then [] else lines[0] + "\n" + Terminated(lines[1..])
  }

  /**
   * Lines free of `\n`, none ending in `\r`, written out with line endings,
   * are read back as the same lines.
   */
  lemma {:induction false} LinesTerminated(lines: seq<string>)
    requires forall i :: 0 <= i < |lines| ==> '\n' !in lines[i] && (lines[i] == [] || lines[i][|lines[i]| - 1] != '\r')
    ensures Lines(Terminated(lines)) == lines
    decreases |lines|
  {
    if lines != [] {
      var head, rest := lines[0], Terminated(lines[1..]);
      var text := head + "\n" + rest;
      FindAfter(head, '\n', rest);
      assert text[..|head|] == head && text[|head| + 1..] == rest;
      LinesTerminated(lines[1..]);
    }
  }

  /**
   * `str::replace`: every non-overlapping occurrence of `from`, found left to
   * right, is replaced by `to`.
   */
  function Replace(s: string, from: string, to: string): (r: string)
    requires from != []
    decreases |s|
  {
    if |s| < |from| then s
    else if s[..|from|] == from then to + Replace(s[|from|..], from, to)
    else [s[0]] + Replace(s[1..], from, to)
  }

  /** `s` with every leading `c` removed (`trim_start_matches` for one character). */
  function TrimStartMatches(s: string, c: char): string
    decreases |s|
  {
    if s != [] && s[0] == c then TrimStartMatches(s[1..], c) else s
  }

  /** The result is a suffix of `s` that does not start with `c`; all that was removed is `c`. */
  lemma {:induction false} TrimStartMatchesSpec(s: string, c: char)
    ensures var r := TrimStartMatches(s, c);
      (r == [] || r[0] != c) && |r| <= |s| && r == s[|s| - |r|..]
      && forall i :: 0 <= i < |s| - |r| ==> s[i] == c
    decreases |s|
  {
    if s != [] && s[0] == c {
      TrimStartMatchesSpec(s[1..], c);
      var r := TrimStartMatches(s, c);
      assert s[1..][|s| - 1 - |r|..] == s[|s| - |r|..];
      forall i | 0 <= i < |s| - |r| ensures s[i] == c {
        if i > 0 {
          assert s[i] == s[1..][i - 1];
        }
      }
    }
  }

  /** One leading `c` in front of a string that does not start with `c` is removed. */
  lemma TrimStartMatchesOne(c: char, s: string)
    requires s == [] || s[0] != c
    ensures TrimStartMatches([c] + s, c) == s
  {
    assert ([c] + s)[1..] == s;
  }
}
