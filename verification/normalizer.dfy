/**
 * Candidate normaliser of fuzzycomt.c: the backslash rewrite done by
 * `findmatch` on its working copy, the `strtok` loop of `slashsplit` that
 * keeps the last path segment, and the choice between the two modes.
 */
module Normalizer {
  import opened Wrappers

  /** How a candidate is prepared before it is scored. */
  datatype Mode = FullPath | FilenameOnly

  /** `findmatch` compares the mode string against "filename-only"; any other string means the full path. */
  function ModeOf(mmode: string): (m: Mode)
    ensures m == FilenameOnly <==> mmode == "filename-only"
  {
    if mmode == "filename-only" then FilenameOnly else FullPath
  }

  // ---------------------------------------------------------------------
  // Backslash rewrite

  function SlashOf(c: char): char {
    if c == '\\' then '/' else c
  }

  /** The candidate with every backslash replaced by a forward slash. */
  function Slashed(s: string): string {
    seq(|s|, i requires 0 <= i < |s| => SlashOf(s[i]))
  }

  /**
   * The rewrite loop of `findmatch`: copy the candidate into a buffer and
   * rewrite each backslash in place.
   */
  method NormalizeSeparators(s: string) returns (w: string)
    ensures w == Slashed(s)
    ensures |w| == |s| && '\\' !in w
    ensures forall i :: 0 <= i < |s| && s[i] == '\\' ==> w[i] == '/'
    ensures forall i :: 0 <= i < |s| && s[i] != '\\' ==> w[i] == s[i]
  {
    var work := new char[|s|](i requires 0 <= i < |s| => s[i]);
    var i := 0;
    while i < work.Length
      invariant 0 <= i <= work.Length
      invariant forall k :: 0 <= k < i ==> work[k] == SlashOf(s[k])
      invariant forall k :: i <= k < work.Length ==> work[k] == s[k]
    {
      if work[i] == '\\' {
        work[i] := '/';
      }
      i := i + 1;
    }
    w := work[..];
  }

  // ---------------------------------------------------------------------
  // Last path segment

  /** The string holds at least one character other than '/'. */
  predicate HasSegment(s: string) {
    exists k :: 0 <= k < |s| && s[k] != '/'
  }

  /**
   * `s[start..end]` is the last maximal run of non-'/' characters of `s`:
   * non-empty, preceded by '/' or the start of `s`, and followed only by '/'.
   */
  ghost predicate IsLastRun(s: string, start: nat, end: nat) {
    && start < end <= |s|
    && (start == 0 || s[start - 1] == '/')
    && (forall k :: start <= k < end ==> s[k] != '/')
    && (forall k :: end <= k < |s| ==> s[k] == '/')
  }

  /** The end of `s[..j]` once its trailing slashes are removed. */
  function TrimmedEnd(s: string, j: nat): (e: nat)
    requires j <= |s|
    ensures e <= j && (e == 0 || s[e - 1] != '/')
    ensures forall k :: e <= k < j ==> s[k] == '/'
  {
    if j == 0 || s[j - 1] != '/' then j else TrimmedEnd(s, j - 1)
  }

  /** The start of the run of non-'/' characters that ends at `e`. */
  function SegmentStart(s: string, e: nat): (b: nat)
    requires e <= |s|
    ensures b <= e && (b == 0 || s[b - 1] == '/')
    ensures forall k :: b <= k < e ==> s[k] != '/'
  {
    if e == 0 || s[e - 1] == '/' then e else SegmentStart(s, e - 1)
  }

  /** The last non-empty '/'-separated segment (empty when there is none). */
  function LastSegment(s: string): string {
    var e := TrimmedEnd(s, |s|);
    s[SegmentStart(s, e)..e]
  }

  /** `LastSegment` is the last maximal run of non-'/' characters. */
  lemma LastSegmentIsLastRun(s: string) returns (start: nat, end: nat)
    requires HasSegment(s)
    ensures IsLastRun(s, start, end) && LastSegment(s) == s[start..end]
  {
    end := TrimmedEnd(s, |s|);
    start := SegmentStart(s, end);
    var k :| 0 <= k < |s| && s[k] != '/';
    assert k < end;
  }

  /** At most one span of a string is its last run. */
  lemma LastRunUnique(s: string, a: nat, b: nat, c: nat, d: nat)
    requires IsLastRun(s, a, b) && IsLastRun(s, c, d)
    ensures a == c && b == d
  {
    assert s[d - 1] != '/' && s[b - 1] != '/';
    assert c == 0 || s[c - 1] == '/';
    assert a == 0 || s[a - 1] == '/';
  }

  /**
   * The segment is non-empty, holds no '/', is a suffix of the string with its
   * trailing slashes removed, and is preceded there by a '/' (or is all of it).
   */
  lemma LastSegmentShape(s: string)
    requires HasSegment(s)
    ensures var r, u := LastSegment(s), s[..TrimmedEnd(s, |s|)];
      && |r| > 0 && '/' !in r
      && |r| <= |u| && r == u[|u| - |r|..]
      && (|r| == |u| || u[|u| - |r| - 1] == '/')
      && forall k :: |u| <= k < |s| ==> s[k] == '/'
  {
    var start, end := LastSegmentIsLastRun(s);
  }

  /** A non-empty candidate without any '/' is its own last segment. */
  lemma LastSegmentNoSlash(s: string)
    requires |s| > 0 && '/' !in s
    ensures LastSegment(s) == s
  {
    assert s[0] != '/';
    var start, end := LastSegmentIsLastRun(s);
  }

  // ---------------------------------------------------------------------
  // strtok and slashsplit

  /** A token found by `strtok(_, "/")`, and where the next call resumes. */
  datatype Token = Token(start: nat, end: nat, next: nat)

  function SkipSlashes(s: string, p: nat): (q: nat)
    requires p <= |s|
    ensures p <= q <= |s|
    ensures forall k :: p <= k < q ==> s[k] == '/'
    ensures q < |s| ==> s[q] != '/'
    decreases |s| - p
  {
    if p < |s| && s[p] == '/' then SkipSlashes(s, p + 1) else p
  }

  function TokenEnd(s: string, p: nat): (q: nat)
    requires p <= |s|
    ensures p <= q <= |s|
    ensures forall k :: p <= k < q ==> s[k] != '/'
    ensures q < |s| ==> s[q] == '/'
    decreases |s| - p
  {
    if p < |s| && s[p] != '/' then TokenEnd(s, p + 1) else p
  }

  /**
   * One call of `strtok` resuming at `p`: skip the delimiters, then take the
   * longest run of non-delimiters; the delimiter after it is consumed.
   */
  function Strtok(s: string, p: nat): (r: Option<Token>)
    requires p <= |s|
    ensures r.None? <==> forall k :: p <= k < |s| ==> s[k] == '/'
    ensures r.Some? ==>
      && p <= r.value.start < r.value.end <= r.value.next <= |s|
      && (forall k :: p <= k < r.value.start ==> s[k] == '/')
      && (forall k :: r.value.start <= k < r.value.end ==> s[k] != '/')
      && (forall k :: r.value.end <= k < r.value.next ==> s[k] == '/')
      && (r.value.next == r.value.end + 1 || r.value.next == r.value.end == |s|)
  {
    var start := SkipSlashes(s, p);
    if start == |s| then None
    else
      var end := TokenEnd(s, start);
      Some(Token(start, end, if end < |s| then end + 1 else end))
  }

  /**
   * `slashsplit`: call `strtok` until it returns no token and keep the last
   * token seen. The source reads an unset pointer when the line holds no
   * character other than '/', so such lines are excluded.
   */
  method SlashSplit(line: string) returns (fname: string)
    requires HasSegment(line)
    ensures fname == LastSegment(line)
  {
    var pch := Strtok(line, 0);
    var start: nat, end: nat := 0, 0;
    while pch.Some?
      invariant pch.Some? ==> pch.value.next <= |line|
      invariant pch.Some? ==>
        && pch.value.start < pch.value.end <= |line|
        && (pch.value.start == 0 || line[pch.value.start - 1] == '/')
        && (forall k :: pch.value.start <= k < pch.value.end ==> line[k] != '/')
        && (forall k :: pch.value.end <= k < pch.value.next ==> line[k] == '/')
        && (pch.value.next == pch.value.end + 1 || pch.value.next == pch.value.end == |line|)
      invariant pch.None? ==> IsLastRun(line, start, end)
      decreases if pch.Some? then |line| + 1 - pch.value.start else 0
    {
      start, end := pch.value.start, pch.value.end;
      pch := Strtok(line, pch.value.next);
    }
    fname := line[start..end];
    var a, b := LastSegmentIsLastRun(line);
    LastRunUnique(line, start, end, a, b);
  }

  // ---------------------------------------------------------------------
  // Candidate preparation

  /** The candidate can be prepared: `slashsplit` needs a segment in filename-only mode. */
  predicate Preparable(line: string, mode: Mode) {
    mode == FullPath || HasSegment(Slashed(line))
  }

  /**
   * The text that `findmatch` hands to the scorer. It never holds a
   * backslash; in full-path mode it has the candidate's length, and in
   * filename-only mode it is non-empty and holds no '/'.
   */
  function Prepare(line: string, mode: Mode): (r: string)
    requires Preparable(line, mode)
    ensures '\\' !in r
    ensures mode == FullPath ==> |r| == |line|
    ensures mode == FilenameOnly ==> |r| > 0 && '/' !in r
  {
    SlashedShape(line);
    if mode == FilenameOnly then
      LastSegmentShape(Slashed(line));
      LastSegmentKeeps(Slashed(line), '\\');
      LastSegment(Slashed(line))
    else
      Slashed(line)
  }

  /** The rewrite keeps the length and leaves no backslash. */
  lemma SlashedShape(line: string)
    ensures |Slashed(line)| == |line| && '\\' !in Slashed(line)
  {
    var w := Slashed(line);
    forall k | 0 <= k < |w| ensures w[k] != '\\' {
      assert w[k] == SlashOf(line[k]);
    }
  }

  /** The last segment holds only characters of the line. */
  lemma LastSegmentKeeps(s: string, c: char)
    requires HasSegment(s) && c !in s
    ensures c !in LastSegment(s)
  {
    var start, end := LastSegmentIsLastRun(s);
    forall k | 0 <= k < end - start ensures LastSegment(s)[k] != c {
      assert LastSegment(s)[k] == s[start + k];
    }
  }
}
