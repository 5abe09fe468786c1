/**
 * Batch matcher of fuzzycomt.c: `findmatch` on one candidate,
 * `getLineMatches` over the candidate list, and the two entry points
 * `fuzzycomt_match` and `fuzzycomt_sorted_match_list`, which normalise the
 * limit, rank the records and cut the result down.
 */
module Matcher {
  import opened Normalizer
  import opened Scorer
  import opened Ranker

  // ---------------------------------------------------------------------
  // One candidate

  /** The score `findmatch` gives candidate `line` for query `abbrev`. */
  function CandidateScore(line: string, abbrev: string, mode: Mode): real
    requires Preparable(line, mode)
  {
    Score(Prepare(line, mode), abbrev)
  }

  /** A candidate's score lies in [0, 1], and for a non-empty query it is positive exactly when the prepared text aligns the query. */
  lemma CandidateScoreMeaning(line: string, abbrev: string, mode: Mode)
    requires Preparable(line, mode)
    ensures 0.0 <= CandidateScore(line, abbrev, mode) <= 1.0
    ensures |abbrev| > 0 ==>
      (CandidateScore(line, abbrev, mode) > 0.0 <==> exists P :: IsAlignment(Prepare(line, mode), abbrev, 0, 0, P))
  {
    if |abbrev| > 0 {
      ScorePositiveIffAligned(Prepare(line, mode), abbrev);
    }
  }

  /**
   * `findmatch`: rewrite backslashes, keep the last segment in
   * filename-only mode, then score with the zero-length-query loop or with
   * `recursive_match`. A non-empty query against an empty text scores 0
   * without computing `max_score_per_char`.
   */
  method FindMatch(line: string, abbrev: string, mmode: string) returns (m: MatchRecord)
    requires Preparable(line, ModeOf(mmode))
    ensures m.line == line
    ensures m.score == CandidateScore(line, abbrev, ModeOf(mmode))
  {
    var workstr := NormalizeSeparators(line);
    var str: string;
    if mmode == "filename-only" {
      str := SlashSplit(workstr);
    } else {
      str := workstr;
    }
    var score := 1.0;
    if |abbrev| == 0 {
      score := EmptyQueryScore(str);
    } else if |str| == 0 {
      score := 0.0;
    } else {
      var perChar := MaxScorePerChar(str, abbrev);
      CharWeightScoresChars(str, perChar);
      score := RecursiveMatch(str, abbrev, perChar, CharWeight(str, perChar), 0, 0, 0, 0.0);
    }
    m := MatchRecord(line, score);
  }

  // ---------------------------------------------------------------------
  // The candidate list

  /** Every candidate can be prepared in mode `mode`. */
  predicate AllPreparable(paths: seq<string>, mode: Mode) {
    forall k :: 0 <= k < |paths| ==> Preparable(paths[k], mode)
  }

  /** One record per candidate, in input order. */
  function LineMatches(paths: seq<string>, abbrev: string, mode: Mode): seq<MatchRecord>
    requires AllPreparable(paths, mode)
  {
    seq(|paths|, k requires 0 <= k < |paths| => MatchRecord(paths[k], CandidateScore(paths[k], abbrev, mode)))
  }

  /** The records carry the candidates in order, each with a score in [0, 1]. */
  lemma LineMatchesShape(paths: seq<string>, abbrev: string, mode: Mode)
    requires AllPreparable(paths, mode)
    ensures |LineMatches(paths, abbrev, mode)| == |paths|
    ensures forall k :: 0 <= k < |paths| ==>
      LineMatches(paths, abbrev, mode)[k].line == paths[k] && 0.0 <= LineMatches(paths, abbrev, mode)[k].score <= 1.0
  {
    forall k | 0 <= k < |paths|
      ensures 0.0 <= LineMatches(paths, abbrev, mode)[k].score <= 1.0
    {
      CandidateScoreMeaning(paths[k], abbrev, mode);
    }
  }

  /** `getLineMatches`: fill `matches` with `findmatch` of each candidate, by index. */
  method GetLineMatches(paths: seq<string>, abbrev: string, mmode: string, matches: array<MatchRecord>)
    requires matches.Length == |paths| && AllPreparable(paths, ModeOf(mmode))
    modifies matches
    ensures matches[..] == LineMatches(paths, abbrev, ModeOf(mmode))
  {
    var i := 0;
    while i < |paths|
      invariant 0 <= i <= |paths|
      invariant forall k :: 0 <= k < i ==> matches[k] == LineMatches(paths, abbrev, ModeOf(mmode))[k]
    {
      var record := FindMatch(paths[i], abbrev, mmode);
      matches[i] := record;
      i := i + 1;
    }
  }

  /** `qsort` with `comp_score`: the array ends up holding its records in ranking order. */
  method SortByScore(matches: array<MatchRecord>)
    modifies matches
    ensures matches[..] == SortMatches(old(matches[..]))
  {
    var sorted := SortMatches(matches[..]);
    forall k | 0 <= k < matches.Length {
      matches[k] := sorted[k];
    }
  }

  // ---------------------------------------------------------------------
  // Limit, ranking and truncation

  /** The `limit` both entry points use: 0, or more than there are candidates, means all of them. */
  function NormalizeLimit(limit: nat, count: nat): (n: nat)
    ensures n <= count
    ensures limit == 0 || limit > count ==> n == count
    ensures 0 < limit <= count ==> n == limit
  {
    if limit > count || limit == 0 then count else limit
  }

  /** The candidates' records in ranking order. */
  function Ranked(paths: seq<string>, abbrev: string, mode: Mode): seq<MatchRecord>
    requires AllPreparable(paths, mode)
  {
    SortMatches(LineMatches(paths, abbrev, mode))
  }

  /** What `fuzzycomt_match` returns: candidate lines for the empty query, scored records otherwise. */
  datatype MatchOutput = Lines(lines: seq<string>) | Records(records: seq<MatchRecord>)

  /** The result of `fuzzycomt_match`. */
  function MatchResult(paths: seq<string>, abbrev: string, limit: nat, mode: Mode): MatchOutput
    requires |abbrev| > 0 ==> AllPreparable(paths, mode)
  {
    var lim := NormalizeLimit(limit, |paths|);
    if |abbrev| == 0 then Lines(paths[..lim])
    else Records(Ranked(paths, abbrev, mode)[..lim])
  }

  /**
   * `fuzzycomt_match`: normalise the limit; for an empty query return the
   * first `limit` candidates; otherwise score every candidate, sort, and
   * copy records until `limit` of them have been copied.
   */
  method Match(paths: seq<string>, abbrev: string, limit: nat, mmode: string) returns (out: MatchOutput)
    requires |abbrev| > 0 ==> AllPreparable(paths, ModeOf(mmode))
    ensures out == MatchResult(paths, abbrev, limit, ModeOf(mmode))
  {
    var lim := NormalizeLimit(limit, |paths|);
    if |abbrev| == 0 {
      return Lines(paths[..lim]);
    }
    var matches := new MatchRecord[|paths|](_ => MatchRecord([], 0.0));
    GetLineMatches(paths, abbrev, mmode, matches);
    SortByScore(matches);
    var returnlist: seq<MatchRecord> := [];
    var i := 0;
    while i < |paths|
      invariant 0 <= i <= lim
      invariant returnlist == matches[..i]
    {
      if i == lim {
        break;
      }
      returnlist := returnlist + [matches[i]];
      i := i + 1;
    }
    assert matches[..] == Ranked(paths, abbrev, ModeOf(mmode));
    return Records(returnlist);
  }

  /** The lines of the records with a positive score, in order. */
  function PositiveLines(s: seq<MatchRecord>): seq<string> {
    if s == [] then []
    else PositiveLines(s[..|s| - 1]) + (if s[|s| - 1].score > 0.0 then [s[|s| - 1].line] else [])
  }

  /** The result of `fuzzycomt_sorted_match_list`. */
  function SortedMatchListResult(paths: seq<string>, abbrev: string, limit: nat, mode: Mode): seq<string>
    requires |abbrev| > 0 ==> AllPreparable(paths, mode)
  {
    var lim := NormalizeLimit(limit, |paths|);
    if |abbrev| == 0 then paths[..lim]
    else PositiveLines(Ranked(paths, abbrev, mode)[..lim])
  }

  /**
   * `fuzzycomt_sorted_match_list`: as `fuzzycomt_match`, but return only
   * the lines, and only those of records whose score is positive.
   */
  method SortedMatchList(paths: seq<string>, abbrev: string, limit: nat, mmode: string) returns (out: seq<string>)
    requires |abbrev| > 0 ==> AllPreparable(paths, ModeOf(mmode))
    ensures out == SortedMatchListResult(paths, abbrev, limit, ModeOf(mmode))
  {
    var lim := NormalizeLimit(limit, |paths|);
    if |abbrev| == 0 {
      return paths[..lim];
    }
    var matches := new MatchRecord[|paths|](_ => MatchRecord([], 0.0));
    GetLineMatches(paths, abbrev, mmode, matches);
    SortByScore(matches);
    var returnlist: seq<string> := [];
    var i := 0;
    while i < |paths|
      invariant 0 <= i <= lim
      invariant returnlist == PositiveLines(matches[..i])
    {
      if i == lim {
        break;
      }
      if matches[i].score > 0.0 {
        returnlist := returnlist + [matches[i].line];
      }
      assert matches[..i + 1][..i] == matches[..i];
      i := i + 1;
    }
    assert matches[..] == Ranked(paths, abbrev, ModeOf(mmode));
    return returnlist;
  }

  // ---------------------------------------------------------------------
  // What the entry points promise

  /** The lines of a sequence of records. */
  function LinesOf(s: seq<MatchRecord>): seq<string> {
    seq(|s|, k requires 0 <= k < |s| => s[k].line)
  }

  /**
   * Every record of the candidate list is a candidate with its score, which
   * lies in [0, 1] and, for a non-empty query, is positive exactly when the
   * prepared candidate aligns the query.
   */
  lemma LineMatchesMembers(paths: seq<string>, abbrev: string, mode: Mode, x: MatchRecord)
    requires AllPreparable(paths, mode) && x in LineMatches(paths, abbrev, mode)
    ensures x.line in paths && Preparable(x.line, mode)
    ensures x.score == CandidateScore(x.line, abbrev, mode) && 0.0 <= x.score <= 1.0
    ensures |abbrev| > 0 ==> (x.score > 0.0 <==> exists P :: IsAlignment(Prepare(x.line, mode), abbrev, 0, 0, P))
  {
    var k :| 0 <= k < |paths| && LineMatches(paths, abbrev, mode)[k] == x;
    CandidateScoreMeaning(paths[k], abbrev, mode);
  }

  /** The ranking holds every candidate's record, in ranking order, so with scores that never increase. */
  lemma RankedShape(paths: seq<string>, abbrev: string, mode: Mode)
    requires AllPreparable(paths, mode)
    ensures |Ranked(paths, abbrev, mode)| == |paths|
    ensures SortedByScore(Ranked(paths, abbrev, mode)) && ScoresDescending(Ranked(paths, abbrev, mode))
    ensures multiset(Ranked(paths, abbrev, mode)) == multiset(LineMatches(paths, abbrev, mode))
    ensures forall k :: 0 <= k < |paths| ==> Ranked(paths, abbrev, mode)[k] in LineMatches(paths, abbrev, mode)
  {
    var r := Ranked(paths, abbrev, mode);
    SortedScoresDescending(r);
    forall k | 0 <= k < |paths| ensures r[k] in LineMatches(paths, abbrev, mode) {
      assert r[k] in multiset(r);
    }
  }

  /** For the empty query `fuzzycomt_match` returns the first `limit` candidates. */
  lemma MatchEmptyQuery(paths: seq<string>, limit: nat, mode: Mode)
    ensures var out := MatchResult(paths, [], limit, mode);
      out.Lines? && |out.lines| == NormalizeLimit(limit, |paths|) && out.lines <= paths
  {
  }

  /**
   * For a non-empty query `fuzzycomt_match` returns exactly `limit` records
   * (after normalisation), in ranking order, each a candidate with its
   * score.
   */
  lemma MatchRecordsShape(paths: seq<string>, abbrev: string, limit: nat, mode: Mode)
    requires |abbrev| > 0 && AllPreparable(paths, mode)
    ensures var out := MatchResult(paths, abbrev, limit, mode);
      && out.Records?
      && |out.records| == NormalizeLimit(limit, |paths|)
      && SortedByScore(out.records)
      && forall x :: x in out.records ==> x.line in paths && x.score == CandidateScore(x.line, abbrev, mode)
  {
    var lim := NormalizeLimit(limit, |paths|);
    var r := Ranked(paths, abbrev, mode);
    RankedShape(paths, abbrev, mode);
    RankedMembers(paths, abbrev, mode);
    SortedPrefix(r, lim);
    assert forall x :: x in r[..lim] ==> x in r;
  }

  /** Every ranked record is a candidate with its score. */
  lemma RankedMembers(paths: seq<string>, abbrev: string, mode: Mode)
    requires AllPreparable(paths, mode)
    ensures forall x :: x in Ranked(paths, abbrev, mode) ==>
      x.line in paths && x.score == CandidateScore(x.line, abbrev, mode)
  {
    var r := Ranked(paths, abbrev, mode);
    forall x | x in r ensures x.line in paths && x.score == CandidateScore(x.line, abbrev, mode) {
      assert x in multiset(r);
      LineMatchesMembers(paths, abbrev, mode, x);
    }
  }

  /**
   * The records `fuzzycomt_match` keeps and those it drops together make up
   * the candidate list, and every record kept ranks before, and scores at
   * least as much as, every record dropped.
   */
  lemma MatchKeepsBest(paths: seq<string>, abbrev: string, limit: nat, mode: Mode)
    requires |abbrev| > 0 && AllPreparable(paths, mode)
    ensures var kept, dropped := MatchResult(paths, abbrev, limit, mode).records, Ranked(paths, abbrev, mode)[NormalizeLimit(limit, |paths|)..];
      && multiset(kept) + multiset(dropped) == multiset(LineMatches(paths, abbrev, mode))
      && forall a, b :: a in kept && b in dropped ==> CompScore(a, b) <= 0 && a.score >= b.score
  {
    var lim := NormalizeLimit(limit, |paths|);
    var r := Ranked(paths, abbrev, mode);
    RankedShape(paths, abbrev, mode);
    assert r == r[..lim] + r[lim..];
    SortedSplit(r, lim);
  }

  /** Every line kept is that of a record with a positive score, and every such record's line is kept. */
  lemma {:induction false} PositiveLinesMembers(s: seq<MatchRecord>)
    ensures forall x :: x in PositiveLines(s) <==> exists k :: 0 <= k < |s| && s[k].score > 0.0 && s[k].line == x
    decreases |s|
  {
    if s != [] {
      var init := s[..|s| - 1];
      PositiveLinesMembers(init);
      assert forall k :: 0 <= k < |init| ==> init[k] == s[k];
    }
  }

  /** No record of `s` has a negative score. */
  predicate ScoresNonNegative(s: seq<MatchRecord>) {
    forall k :: 0 <= k < |s| ==> s[k].score >= 0.0
  }

  /** A prefix of a ranking with non-negative, non-increasing scores is one too. */
  lemma DescendingPrefix(s: seq<MatchRecord>, n: nat)
    requires n <= |s| && ScoresDescending(s) && ScoresNonNegative(s)
    ensures ScoresDescending(s[..n]) && ScoresNonNegative(s[..n])
    ensures forall k :: 0 <= k < n ==> s[..n][k] == s[k]
  {
  }

  /** When the last score is positive, every score is. */
  lemma LastPositive(s: seq<MatchRecord>)
    requires s != [] && ScoresDescending(s) && s[|s| - 1].score > 0.0
    ensures forall k :: 0 <= k < |s| ==> s[k].score > 0.0
  {
    forall k | 0 <= k < |s| ensures s[k].score > 0.0 {
      if k < |s| - 1 {
        assert s[k].score >= s[|s| - 1].score;
      }
    }
  }

  /** The lines of a prefix one record longer. */
  lemma LinesOfSnoc(s: seq<MatchRecord>, n: nat)
    requires n < |s|
    ensures LinesOf(s[..n + 1]) == LinesOf(s[..n]) + [s[n].line]
  {
  }

  /**
   * In a ranking whose scores are not negative the positive records come
   * first, so keeping the positive lines keeps a prefix of the ranking.
   */
  lemma {:induction false} PositiveLinesPrefix(s: seq<MatchRecord>) returns (p: nat)
    requires ScoresDescending(s) && ScoresNonNegative(s)
    ensures p <= |s| && PositiveLines(s) == LinesOf(s[..p])
    ensures forall k :: 0 <= k < p ==> s[k].score > 0.0
    ensures forall k :: p <= k < |s| ==> s[k].score == 0.0
    decreases |s|
  {
    if s == [] {
      return 0;
    }
    var n := |s| - 1;
    var init := s[..n];
    DescendingPrefix(s, n);
    var p' := PositiveLinesPrefix(init);
    if s[n].score > 0.0 {
      LastPositive(s);
      p := |s|;
      assert p' == n;
      assert init[..p'] == s[..n];
      LinesOfSnoc(s, n);
      assert s[..n + 1] == s;
    } else {
      p := p';
      assert s[..p] == init[..p'];
    }
  }

  /** Every ranked record has a non-negative score. */
  lemma RankedNonNegative(paths: seq<string>, abbrev: string, mode: Mode)
    requires AllPreparable(paths, mode)
    ensures ScoresNonNegative(Ranked(paths, abbrev, mode))
  {
    var r := Ranked(paths, abbrev, mode);
    RankedShape(paths, abbrev, mode);
    forall k | 0 <= k < |r| ensures r[k].score >= 0.0 {
      LineMatchesMembers(paths, abbrev, mode, r[k]);
    }
  }

  /**
   * For a non-empty query `fuzzycomt_sorted_match_list` returns the lines
   * of a prefix of the records `fuzzycomt_match` returns: exactly those
   * with a positive score.
   */
  lemma SortedMatchListShape(paths: seq<string>, abbrev: string, limit: nat, mode: Mode) returns (p: nat)
    requires |abbrev| > 0 && AllPreparable(paths, mode)
    ensures var kept, out := MatchResult(paths, abbrev, limit, mode).records, SortedMatchListResult(paths, abbrev, limit, mode);
      && p <= |kept| && out == LinesOf(kept[..p])
      && (forall k :: 0 <= k < |kept| ==> (k < p <==> kept[k].score > 0.0))
  {
    var lim := NormalizeLimit(limit, |paths|);
    var r := Ranked(paths, abbrev, mode);
    RankedShape(paths, abbrev, mode);
    RankedNonNegative(paths, abbrev, mode);
    p := KeptPositiveLines(r, lim);
  }

  /** The positive lines among the first `lim` records of a ranking are the lines of a prefix of them. */
  lemma KeptPositiveLines(r: seq<MatchRecord>, lim: nat) returns (p: nat)
    requires lim <= |r| && ScoresDescending(r) && ScoresNonNegative(r)
    ensures p <= lim && PositiveLines(r[..lim]) == LinesOf(r[..lim][..p])
    ensures forall k :: 0 <= k < lim ==> (k < p <==> r[k].score > 0.0)
  {
    DescendingPrefix(r, lim);
    p := PositiveLinesPrefix(r[..lim]);
  }
}
