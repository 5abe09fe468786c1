/**
 * Ranker of fuzzycomt.c: the comparators `comp_alpha` and `comp_score`
 * handed to `qsort`, and the order they define on scored candidates.
 */
module Ranker {

  /** A candidate line and its score: the `returnstruct` of the source. */
  datatype MatchRecord = MatchRecord(line: string, score: real)

  // ---------------------------------------------------------------------
  // Comparing lines

  /**
   * `strncmp` on the first `n` characters: the sign of the first
   * difference, 0 when the two prefixes agree.
   */
  function Strncmp(a: string, b: string, n: nat): (r: int)
    requires n <= |a| && n <= |b|
    ensures -1 <= r <= 1
    ensures r == 0 <==> a[..n] == b[..n]
  {
    if n == 0 then 0
    else if a[0] < b[0] then -1
    else if a[0] > b[0] then 1
    else
      var r := Strncmp(a[1..], b[1..], n - 1);
      assert a[..n] == [a[0]] + a[1..][..n - 1];
      assert b[..n] == [b[0]] + b[1..][..n - 1];
      r
  }

  /** Lexicographic order on lines, a proper prefix first: the reference `comp_alpha` is measured against. */
  function LexCompare(x: string, y: string): (r: int)
    ensures -1 <= r <= 1
  {
    if x == [] && y == [] then 0
    else if x == [] then -1
    else if y == [] then 1
    else if x[0] < y[0] then -1
    else if x[0] > y[0] then 1
    else LexCompare(x[1..], y[1..])
  }

  /**
   * `comp_alpha`: compare the common prefix with `strncmp`; when it agrees,
   * the shorter line comes first. The result is lexicographic order.
   */
  function CompAlpha(a: MatchRecord, b: MatchRecord): (r: int)
    ensures r == LexCompare(a.line, b.line)
  {
    var x, y := a.line, b.line;
    if |x| > |y| then
      var order := Strncmp(x, y, |y|);
      if order == 0 then
        assert x[..|y|] == y;
        LexPrefix(y, x);
        LexAntisymmetric(y, x);
        1
      else
        StrncmpDecides(x, y, |y|);
        order
    else if |x| < |y| then
      var order := Strncmp(x, y, |x|);
      if order == 0 then
        assert y[..|x|] == x;
        LexPrefix(x, y);
        -1
      else
        StrncmpDecides(x, y, |x|);
        order
    else
      var order := Strncmp(x, y, |x|);
      if order == 0 then
        assert x == x[..|x|] && y == y[..|y|];
        LexZero(x, y);
        order
      else
        StrncmpDecides(x, y, |x|);
        order
  }

  /**
   * `comp_score`: the higher score first; equal scores fall back to
   * `comp_alpha`. Only equal records compare equal.
   */
  function CompScore(a: MatchRecord, b: MatchRecord): (r: int)
    ensures r < 0 <==> a.score > b.score || (a.score == b.score && LexCompare(a.line, b.line) < 0)
    ensures r == 0 <==> a == b
  {
    if a.score > b.score then -1
    else if a.score < b.score then 1
    else
      LexZero(a.line, b.line);
      CompAlpha(a, b)
  }

  // ---------------------------------------------------------------------
  // Lexicographic order is a total order

  /** A difference inside the first `n` characters decides the whole comparison. */
  lemma {:induction false} StrncmpDecides(x: string, y: string, n: nat)
    requires n <= |x| && n <= |y| && Strncmp(x, y, n) != 0
    ensures LexCompare(x, y) == Strncmp(x, y, n)
    decreases n
  {
    if x[0] == y[0] {
      StrncmpDecides(x[1..], y[1..], n - 1);
    }
  }

  /** A proper prefix comes first. */
  lemma {:induction false} LexPrefix(x: string, y: string)
    requires |x| < |y| && y[..|x|] == x
    ensures LexCompare(x, y) == -1
    decreases |x|
  {
    if x != [] {
      assert x[0] == y[0];
      assert y[1..][..|x| - 1] == x[1..];
      LexPrefix(x[1..], y[1..]);
    }
  }

  /** Swapping the arguments flips the sign. */
  lemma {:induction false} LexAntisymmetric(x: string, y: string)
    ensures LexCompare(y, x) == -LexCompare(x, y)
    decreases |x|
  {
    if x != [] && y != [] && x[0] == y[0] {
      LexAntisymmetric(x[1..], y[1..]);
    }
  }

  /** Only equal lines compare equal. */
  lemma {:induction false} LexZero(x: string, y: string)
    ensures LexCompare(x, y) == 0 <==> x == y
    decreases |x|
  {
    if x != [] && y != [] && x[0] == y[0] {
      LexZero(x[1..], y[1..]);
      assert x == [x[0]] + x[1..] && y == [y[0]] + y[1..];
    }
  }

  /** The order is transitive. */
  lemma {:induction false} LexTransitive(x: string, y: string, z: string)
    requires LexCompare(x, y) <= 0 && LexCompare(y, z) <= 0
    ensures LexCompare(x, z) <= 0
    decreases |x|
  {
    if x != [] && y != [] && z != [] && x[0] == y[0] == z[0] {
      LexTransitive(x[1..], y[1..], z[1..]);
    }
  }

  // ---------------------------------------------------------------------
  // `comp_score` is a strict total order on distinct records

  /** Swapping the arguments flips the sign. */
  lemma CompScoreAntisymmetric(a: MatchRecord, b: MatchRecord)
    ensures CompScore(b, a) == -CompScore(a, b)
  {
    LexAntisymmetric(a.line, b.line);
  }

  /** The order is transitive. */
  lemma CompScoreTransitive(a: MatchRecord, b: MatchRecord, c: MatchRecord)
    requires CompScore(a, b) <= 0 && CompScore(b, c) <= 0
    ensures CompScore(a, c) <= 0
  {
    if a.score == b.score == c.score {
      LexTransitive(a.line, b.line, c.line);
    }
  }

  // ---------------------------------------------------------------------
  // Sorting with `comp_score`

  /** Every record comes no later than each record after it. */
  predicate SortedByScore(s: seq<MatchRecord>) {
    forall i, j :: 0 <= i < j < |s| ==> CompScore(s[i], s[j]) <= 0
  }

  /** Scores never increase along a sequence. */
  predicate ScoresDescending(s: seq<MatchRecord>) {
    forall i, j :: 0 <= i < j < |s| ==> s[i].score >= s[j].score
  }

  /** Along a sorted sequence the scores never increase. */
  lemma SortedScoresDescending(s: seq<MatchRecord>)
    requires SortedByScore(s)
    ensures ScoresDescending(s)
  {
    forall i, j | 0 <= i < j < |s| ensures s[i].score >= s[j].score {
      assert CompScore(s[i], s[j]) <= 0;
    }
  }

  /** Cutting a sorted sequence anywhere leaves every record in front ranked before every record behind. */
  lemma SortedSplit(s: seq<MatchRecord>, n: nat)
    requires SortedByScore(s) && n <= |s|
    ensures forall a, b :: a in s[..n] && b in s[n..] ==> CompScore(a, b) <= 0 && a.score >= b.score
  {
    forall a, b | a in s[..n] && b in s[n..] ensures CompScore(a, b) <= 0 && a.score >= b.score {
      var i :| 0 <= i < n && s[..n][i] == a;
      var j :| 0 <= j < |s| - n && s[n..][j] == b;
      assert a == s[i] && b == s[n + j];
    }
  }

  /** Inserts `x` into a sorted sequence in front of the first record it does not come after. */
  function Insert(x: MatchRecord, s: seq<MatchRecord>): (r: seq<MatchRecord>)
    requires SortedByScore(s)
    ensures SortedByScore(r)
    ensures multiset(r) == multiset(s) + multiset{x}
  {
    if s == [] then [x]
    else if CompScore(x, s[0]) <= 0 then
      InsertFront(x, s);
      [x] + s
    else
      var rest := Insert(x, s[1..]);
      CompScoreAntisymmetric(x, s[0]);
      InsertBehind(x, s, rest);
      assert s == [s[0]] + s[1..];
      [s[0]] + rest
  }

  /** A record that comes no later than the head of a sorted sequence can go in front of it. */
  lemma InsertFront(x: MatchRecord, s: seq<MatchRecord>)
    requires SortedByScore(s) && s != [] && CompScore(x, s[0]) <= 0
    ensures SortedByScore([x] + s)
  {
    var r := [x] + s;
    forall i, j | 0 <= i < j < |r| ensures CompScore(r[i], r[j]) <= 0 {
      if i == 0 && j > 1 {
        CompScoreTransitive(x, s[0], s[j - 1]);
      }
    }
  }

  /** The head of a sorted sequence can go in front of a sorted rearrangement of its tail and one record after it. */
  lemma InsertBehind(x: MatchRecord, s: seq<MatchRecord>, rest: seq<MatchRecord>)
    requires SortedByScore(s) && s != [] && CompScore(s[0], x) <= 0
    requires SortedByScore(rest) && multiset(rest) == multiset(s[1..]) + multiset{x}
    ensures SortedByScore([s[0]] + rest)
  {
    var r := [s[0]] + rest;
    forall j | 0 < j < |r| ensures CompScore(s[0], r[j]) <= 0 {
      assert r[j] == rest[j - 1];
      assert r[j] in multiset(rest);
      if r[j] != x {
        assert r[j] in multiset(s[1..]);
        var k :| 0 <= k < |s[1..]| && s[1..][k] == r[j];
        assert s[k + 1] == r[j];
      }
    }
  }

  /** The ranking `qsort` produces: the candidates in `comp_score` order. */
  function SortMatches(s: seq<MatchRecord>): (r: seq<MatchRecord>)
    ensures SortedByScore(r)
    ensures multiset(r) == multiset(s)
    ensures |r| == |s|
  {
    if s == [] then []
    else
      var r := Insert(s[0], SortMatches(s[1..]));
      assert s == [s[0]] + s[1..];
      r
  }

  /** The head of a sorted sequence comes no later than any of its records. */
  lemma SortedHeadFirst(s: seq<MatchRecord>, x: MatchRecord)
    requires SortedByScore(s) && x in multiset(s)
    ensures CompScore(s[0], x) <= 0
  {
    var i :| 0 <= i < |s| && s[i] == x;
    if i == 0 {
      assert CompScore(x, x) == 0;
    }
  }

  /** A prefix of a sorted sequence is sorted. */
  lemma SortedPrefix(s: seq<MatchRecord>, n: nat)
    requires SortedByScore(s) && n <= |s|
    ensures SortedByScore(s[..n])
  {
    forall i, j | 0 <= i < j < n ensures CompScore(s[..n][i], s[..n][j]) <= 0 {
      assert s[..n][i] == s[i] && s[..n][j] == s[j];
    }
  }

  /** The tail of a sorted sequence is sorted. */
  lemma SortedTail(s: seq<MatchRecord>)
    requires SortedByScore(s) && s != []
    ensures SortedByScore(s[1..])
  {
    forall i, j | 0 <= i < j < |s[1..]| ensures CompScore(s[1..][i], s[1..][j]) <= 0 {
      assert s[1..][i] == s[i + 1] && s[1..][j] == s[j + 1];
    }
  }

  /** Two sorted arrangements of the same non-empty records start with the same record. */
  lemma SortedHeadsAgree(a: seq<MatchRecord>, b: seq<MatchRecord>)
    requires SortedByScore(a) && SortedByScore(b) && multiset(a) == multiset(b) && a != []
    ensures b != [] && a[0] == b[0]
  {
    assert a[0] in multiset(a);
    assert b != [];
    assert b[0] in multiset(b);
    SortedHeadFirst(b, a[0]);
    SortedHeadFirst(a, b[0]);
    CompScoreAntisymmetric(a[0], b[0]);
  }

  /**
   * Two sorted arrangements of the same records are identical: since
   * `comp_score` reports 0 only for equal records, the order `qsort` leaves
   * does not depend on how it sorts.
   */
  lemma {:induction false} SortedUnique(a: seq<MatchRecord>, b: seq<MatchRecord>)
    requires SortedByScore(a) && SortedByScore(b) && multiset(a) == multiset(b)
    ensures a == b
    decreases |a|
  {
    if a != [] {
      SortedHeadsAgree(a, b);
      assert a == [a[0]] + a[1..] && b == [b[0]] + b[1..];
      assert multiset(a) == multiset{a[0]} + multiset(a[1..]);
      assert multiset(b) == multiset{b[0]} + multiset(b[1..]);
      assert multiset(a[1..]) == multiset(a) - multiset{a[0]};
      assert multiset(b[1..]) == multiset(b) - multiset{b[0]};
      SortedTail(a);
      SortedTail(b);
      SortedUnique(a[1..], b[1..]);
    } else {
      assert |b| == |multiset(b)| == 0;
    }
  }

  /** Any sorted rearrangement of the candidates is the ranking. */
  lemma SortMatchesUnique(s: seq<MatchRecord>, r: seq<MatchRecord>)
    requires SortedByScore(r) && multiset(r) == multiset(s)
    ensures r == SortMatches(s)
  {
    SortedUnique(r, SortMatches(s));
  }
}
