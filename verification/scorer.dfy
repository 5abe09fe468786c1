/**
 * Scorer of fuzzycomt.c: `recursive_match`, the per-character gap factor,
 * and the zero-length-query branch of `findmatch`. Scores are exact reals.
 */
module Scorer {
  import opened Wrappers

  // ---------------------------------------------------------------------
  // Characters and smart case

  predicate IsUpper(c: char) { 'A' <= c <= 'Z' }
  predicate IsLower(c: char) { 'a' <= c <= 'z' }
  predicate IsDigit(c: char) { '0' <= c <= '9' }

  function Downcase(d: char): char {
    if IsUpper(d) then (d as int + 32) as char else d
  }

  /**
   * Query character `c` accepts text character `d`: the text character is
   * downcased unless the query character is upper case. So an upper-case
   * query character accepts only itself and a lower-case one either case.
   */
  function Matches(c: char, d: char): (r: bool)
    ensures IsUpper(c) ==> (r <==> d == c)
    ensures IsLower(c) ==> (r <==> d == c || d as int == c as int - 32)
    ensures !IsUpper(c) && !IsLower(c) ==> (r <==> d == c)
  {
    c == if IsUpper(d) && !IsUpper(c) then Downcase(d) else d
  }

  /** The first position at or after `s` whose character the query character accepts. */
  function FirstMatch(t: string, c: char, s: nat): (r: Option<nat>)
    ensures r.Some? ==> s <= r.value < |t| && Matches(c, t[r.value])
    decreases |t| - s
  {
    if s >= |t| then None
    else if Matches(c, t[s]) then Some(s)
    else FirstMatch(t, c, s + 1)
  }

  /** No acceptable position lies between `s` and the one `FirstMatch` finds. */
  lemma {:induction false} FirstMatchIsFirst(t: string, c: char, s: nat, k: nat)
    requires s <= k < |t| && Matches(c, t[k])
    ensures FirstMatch(t, c, s).Some? && FirstMatch(t, c, s).value <= k
    decreases k - s
  {
    if !Matches(c, t[s]) {
      FirstMatchIsFirst(t, c, s + 1, k);
    }
  }

  // ---------------------------------------------------------------------
  // Per-character score

  /** `max_score_per_char`: the mean of the reciprocals of the two lengths. */
  function MaxScorePerChar(t: string, q: string): (r: real)
    requires |t| > 0 && |q| > 0
    ensures 0.0 < r <= 1.0
  {
    (1.0 / |t| as real + 1.0 / |q| as real) / 2.0
  }

  /** Where a match sits relative to the previous one, which decides its gap factor. */
  datatype Gap =
    | Adjacent            // no gap: the match follows the previous one
    | AfterSlash          // preceded by '/'
    | AfterSeparator      // preceded by '-', '_', ' ' or a digit
    | CamelCase           // a lower-case letter before an upper-case match
    | AfterDot            // preceded by '.'
    | Plain(distance: nat) // anything else, `distance` away from the previous match

  /**
   * Classifies a match at `j` when the previous match was at `last`, testing
   * the preceding character in the source's priority order.
   */
  function GapOf(t: string, j: nat, last: nat): (g: Gap)
    requires j < |t|
    ensures g.Adjacent? <==> j <= last + 1
    ensures g.Plain? ==> g.distance == j - last >= 2
  {
    var distance := j - last;
    if distance <= 1 then Adjacent
    else
      var prev, curr := t[j - 1], t[j];
      if prev == '/' then AfterSlash
      else if prev == '-' || prev == '_' || prev == ' ' || IsDigit(prev) then AfterSeparator
      else if IsLower(prev) && IsUpper(curr) then CamelCase
      else if prev == '.' then AfterDot
      else Plain(distance)
  }

  /** The factor each kind of gap applies to `max_score_per_char`. */
  function GapFactor(g: Gap): (r: real)
    requires g.Plain? ==> g.distance >= 2
    ensures 0.0 < r <= 1.0
    ensures r == 1.0 <==> g.Adjacent?
  {
    match g
    case Adjacent => 1.0
    case AfterSlash => 0.9
    case AfterSeparator => 0.8
    case CamelCase => 0.8
    case AfterDot => 0.7
    case Plain(distance) => (1.0 / distance as real) * 0.75
  }

  /** `max_score_per_char` scaled by a gap factor, written per case so that it stays linear in `m`. */
  function Scaled(m: real, g: Gap): real
    requires g.Plain? ==> g.distance >= 2
  {
    match g
    case Adjacent => m
    case AfterSlash => 0.9 * m
    case AfterSeparator => 0.8 * m
    case CamelCase => 0.8 * m
    case AfterDot => 0.7 * m
    case Plain(distance) => m * 0.75 / distance as real
  }

  /** `Scaled` is the product of the two factors, and lies in (0, m] for positive `m`. */
  lemma ScaledIsProduct(m: real, g: Gap)
    requires g.Plain? ==> g.distance >= 2
    ensures Scaled(m, g) == m * GapFactor(g)
    ensures m > 0.0 ==> 0.0 < Scaled(m, g) <= m
  {
    if g.Plain? {
      var d := g.distance as real;
      assert m * 0.75 / d == m * ((1.0 / d) * 0.75);
      if m > 0.0 {
        assert m * 0.75 / d <= m * 0.75 / 2.0;
      }
    }
  }

  /** What one matched character at `j` adds to the score: `m`, the `max_score_per_char`, times its gap factor. */
  function CharScore(t: string, m: real, j: nat, last: nat): (r: real)
    requires j < |t|
    ensures m > 0.0 ==> 0.0 < r <= m
  {
    ScaledIsProduct(m, GapOf(t, j, last));
    Scaled(m, GapOf(t, j, last))
  }

  /** A match scores the full `max_score_per_char` exactly when it is adjacent to the previous one. */
  lemma CharScoreFull(t: string, m: real, j: nat, last: nat)
    requires j < |t| && m > 0.0
    ensures CharScore(t, m, j, last) == m <==> j <= last + 1
  {
    ScaledIsProduct(m, GapOf(t, j, last));
  }

  /** The weight of a match at a text position, given the position of the previous match. */
  type Weight = (nat, nat) -> real

  /** The source's weight for text `t` with `max_score_per_char` `m`: `CharScore` at every position of the text. */
  function CharWeight(t: string, m: real): Weight {
    (j: nat, last: nat) => if j < |t| then CharScore(t, m, j, last) else 0.0
  }

  /** Every match inside the text weighs more than 0 and at most `m`. */
  ghost predicate WeightWithin(t: string, w: Weight, m: real) {
    forall j: nat, last: nat :: j < |t| ==> 0.0 < w(j, last) <= m
  }

  /** No match inside the text weighs less than 0. */
  ghost predicate NonNegative(t: string, w: Weight) {
    forall j: nat, last: nat :: j < |t| ==> 0.0 <= w(j, last)
  }

  /** No match inside the text weighs 0 or less. */
  ghost predicate Positive(t: string, w: Weight) {
    forall j: nat, last: nat :: j < |t| ==> 0.0 < w(j, last)
  }

  /**
   * `w` gives every match inside the text the score `CharScore` gives it
   * with `max_score_per_char` `m`.
   */
  ghost predicate ScoresChars(t: string, m: real, w: Weight) {
    forall j: nat, last: nat {:trigger CharScore(t, m, j, last)} :: j < |t| ==> w(j, last) == CharScore(t, m, j, last)
  }

  /** The source's weight scores every character with `CharScore`. */
  lemma CharWeightScoresChars(t: string, m: real)
    ensures ScoresChars(t, m, CharWeight(t, m))
  {
    forall j: nat, last: nat | j < |t|
      ensures CharWeight(t, m)(j, last) == CharScore(t, m, j, last)
    {
    }
  }

  /** With a positive `max_score_per_char` every match inside the text weighs more than 0. */
  lemma ScoresCharsPositive(t: string, m: real, w: Weight)
    requires m > 0.0 && ScoresChars(t, m, w)
    ensures NonNegative(t, w) && Positive(t, w)
  {
    forall j: nat, last: nat | j < |t|
      ensures 0.0 < w(j, last)
    {
      assert w(j, last) == CharScore(t, m, j, last);
    }
  }

  /** With a positive `max_score_per_char` every match inside the text weighs at most that much. */
  lemma ScoresCharsWithin(t: string, m: real, w: Weight)
    requires m > 0.0 && ScoresChars(t, m, w)
    ensures WeightWithin(t, w, m)
  {
    forall j: nat, last: nat | j < |t|
      ensures 0.0 < w(j, last) <= m
    {
      assert w(j, last) == CharScore(t, m, j, last);
    }
  }

  function Max(a: real, b: real): real {
    if a >= b then a else b
  }

  // ---------------------------------------------------------------------
  // The search, as a function

  /**
   * Best total reachable from text position `s` and query position `i`,
   * with the previous match at `last` and `acc` scored so far: take the
   * first acceptable position `j`, or defer the match to `j + 1`; 0 when
   * the query cannot be completed.
   */
  function MatchScore(t: string, q: string, w: Weight, s: nat, i: nat, last: nat, acc: real): (r: real)
    requires s <= |t| && i <= |q|
    ensures acc >= 0.0 && NonNegative(t, w) ==> r >= 0.0
    decreases |t| - s
  {
    if i == |q| then acc
    else match FirstMatch(t, q[i], s)
      case None => 0.0
      case Some(j) =>
        var taken := MatchScore(t, q, w, j + 1, i + 1, j, acc + w(j, last));
        var deferred := MatchScore(t, q, w, j + 1, i, last, acc);
        Max(taken, deferred)
  }

  /** The greedy first-occurrence path from `(s, i)` reaches the end of the query. */
  predicate Completable(t: string, q: string, s: nat, i: nat)
    requires s <= |t| && i <= |q|
    decreases |t| - s
  {
    i == |q| ||
    match FirstMatch(t, q[i], s)
    case None => false
    case Some(j) => Completable(t, q, j + 1, i + 1)
  }

  /** Starting the greedy path later never helps it complete. */
  lemma {:induction false} CompletableAntitone(t: string, q: string, s: nat, s2: nat, i: nat)
    requires s <= s2 <= |t| && i <= |q|
    requires Completable(t, q, s2, i)
    ensures Completable(t, q, s, i)
    decreases |t| - s
  {
    if i < |q| {
      var j2 := FirstMatch(t, q[i], s2).value;
      FirstMatchIsFirst(t, q[i], s, j2);
      var j := FirstMatch(t, q[i], s).value;
      CompletableAntitone(t, q, j + 1, j2 + 1, i + 1);
    }
  }

  /**
   * When the greedy path fails, every deferred path fails too, so the
   * search scores 0: this is why the early `return 0.0` of the source agrees
   * with the maximum over all alignments.
   */
  lemma {:induction false} NotCompletableZero(t: string, q: string, w: Weight, s: nat, i: nat, last: nat, acc: real)
    requires s <= |t| && i <= |q|
    requires !Completable(t, q, s, i)
    ensures MatchScore(t, q, w, s, i, last, acc) == 0.0
    decreases |t| - s
  {
    match FirstMatch(t, q[i], s)
    case None =>
    case Some(j) =>
      NotCompletableZero(t, q, w, j + 1, i + 1, j, acc + w(j, last));
      if Completable(t, q, j + 1, i) {
        var j2 := FirstMatch(t, q[i], j + 1).value;
        CompletableAntitone(t, q, j + 1, j2 + 1, i + 1);
        assert false;
      }
      NotCompletableZero(t, q, w, j + 1, i, last, acc);
  }

  /** A completable search with something left to match scores strictly more than 0. */
  lemma {:induction false} CompletablePositive(t: string, q: string, w: Weight, s: nat, i: nat, last: nat, acc: real)
    requires s <= |t| && i < |q| && acc >= 0.0 && Positive(t, w)
    requires Completable(t, q, s, i)
    ensures MatchScore(t, q, w, s, i, last, acc) > 0.0
    decreases |t| - s
  {
    var j := FirstMatch(t, q[i], s).value;
    var acc' := acc + w(j, last);
    if i + 1 < |q| {
      CompletablePositive(t, q, w, j + 1, i + 1, j, acc');
    }
  }

  // ---------------------------------------------------------------------
  // Alignments: the reference definition the search is measured against

  /**
   * `P` places the query characters `q[i..]` one by one in the text: the
   * first at a position at or after `s` that accepts it, the rest, in
   * order, after that position.
   */
  ghost predicate IsAlignment(t: string, q: string, s: nat, i: nat, P: seq<nat>)
    requires i <= |q|
    decreases |P|
  {
    && |P| == |q| - i
    && (|P| > 0 ==>
          && s <= P[0] < |t|
          && Matches(q[i], t[P[0]])
          && IsAlignment(t, q, P[0] + 1, i + 1, P[1..]))
  }

  /** An alignment places every query character at an accepting text position, at strictly increasing positions. */
  lemma {:induction false} AlignmentShape(t: string, q: string, s: nat, i: nat, P: seq<nat>)
    requires i <= |q| && IsAlignment(t, q, s, i, P)
    ensures forall k :: 0 <= k < |P| ==> s <= P[k] < |t| && Matches(q[i + k], t[P[k]])
    ensures forall a, b :: 0 <= a < b < |P| ==> P[a] < P[b]
    decreases |P|
  {
    if |P| > 0 {
      var rest := P[1..];
      AlignmentShape(t, q, P[0] + 1, i + 1, rest);
      assert forall k :: 0 < k < |P| ==> P[k] == rest[k - 1];
    }
  }

  /** The sum of the weights along an alignment. */
  function AlignmentScore(w: Weight, last: nat, P: seq<nat>): real
    decreases |P|
  {
    if P == [] then 0.0
    else w(P[0], last) + AlignmentScore(w, P[0], P[1..])
  }

  /** Placing query character `i` at `j` in front of an alignment of the rest gives an alignment. */
  lemma AlignmentCons(t: string, q: string, w: Weight, s: nat, i: nat, last: nat, j: nat, rest: seq<nat>)
    requires i < |q| && s <= j < |t| && Matches(q[i], t[j])
    requires IsAlignment(t, q, j + 1, i + 1, rest)
    ensures IsAlignment(t, q, s, i, [j] + rest)
    ensures AlignmentScore(w, last, [j] + rest) == w(j, last) + AlignmentScore(w, j, rest)
  {
    assert ([j] + rest)[1..] == rest;
  }

  /** The search scores at least as much as every alignment. */
  lemma {:induction false} MatchScoreCoversAlignments(t: string, q: string, w: Weight, s: nat, i: nat, last: nat, acc: real, P: seq<nat>)
    requires s <= |t| && i <= |q|
    requires IsAlignment(t, q, s, i, P)
    ensures MatchScore(t, q, w, s, i, last, acc) >= acc + AlignmentScore(w, last, P)
    decreases |t| - s
  {
    if i < |q| {
      FirstMatchIsFirst(t, q[i], s, P[0]);
      var j := FirstMatch(t, q[i], s).value;
      MatchScoreStep(t, q, w, s, i, last, acc, j);
      var taken := MatchScore(t, q, w, j + 1, i + 1, j, acc + w(j, last));
      var deferred := MatchScore(t, q, w, j + 1, i, last, acc);
      if P[0] == j {
        MatchScoreCoversAlignments(t, q, w, j + 1, i + 1, j, acc + w(j, last), P[1..]);
        assert taken >= acc + AlignmentScore(w, last, P);
      } else {
        MatchScoreCoversAlignments(t, q, w, j + 1, i, last, acc, P);
        assert deferred >= acc + AlignmentScore(w, last, P);
      }
    }
  }

  /** The greedy path, when it completes, is an alignment. */
  lemma {:induction false} GreedyAlignment(t: string, q: string, s: nat, i: nat) returns (P: seq<nat>)
    requires s <= |t| && i <= |q|
    requires Completable(t, q, s, i)
    ensures IsAlignment(t, q, s, i, P)
    decreases |t| - s
  {
    if i == |q| {
      P := [];
    } else {
      var j := FirstMatch(t, q[i], s).value;
      var rest := GreedyAlignment(t, q, j + 1, i + 1);
      P := [j] + rest;
      assert P[1..] == rest;
    }
  }

  /** Any alignment makes the greedy path complete. */
  lemma {:induction false} AlignmentCompletable(t: string, q: string, s: nat, i: nat, P: seq<nat>)
    requires s <= |t| && i <= |q|
    requires IsAlignment(t, q, s, i, P)
    ensures Completable(t, q, s, i)
    decreases |t| - s
  {
    if i < |q| {
      FirstMatchIsFirst(t, q[i], s, P[0]);
      var j := FirstMatch(t, q[i], s).value;
      AlignmentCompletable(t, q, P[0] + 1, i + 1, P[1..]);
      CompletableAntitone(t, q, j + 1, P[0] + 1, i + 1);
    }
  }

  /** When the greedy path fails there is no alignment at all. */
  lemma NoAlignment(t: string, q: string, s: nat, i: nat)
    requires s <= |t| && i <= |q| && !Completable(t, q, s, i)
    ensures forall P :: !IsAlignment(t, q, s, i, P)
  {
    forall P | IsAlignment(t, q, s, i, P) ensures false {
      AlignmentCompletable(t, q, s, i, P);
    }
  }

  /** A completable search scores exactly as much as some alignment. */
  lemma {:induction false} MatchScoreAttained(t: string, q: string, w: Weight, s: nat, i: nat, last: nat, acc: real) returns (P: seq<nat>)
    requires s <= |t| && i <= |q| && acc >= 0.0 && NonNegative(t, w)
    requires Completable(t, q, s, i)
    ensures IsAlignment(t, q, s, i, P)
    ensures MatchScore(t, q, w, s, i, last, acc) == acc + AlignmentScore(w, last, P)
    decreases |t| - s
  {
    if i == |q| {
      P := [];
    } else {
      var j := FirstMatch(t, q[i], s).value;
      MatchScoreStep(t, q, w, s, i, last, acc, j);
      var acc' := acc + w(j, last);
      var taken := MatchScore(t, q, w, j + 1, i + 1, j, acc');
      var deferred := MatchScore(t, q, w, j + 1, i, last, acc);
      if taken >= deferred {
        var rest := MatchScoreAttained(t, q, w, j + 1, i + 1, j, acc');
        AlignmentCons(t, q, w, s, i, last, j, rest);
        P := [j] + rest;
        assert MatchScore(t, q, w, s, i, last, acc) == taken == acc' + AlignmentScore(w, j, rest);
      } else {
        if !Completable(t, q, j + 1, i) {
          NotCompletableZero(t, q, w, j + 1, i, last, acc);
        }
        P := MatchScoreAttained(t, q, w, j + 1, i, last, acc);
        assert MatchScore(t, q, w, s, i, last, acc) == deferred == acc + AlignmentScore(w, last, P);
      }
    }
  }

  // ---------------------------------------------------------------------
  // Bounds

  /** One step of the search at the first acceptable position `j`. */
  lemma MatchScoreStep(t: string, q: string, w: Weight, s: nat, i: nat, last: nat, acc: real, j: nat)
    requires s <= |t| && i < |q| && FirstMatch(t, q[i], s) == Some(j)
    ensures Completable(t, q, s, i) == Completable(t, q, j + 1, i + 1)
    ensures MatchScore(t, q, w, s, i, last, acc) ==
      Max(MatchScore(t, q, w, j + 1, i + 1, j, acc + w(j, last)), MatchScore(t, q, w, j + 1, i, last, acc))
    ensures j + 1 == |t| ==> MatchScore(t, q, w, j + 1, i, last, acc) == 0.0
  {
  }

  /** Completing the query needs at least as many text positions as query characters remain. */
  lemma {:induction false} CompletableLength(t: string, q: string, s: nat, i: nat)
    requires s <= |t| && i <= |q|
    requires Completable(t, q, s, i)
    ensures |q| - i <= |t| - s
    decreases |t| - s
  {
    if i < |q| {
      var j := FirstMatch(t, q[i], s).value;
      CompletableLength(t, q, j + 1, i + 1);
    }
  }

  /** `n` times `m`, as repeated addition. */
  function Budget(n: nat, m: real): (r: real)
    ensures m >= 0.0 ==> r >= 0.0
  {
    if n == 0 then 0.0 else m + Budget(n - 1, m)
  }

  lemma {:induction false} BudgetIsProduct(n: nat, m: real)
    ensures Budget(n, m) == n as real * m
  {
    if n > 0 {
      BudgetIsProduct(n - 1, m);
    }
  }

  /** Each query character still to match adds at most `m`. */
  lemma {:induction false} MatchScoreUpper(t: string, q: string, w: Weight, m: real, s: nat, i: nat, last: nat, acc: real)
    requires s <= |t| && i <= |q| && acc >= 0.0 && m >= 0.0 && WeightWithin(t, w, m)
    ensures MatchScore(t, q, w, s, i, last, acc) <= acc + Budget(|q| - i, m)
    decreases |t| - s
  {
    if i < |q| {
      match FirstMatch(t, q[i], s)
      case None =>
      case Some(j) =>
        var acc' := acc + w(j, last);
        assert 0.0 < w(j, last) <= m;
        MatchScoreUpper(t, q, w, m, j + 1, i + 1, j, acc');
        MatchScoreUpper(t, q, w, m, j + 1, i, last, acc);
        MatchScoreStep(t, q, w, s, i, last, acc, j);
        assert Budget(|q| - i, m) == m + Budget(|q| - (i + 1), m);
    }
  }

  // ---------------------------------------------------------------------
  // The source's loops, proved against the function

  /**
   * On entry to `recursive_match` nothing has been seen yet: the search
   * equals the loop relation with a seen score of 0.
   */
  lemma RecursiveMatchEntry(t: string, q: string, m: real, w: Weight, s: nat, i: nat, last: nat, acc: real)
    requires m > 0.0 && ScoresChars(t, m, w) && s <= |t| && i <= |q| && acc >= 0.0
    ensures MatchScore(t, q, w, s, i, last, acc) == LoopGoal(t, q, w, s, i, last, acc, 0.0)
  {
    ScoresCharsPositive(t, m, w);
    if !Completable(t, q, s, i) {
      NotCompletableZero(t, q, w, s, i, last, acc);
    }
  }

  /**
   * What the loop of `recursive_match` stands for at query position `i`
   * and text position `s`: the best of the seen score and the search from
   * there, or 0 once the greedy path cannot complete.
   */
  function LoopGoal(t: string, q: string, w: Weight, s: nat, i: nat, last: nat, acc: real, seen: real): real
    requires s <= |t| && i <= |q|
  {
    if Completable(t, q, s, i) then Max(seen, MatchScore(t, q, w, s, i, last, acc)) else 0.0
  }

  /**
   * One pass of the outer loop of `recursive_match` keeps its goal; `sub` is
   * what the recursive call returned, or 0 when none was made, and `seen2`
   * and `acc2` are the seen and accumulated scores after the pass.
   */
  lemma RecursiveMatchStep(t: string, q: string, w: Weight, s: nat, i: nat, last: nat, acc: real, seen: real, j: nat, sub: real, seen2: real, acc2: real)
    requires s <= |t| && i < |q| && FirstMatch(t, q[i], s) == Some(j)
    requires sub == if j + 1 < |t| then MatchScore(t, q, w, j + 1, i, last, acc) else 0.0
    requires seen2 == Max(seen, sub) && acc2 == acc + w(j, last)
    ensures LoopGoal(t, q, w, s, i, last, acc, seen) == LoopGoal(t, q, w, j + 1, i + 1, j, acc2, seen2)
  {
    MatchScoreStep(t, q, w, s, i, last, acc, j);
  }

  /**
   * The score of a match at `j` as the loop body of `recursive_match`
   * computes it: `max_score_per_char`, multiplied by a factor read off the
   * preceding character when the match is not adjacent to the previous one.
   */
  method ScoreForChar(t: string, m: real, ghost w: Weight, j: nat, last: nat) returns (r: real)
    requires j < |t| && ScoresChars(t, m, w)
    ensures r == w(j, last)
    ensures m > 0.0 ==> r > 0.0
  {
    r := m;
    var distance := j - last;
    if distance > 1 {
      var factor := 1.0;
      var prev, curr := t[j - 1], t[j];
      if prev == '/' {
        factor := 0.9;
      } else if prev == '-' || prev == '_' || prev == ' ' || IsDigit(prev) {
        factor := 0.8;
      } else if IsLower(prev) && IsUpper(curr) {
        factor := 0.8;
      } else if prev == '.' {
        factor := 0.7;
      } else {
        factor := (1.0 / distance as real) * 0.75;
      }
      assert factor == GapFactor(GapOf(t, j, last));
      r := r * factor;
    }
    ScaledIsProduct(m, GapOf(t, j, last));
    assert r == CharScore(t, m, j, last);
  }

  /**
   * The inner loop of `recursive_match`: scan the text from `s` for the
   * first character that query character `c` accepts.
   */
  method ScanFor(t: string, c: char, s: nat) returns (r: Option<nat>)
    requires s <= |t|
    ensures r == FirstMatch(t, c, s)
  {
    var j := s;
    while j < |t|
      invariant s <= j <= |t|
      invariant FirstMatch(t, c, s) == FirstMatch(t, c, j)
    {
      if Matches(c, t[j]) {
        return Some(j);
      }
      j := j + 1;
    }
    return None;
  }

  /**
   * `recursive_match` with `m` as the `max_score_per_char` of its match
   * info: for each query character scan for its first acceptable position,
   * try deferring it by one through a recursive call, add its score and
   * move on; give up with 0 as soon as one character is not found.
   */
  method RecursiveMatch(t: string, q: string, m: real, ghost w: Weight, strIdx: nat, abbrevIdx: nat, lastIdx: nat, score: real) returns (r: real)
    requires m > 0.0 && ScoresChars(t, m, w)
    requires strIdx <= |t| && abbrevIdx <= |q| && score >= 0.0
    ensures r == MatchScore(t, q, w, strIdx, abbrevIdx, lastIdx, score)
    decreases |t| - strIdx
  {
    ghost var goal := MatchScore(t, q, w, strIdx, abbrevIdx, lastIdx, score);
    RecursiveMatchEntry(t, q, m, w, strIdx, abbrevIdx, lastIdx, score);
    var seenScore: real := 0.0;
    var s: nat, last: nat, acc: real := strIdx, lastIdx, score;
    var i: nat := abbrevIdx;
    while i < |q|
      invariant abbrevIdx <= i <= |q| && strIdx <= s <= |t|
      invariant acc >= 0.0
      invariant goal == LoopGoal(t, q, w, s, i, last, acc, seenScore)
    {
      var found := ScanFor(t, q[i], s);
      if found.None? {
        return 0.0;
      }
      var j := found.value;
      var scoreForChar := ScoreForChar(t, m, w, j, last);
      ghost var sub, seenBefore := 0.0, seenScore;
      if j + 1 < |t| {
        var subScore := RecursiveMatch(t, q, m, w, j + 1, i, last, acc);
        sub := subScore;
        if subScore > seenScore {
          seenScore := subScore;
        }
      }
      assert seenScore == Max(seenBefore, sub);
      RecursiveMatchStep(t, q, w, s, i, last, acc, seenBefore, j, sub, seenScore, acc + scoreForChar);
      acc := acc + scoreForChar;
      last := j;
      s := j + 1;
      i := i + 1;
    }
    r := if acc > seenScore then acc else seenScore;
  }

  // ---------------------------------------------------------------------
  // Zero-length query

  /** A '.' at position `i` that starts the text or follows a '/'. */
  predicate DotMarkerAt(t: string, i: nat)
    requires i < |t|
  {
    t[i] == '.' && (i == 0 || t[i - 1] == '/')
  }

  /** A '.' at the start of the text or right after any '/'. */
  predicate IsDotFile(t: string) {
    exists i :: 0 <= i < |t| && DotMarkerAt(t, i)
  }

  /** The zero-length-query loop of `findmatch`: 1.0, or 0.0 at the first dot-file marker. */
  method EmptyQueryScore(t: string) returns (score: real)
    ensures score == if IsDotFile(t) then 0.0 else 1.0
  {
    score := 1.0;
    var i := 0;
    while i < |t|
      invariant 0 <= i <= |t|
      invariant forall k :: 0 <= k < i ==> !DotMarkerAt(t, k)
    {
      var c := t[i];
      if c == '.' && (i == 0 || t[i - 1] == '/') {
        assert DotMarkerAt(t, i);
        score := 0.0;
        return;
      }
      i := i + 1;
    }
  }

  // ---------------------------------------------------------------------
  // The score of one prepared candidate

  /** The weight `findmatch` sets up for a non-empty text and query. */
  function QueryWeight(t: string, q: string): Weight
    requires |t| > 0 && |q| > 0
  {
    CharWeight(t, MaxScorePerChar(t, q))
  }

  /**
   * The score `findmatch` gives text `t` for query `q`, which always lies in
   * [0, 1]. An empty text has no character to match, so a non-empty query
   * scores 0 on it.
   */
  function Score(t: string, q: string): (r: real)
    ensures 0.0 <= r <= 1.0
  {
    if |q| == 0 then (if IsDotFile(t) then 0.0 else 1.0)
    else if |t| == 0 then 0.0
    else
      var m := MaxScorePerChar(t, q);
      CharWeightScoresChars(t, m);
      ScoresCharsWithin(t, m, QueryWeight(t, q));
      QueryBudget(t, q);
      SearchInUnitInterval(t, q, QueryWeight(t, q), m);
      MatchScore(t, q, QueryWeight(t, q), 0, 0, 0, 0.0)
  }

  /** `n` query characters at `max_score_per_char` each add up to at most 1 when the text is at least as long. */
  lemma FullMatchAtMostOne(t: string, q: string)
    requires 0 < |q| <= |t|
    ensures |q| as real * MaxScorePerChar(t, q) <= 1.0
  {
    var n, m := |q| as real, |t| as real;
    assert n * MaxScorePerChar(t, q) == (n / m + 1.0) / 2.0;
    assert n / m <= 1.0;
  }

  /** A query no longer than the text cannot earn more than 1 at `max_score_per_char` per character. */
  lemma QueryBudget(t: string, q: string)
    requires |t| > 0 && |q| > 0
    ensures |q| <= |t| ==> Budget(|q|, MaxScorePerChar(t, q)) <= 1.0
  {
    if |q| <= |t| {
      FullMatchAtMostOne(t, q);
      BudgetIsProduct(|q|, MaxScorePerChar(t, q));
    }
  }

  /** A search whose weights are at most `m`, with `m` small enough for a full match, stays within [0, 1]. */
  lemma SearchInUnitInterval(t: string, q: string, w: Weight, m: real)
    requires m >= 0.0 && WeightWithin(t, w, m)
    requires |q| <= |t| ==> Budget(|q|, m) <= 1.0
    ensures 0.0 <= MatchScore(t, q, w, 0, 0, 0, 0.0) <= 1.0
  {
    assert NonNegative(t, w);
    if !Completable(t, q, 0, 0) {
      NotCompletableZero(t, q, w, 0, 0, 0, 0.0);
    } else {
      CompletableLength(t, q, 0, 0);
      MatchScoreUpper(t, q, w, m, 0, 0, 0, 0.0);
    }
  }

  /** With positive weights a search for a non-empty query is positive exactly when the query has an alignment. */
  lemma SearchPositiveIffAligned(t: string, q: string, w: Weight)
    requires |q| > 0 && Positive(t, w)
    ensures MatchScore(t, q, w, 0, 0, 0, 0.0) > 0.0 <==> exists P :: IsAlignment(t, q, 0, 0, P)
  {
    if Completable(t, q, 0, 0) {
      CompletablePositive(t, q, w, 0, 0, 0, 0.0);
      var P := GreedyAlignment(t, q, 0, 0);
      assert MatchScore(t, q, w, 0, 0, 0, 0.0) > 0.0;
      assert exists P :: IsAlignment(t, q, 0, 0, P);
    } else {
      NotCompletableZero(t, q, w, 0, 0, 0, 0.0);
      NoAlignment(t, q, 0, 0);
    }
  }

  /** For a non-empty query the score is positive exactly when some alignment of the query exists. */
  lemma ScorePositiveIffAligned(t: string, q: string)
    requires |q| > 0
    ensures Score(t, q) > 0.0 <==> exists P :: IsAlignment(t, q, 0, 0, P)
  {
    if |t| == 0 {
      NoAlignment(t, q, 0, 0);
    } else {
      var m := MaxScorePerChar(t, q);
      CharWeightScoresChars(t, m);
      ScoresCharsPositive(t, m, QueryWeight(t, q));
      SearchPositiveIffAligned(t, q, QueryWeight(t, q));
    }
  }

  /**
   * For a non-empty text and query the score is the best alignment's score:
   * no alignment scores more, and when any alignment exists one scores
   * exactly that much.
   */
  lemma ScoreIsBestAlignment(t: string, q: string)
    requires |t| > 0 && |q| > 0
    ensures forall P :: IsAlignment(t, q, 0, 0, P) ==> AlignmentScore(QueryWeight(t, q), 0, P) <= Score(t, q)
    ensures (exists P :: IsAlignment(t, q, 0, 0, P)) ==>
      exists P :: IsAlignment(t, q, 0, 0, P) && AlignmentScore(QueryWeight(t, q), 0, P) == Score(t, q)
  {
    var w := QueryWeight(t, q);
    forall P | IsAlignment(t, q, 0, 0, P) ensures AlignmentScore(w, 0, P) <= Score(t, q) {
      MatchScoreCoversAlignments(t, q, w, 0, 0, 0, 0.0, P);
    }
    if exists P :: IsAlignment(t, q, 0, 0, P) {
      var P0 :| IsAlignment(t, q, 0, 0, P0);
      AlignmentCompletable(t, q, 0, 0, P0);
      CharWeightScoresChars(t, MaxScorePerChar(t, q));
      ScoresCharsPositive(t, MaxScorePerChar(t, q), QueryWeight(t, q));
      var P := MatchScoreAttained(t, q, w, 0, 0, 0, 0.0);
      assert IsAlignment(t, q, 0, 0, P) && AlignmentScore(w, 0, P) == Score(t, q);
    }
  }
}
