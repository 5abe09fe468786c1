# fuzzycomt in Dafny

A Dafny model of `autoload/fuzzycomt.c`, the C extension that ranks file
paths against an abbreviation typed by the user in a fuzzy file finder. The
model covers four parts of it:

- **The candidate normaliser** (module `Normalizer`, `normalizer.dfy`).
  - `findmatch` copies each candidate and rewrites every backslash to `/`.
  - In `filename-only` mode, `slashsplit` reduces the candidate to its last
    `/`-separated segment, found with a `strtok` loop.
- **The scorer** (module `Scorer`, `scorer.dfy`).
  - `recursive_match` is modelled as an imperative recursive method with its
    two loops.
  - It is proved against `MatchScore`, a recursive specification of the
    same search.
  - `MatchScore` is in turn related to an independent definition: an
    *alignment*, a strictly increasing sequence of text positions that match
    the query's characters one by one under smart case.
  - The score is proved to be at least the score of every alignment and to
    be attained by one. It is positive exactly when an alignment exists, and
    lies in [0, 1].
  - The zero-length-query branch of `findmatch` is modelled as well.
- **The ranker** (module `Ranker`, `ranker.dfy`).
  - `comp_alpha` is proved equal to a lexicographic order on lines.
  - `comp_score` is proved to be a strict total order on records: higher
    score first, ties broken alphabetically.
  - Sorting with `qsort` is modelled by its only possible result: the unique
    sequence that is sorted and a permutation of the input.
- **The batch matcher** (module `Matcher`, `matcher.dfy`).
  - It models `getLineMatches` over an array of records, the limit rule, and
    the two entry points `fuzzycomt_match` and `fuzzycomt_sorted_match_list`.
  - It proves what they return: the first `limit` ranked records, and the
    positive-scoring prefix of those lines.

The scoring arithmetic is done on exact reals. Per matched character the
score is `max_score_per_char`, that is `(1/|text| + 1/|query|) / 2`,
multiplied by a factor when the match is not adjacent to the previous one:

- 0.9 after `/`;
- 0.8 after `-`, `_`, a space or a digit, or at a lower-to-upper case
  boundary;
- 0.7 after `.`;
- otherwise `0.75 / distance`.

The search starts with `last_idx = 0`, so a first match at position 0 or 1
counts as adjacent. The model keeps this.

For the zero-length query a text scores 0 when a `.` stands at its start or
right after any `/`, not only the last one, and 1 otherwise
(`autoload/fuzzycomt.c`, line 359).

## Model

| member | source | states |
|---|---|---|
| `Normalizer.ModeOf` | autoload/fuzzycomt.c:337-345 | filename-only mode is chosen exactly when the mode string is "filename-only" |
| `Normalizer.NormalizeSeparators` | autoload/fuzzycomt.c:327-334 | the buffer after the loop has the candidate's length and no backslash; every backslash became '/' and every other character is unchanged |
| `Normalizer.LastSegmentIsLastRun` | autoload/fuzzycomt.c:46-65 | the last segment is the last maximal run of non-'/' characters: non-empty, preceded by '/' or the start, followed only by '/' |
| `Normalizer.LastRunUnique` | autoload/fuzzycomt.c:46-65 | a string has only one last run, so the segment `slashsplit` keeps is determined |
| `Normalizer.LastSegmentShape` | autoload/fuzzycomt.c:46-65 | the kept segment is non-empty, holds no '/', and is the suffix of the line (trailing slashes removed) that follows its last '/' |
| `Normalizer.LastSegmentNoSlash` | autoload/fuzzycomt.c:46-65 | a line without '/' is kept whole |
| `Normalizer.Strtok` | autoload/fuzzycomt.c:52-57 | one `strtok(_, "/")` call: no token iff only delimiters remain; otherwise the token is a maximal non-empty run of non-delimiters after skipped delimiters, and one delimiter after it is consumed |
| `Normalizer.SlashSplit` | autoload/fuzzycomt.c:46-65 | the `strtok` loop ends holding the last segment of the line |
| `Normalizer.SlashedShape` | autoload/fuzzycomt.c:329-334 | the rewrite keeps the length and leaves no backslash |
| `Normalizer.Prepare` | autoload/fuzzycomt.c:336-345 | the text handed to the scorer (the rewritten line, or its last segment in filename-only mode) holds no backslash; in full-path mode it has the candidate's length; in filename-only mode it is non-empty with no '/' |
| `Scorer.Matches` | autoload/fuzzycomt.c:138-140 | an upper-case query character matches only itself; a lower-case one matches itself or its upper-case form; any other character matches only itself |
| `Scorer.FirstMatch` | autoload/fuzzycomt.c:126-142 | a found position is at or after the start and matches the query character |
| `Scorer.FirstMatchIsFirst` | autoload/fuzzycomt.c:126-142 | the scan finds a match whenever one exists, and no later than any matching position |
| `Scorer.ScanFor` | autoload/fuzzycomt.c:126-142 | the inner loop stops at the first matching text position at or after `str_idx`, or reports that there is none |
| `Scorer.MaxScorePerChar` | autoload/fuzzycomt.c:348 | for a non-empty text and query the per-character maximum lies in (0, 1] |
| `Scorer.GapOf` | autoload/fuzzycomt.c:147-148 | a match is adjacent exactly when it is at most one past the last matched index; otherwise the distance is at least 2 |
| `Scorer.GapFactor` | autoload/fuzzycomt.c:148-168 | every factor lies in (0, 1] and is 1 exactly for an adjacent match |
| `Scorer.ScaledIsProduct` | autoload/fuzzycomt.c:146-169 | the character score is `max_score_per_char` times the factor, within (0, m] |
| `Scorer.CharScore` | autoload/fuzzycomt.c:146-170 | a matched character scores more than 0 and at most `max_score_per_char` |
| `Scorer.CharScoreFull` | autoload/fuzzycomt.c:146-170 | a matched character scores the full maximum exactly when it is adjacent to the last match |
| `Scorer.ScoreForChar` | autoload/fuzzycomt.c:146-170 | the factor chain computes the character's score, which is positive |
| `Scorer.MatchScore` | autoload/fuzzycomt.c:110-190 | the search's result is never negative for a non-negative start score |
| `Scorer.NotCompletableZero` | autoload/fuzzycomt.c:186-187 | when the remaining query cannot be matched in the remaining text, the search returns 0 |
| `Scorer.CompletablePositive` | autoload/fuzzycomt.c:172-189 | when the remaining query can be matched, the search returns a positive score |
| `Scorer.CompletableAntitone` | autoload/fuzzycomt.c:126 | a query that can be matched from some position can be matched from any earlier one |
| `Scorer.CompletableLength` | autoload/fuzzycomt.c:120-143 | a matchable query is no longer than the remaining text |
| `Scorer.AlignmentShape` | autoload/fuzzycomt.c:120-143 | an alignment matches every query character at increasing text positions within range |
| `Scorer.AlignmentCons` | autoload/fuzzycomt.c:172-183 | matching one character and aligning the rest is an alignment whose score is that character's score plus the rest's |
| `Scorer.MatchScoreCoversAlignments` | autoload/fuzzycomt.c:172-189 | the search's result is at least the score of every alignment of the remaining query |
| `Scorer.GreedyAlignment` | autoload/fuzzycomt.c:120-143 | the leftmost matches form an alignment when the query can be matched |
| `Scorer.AlignmentCompletable` | autoload/fuzzycomt.c:120-143 | an alignment exists only when the query can be matched |
| `Scorer.NoAlignment` | autoload/fuzzycomt.c:186-187 | when the query cannot be matched, no alignment exists |
| `Scorer.MatchScoreAttained` | autoload/fuzzycomt.c:172-189 | the search's result is the score of one alignment |
| `Scorer.MatchScoreStep` | autoload/fuzzycomt.c:172-183 | at the first match the search is the better of matching there and trying one position later |
| `Scorer.MatchScoreUpper` | autoload/fuzzycomt.c:181 | the search adds at most `max_score_per_char` per remaining query character |
| `Scorer.RecursiveMatchEntry` | autoload/fuzzycomt.c:116-120 | entering the loop with no score seen yet computes the search |
| `Scorer.RecursiveMatchStep` | autoload/fuzzycomt.c:172-183 | one pass of the outer loop, with its recursive call, keeps the loop's remaining result equal to the search |
| `Scorer.RecursiveMatch` | autoload/fuzzycomt.c:110-190 | `recursive_match` returns the search's result, so it returns the best alignment score |
| `Scorer.EmptyQueryScore` | autoload/fuzzycomt.c:353-365 | the empty query scores 0 exactly for a text with a '.' at its start or right after a '/', and 1 otherwise |
| `Scorer.FullMatchAtMostOne` | autoload/fuzzycomt.c:348 | a query no longer than the text can earn at most 1 at full per-character score |
| `Scorer.SearchInUnitInterval` | autoload/fuzzycomt.c:110-190 | with per-character scores bounded so that the query's budget is at most 1, the search lies in [0, 1] |
| `Scorer.QueryBudget` | autoload/fuzzycomt.c:348 | a query no longer than the text earns at most 1 at `max_score_per_char` per character |
| `Scorer.Score` | autoload/fuzzycomt.c:346-367 | every score `findmatch` computes, by the zero-length-query loop or by `recursive_match`, lies in [0, 1] |
| `Scorer.SearchPositiveIffAligned` | autoload/fuzzycomt.c:120-189 | with positive character scores, the search is positive exactly when an alignment exists |
| `Scorer.ScorePositiveIffAligned` | autoload/fuzzycomt.c:346-367 | a non-empty query scores above 0 exactly when it aligns with the text |
| `Scorer.ScoreIsBestAlignment` | autoload/fuzzycomt.c:110-190 | the score is at least every alignment's score and equals one alignment's score |
| `Ranker.Strncmp` | autoload/fuzzycomt.c:81-92 | the comparison's sign is 0 exactly when the first n characters agree |
| `Ranker.StrncmpDecides` | autoload/fuzzycomt.c:78-93 | a difference within the compared prefix decides the lexicographic order |
| `Ranker.LexPrefix` | autoload/fuzzycomt.c:82-89 | a proper prefix sorts before the longer string |
| `Ranker.LexAntisymmetric` | autoload/fuzzycomt.c:68-94 | swapping the strings negates the order |
| `Ranker.LexZero` | autoload/fuzzycomt.c:68-94 | two lines compare equal exactly when they are equal |
| `Ranker.LexTransitive` | autoload/fuzzycomt.c:68-94 | the order is transitive |
| `Ranker.CompAlpha` | autoload/fuzzycomt.c:68-94 | `comp_alpha`'s length split around `strncmp` computes the lexicographic order on lines, the shorter string winning on a common prefix |
| `Ranker.CompScore` | autoload/fuzzycomt.c:96-108 | a record comes first exactly when it scores higher, or scores the same and its line sorts first; the result is 0 only for equal records |
| `Ranker.CompScoreAntisymmetric` | autoload/fuzzycomt.c:96-108 | swapping the records negates the order |
| `Ranker.CompScoreTransitive` | autoload/fuzzycomt.c:96-108 | the order is transitive, so `qsort` is given a consistent comparator |
| `Ranker.SortedScoresDescending` | autoload/fuzzycomt.c:234 | a sorted array has scores that never increase |
| `Ranker.SortedSplit` | autoload/fuzzycomt.c:234 | in a sorted array every record before a cut ranks before, and scores at least as much as, every record after it |
| `Ranker.Insert` | autoload/fuzzycomt.c:234 | inserting into a sorted sequence keeps it sorted and adds exactly the new record |
| `Ranker.SortMatches` | autoload/fuzzycomt.c:234 | the sorted records are in `comp_score` order and are a permutation of the input |
| `Ranker.SortedUnique` | autoload/fuzzycomt.c:234 | two sorted permutations of the same records are equal, so `qsort`'s result does not depend on how it sorts |
| `Ranker.SortMatchesUnique` | autoload/fuzzycomt.c:298 | any sorted permutation of the records is the one the model computes |
| `Matcher.CandidateScoreMeaning` | autoload/fuzzycomt.c:318-381 | a candidate's score lies in [0, 1] and, for a non-empty query, is positive exactly when the prepared candidate aligns the query |
| `Matcher.FindMatch` | autoload/fuzzycomt.c:318-381 | `findmatch` returns the candidate itself with the score of its prepared text |
| `Matcher.LineMatchesShape` | autoload/fuzzycomt.c:27-37 | the records carry the candidates in input order, each with a score in [0, 1] |
| `Matcher.GetLineMatches` | autoload/fuzzycomt.c:27-37 | `getLineMatches` fills the array with one `findmatch` record per candidate, by index |
| `Matcher.SortByScore` | autoload/fuzzycomt.c:234 | after the sort the array holds the sorted permutation of its old contents |
| `Matcher.NormalizeLimit` | autoload/fuzzycomt.c:216-218 | the limit never exceeds the number of candidates; 0 or a larger limit means all of them; any other limit is kept |
| `Matcher.Match` | autoload/fuzzycomt.c:192-254 | `fuzzycomt_match` returns the first `limit` candidates for an empty query, and otherwise the first `limit` ranked records |
| `Matcher.SortedMatchList` | autoload/fuzzycomt.c:256-315 | `fuzzycomt_sorted_match_list` returns the first `limit` candidates for an empty query, and otherwise the lines of the positive records among the first `limit` ranked ones |
| `Matcher.LineMatchesMembers` | autoload/fuzzycomt.c:27-37 | every record is a candidate with its score, in [0, 1], positive exactly when the candidate aligns a non-empty query |
| `Matcher.RankedShape` | autoload/fuzzycomt.c:231-234 | the ranking has one record per candidate, sorted, with scores that never increase, and is a permutation of the records |
| `Matcher.MatchEmptyQuery` | autoload/fuzzycomt.c:220-227 | for the empty query the result is the first `limit` candidates |
| `Matcher.MatchRecordsShape` | autoload/fuzzycomt.c:229-251 | for a non-empty query exactly `limit` records come back, sorted, each a candidate with its score |
| `Matcher.RankedMembers` | autoload/fuzzycomt.c:231-234 | every ranked record is a candidate with the score `findmatch` gives it |
| `Matcher.MatchKeepsBest` | autoload/fuzzycomt.c:234-251 | the records kept and those dropped together make up all records, and every kept record ranks before and scores at least every dropped one |
| `Matcher.PositiveLinesMembers` | autoload/fuzzycomt.c:302-312 | a line is kept exactly when some record with a positive score carries it |
| `Matcher.PositiveLinesPrefix` | autoload/fuzzycomt.c:302-312 | in descending non-negative scores the positive records form a prefix, and the kept lines are that prefix's lines |
| `Matcher.KeptPositiveLines` | autoload/fuzzycomt.c:302-312 | within the first `limit` records of a ranking with non-increasing, non-negative scores, the kept lines are those of a prefix, which holds exactly the positive records |
| `Matcher.RankedNonNegative` | autoload/fuzzycomt.c:231-234 | no ranked record has a negative score |
| `Matcher.SortedMatchListShape` | autoload/fuzzycomt.c:298-312 | `fuzzycomt_sorted_match_list` returns the lines of the prefix of `fuzzycomt_match`'s records that have a positive score |

## Left out

- The Python C-API layer is not modelled: argument parsing, the list and string type checks with their `TypeError` returns, and building the result lists and `{'line', 'value'}` dictionaries. The entry points take and return Dafny sequences and records.
- Memory management is not modelled: `strduplicate`, `malloc`, `free`, and the `returnlist` that leaks on the empty-query path.
- Scores are exact reals, not IEEE doubles. Rounding, and ties or orderings that rounding could change, are not captured.
- Strings are sequences of characters. NUL bytes, the difference between `strlen` and `PyString_Size`, encodings and the unsigned-byte reading of `strncmp` are not modelled.
- Ranker.Strncmp: returns only the sign of the first difference, not the byte difference. `comp_alpha` and `comp_score` use only the sign.
- Matcher.SortByScore: the steps of `qsort` are not modelled. The method assigns the unique sorted permutation, and `Ranker.SortedUnique` shows that `qsort` can produce no other result, because `comp_score` is a strict total order.
- Normalizer.SlashSplit: requires a line with at least one character other than '/'. On a line made only of slashes (an empty line, or "/"), `slashsplit` copies an uninitialised pointer. `Matcher.FindMatch`, `Matcher.Match` and `Matcher.SortedMatchList` inherit this precondition in filename-only mode.
- Matcher: `limit` is a natural number, so a negative `limit` is not modelled. On the empty-query path `PyList_GetSlice` would clamp it and return an empty list. In the copy loops it would never equal the index, so every record would be kept.
- Matcher.FindMatch: a non-empty query against an empty text scores 0 without computing `max_score_per_char`. In C that value is infinite, but it is never used, because `recursive_match` finds no match and returns 0.
- The `dot_file`, `dot_search` and `dot_file_match` flags of `recursive_match` and `matchinfo_t` are not modelled. `dot_search` is read only to set `dot_file_match`, and none of the three reaches the returned score.
- Scorer.RecursiveMatch: takes the per-character score as a ghost weight function beside `max_score_per_char`. The factor chain itself runs in `Scorer.ScoreForChar`, and the scan in `Scorer.ScanFor`. `recursive_match` does both inline.
- The module table and `initfuzzycomt` are not modelled: they are registration only.
