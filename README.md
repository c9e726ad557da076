# Wordle solver engine, modelled and verified in Dafny

This project models the `WordleSolver` class of the Wordle benchmarking
tool in `testing/wordle_tester.py`. It covers:

- how the class prepares the dictionary;
- the two-pass green/yellow/grey feedback rule, which handles duplicate letters;
- the candidate filter;
- letter tracking;
- the expected-information score;
- the adaptive choice of guess pool: the first 1000 words, the whole dictionary, or the "distinguishing" words when two candidates remain;
- the first-maximum guess selection;
- the loop of one solving game.

Modules follow the steps of the solver:

| module | file | what it holds |
|---|---|---|
| `Words` | `words.dfy` | five-letter words, feedback patterns, guess records, letter counts, an order-preserving filter, the dictionary preparation |
| `PatternEngine` | `pattern.dfy` | the feedback rule as functions and its guarantees |
| `ConstraintFilter` | `constraint.dfy` | `is_word_compatible` as a predicate, as the source states it, including the grey rule that sets no upper bound on a letter's count, and self-consistency |
| `LetterTracker` | `tracker.dfy` | the letters one guess makes tested, known or excluded, and why that is sound |
| `Scoring` | `scoring.dfy` | grouping by pattern, the expected number of words left, the score and its bounds |
| `Selection` | `selection.dfy` | distinguishing words, the guess pool, the first-maximum scan, the chosen guess |
| `Game` | `game.dfy` | the solver's state as a value, one guess as a state step, the game loop as a recursive function, and what a game guarantees |
| `Solver` | `solver.dfy` | class `WordleSolver` with the source's fields and methods |
| `Scenario` | `scenario.dfy` | one whole game worked out: the dictionary ABCDE, ABCDF, FGHIJ with the hidden word ABCDE |

In the `Solver` class, each method that updates fields carries
`modifies this` and an `ensures` that ties the new state to the functional
model. Each method with a loop is proved against a specification function:
- `UpdateLetterTracking` against `Letters`, `KnownFrom` and `ExcludedFrom`;
- `GetResultPattern` against `ResultPattern`;
- `GroupByPattern` against `GroupKeys` and `Grouped`;
- `CalculateExpectedValue` against `Score`;
- `FindDistinguishingWords` against `DistinguishingWords`;
- `ScanPool` against `ScanBest`;
- `FindBestGuess` against `BestGuess`;
- `SolveWord` against `Play`.

The class invariant `Valid()` says the candidates and letter sets are the
ones the history determines. The constructor, `ResetGame` and `MakeGuess`
keep it. From it, `Game.SolveSpec` proves what a game returns.

Modelling choices:
- Feedback values are a datatype `Green | Yellow | Grey`.
- The grouping dictionary of `calculate_expected_value` is keyed by the pattern itself. The source uses the concatenation of the three colour words as the key. Those words are prefix-free, so the concatenation fixes the pattern.
- Scores are exact real numbers.
- `is_word_compatible` is written in the source with loops and early returns, but it only computes a value. It is therefore the predicate `Compatible`: a conjunction of the same per-position and per-count checks.

Two edge cases of the code, modelled as written:
- When two candidates remain and no dictionary word distinguishes them, `find_best_guess` returns the first candidate (`testing/wordle_tester.py:173-174`). It does not score the whole dictionary in that case.
- An empty dictionary is no error. `find_best_guess` returns `None` (`testing/wordle_tester.py:160-161`), and `solve_word` then reports a failure with `guesses == max_guesses` and no history (`testing/wordle_tester.py:213-215` and `230-235`).

## Model

| member | source | states |
|---|---|---|
| Words.Dictionary | testing/wordle_tester.py:14 | the dictionary holds exactly the length-5 entries of the word list, upper-cased: each one is present, nothing else is, there are no lower-case ASCII letters; it keeps the list's order (a subsequence of the upper-cased list) and repeats, with one entry per length-5 entry of the list |
| Words.Occurrences | testing/wordle_tester.py:71 | a letter's count in a word is at most the word's length, and positive exactly when the letter occurs |
| Words.OccurrencesCount | testing/wordle_tester.py:71 | `count` is the letter's multiplicity in the word |
| Words.Filter | testing/wordle_tester.py:193-196 | a list comprehension with a condition keeps exactly the elements satisfying it and is no longer than its input |
| Words.FilterCounts | testing/wordle_tester.py:193-196 | each element kept occurs as often as in the input, and each element dropped not at all |
| Words.FilterIsSubsequence | testing/wordle_tester.py:193-196 | the filtered list keeps the input's order (it is a subsequence) |
| Words.FilterFilter | testing/wordle_tester.py:193-196 | filtering by one condition and then another equals filtering once by both |
| PatternEngine.GreenPass | testing/wordle_tester.py:84-88 | the first pass: green where guess and answer agree, grey elsewhere; its meaning is in `ResultPatternSpec` |
| PatternEngine.YellowPass | testing/wordle_tester.py:90-99 | the second pass from position `i` on: a grey position turns yellow and consumes the first unconsumed answer index holding its letter, if there is one; its meaning is in `YellowLeftmost` and `ResultPatternSpec` |
| PatternEngine.ResultPattern | testing/wordle_tester.py:77-101 | the feedback of a guess against an answer, both passes in turn; its meaning is in `ResultPatternSpec` and `ResultPatternUnique` |
| PatternEngine.FirstUnused | testing/wordle_tester.py:94-99 | the inner scan finds the first unconsumed answer index holding the letter, or reports none, and skips only consumed or different letters |
| PatternEngine.ResultPatternSpec | testing/wordle_tester.py:77-101 | a position is green iff guess and answer agree there; yellow only for letters the answer has; a grey letter has all its answer occurrences already coloured; per letter, the coloured positions number min(count in guess, count in answer), so never more than the answer holds; a non-green position is yellow exactly when the answer has more of its letter than that letter's greens plus its non-green positions further left, so the yellows of a letter are its leftmost non-green positions |
| PatternEngine.YellowLeftmost | testing/wordle_tester.py:91-99 | the second pass colours a non-green position yellow exactly when the answer still has an occurrence of its letter not taken by that letter's greens or by its non-green positions further left |
| PatternEngine.ResultPatternUnique | testing/wordle_tester.py:77-101 | a pattern follows the green and yellow rule position by position iff it is the pattern the two passes compute, so the rule fixes the feedback |
| PatternEngine.EeabcExample | testing/wordle_tester.py:91-99 | EEABC against DDDDE gives one yellow, on the first E, and greys elsewhere |
| PatternEngine.SelfPatternAllGreen | testing/wordle_tester.py:77-101 | a word scored against itself is all green |
| PatternEngine.SpeedEraseExample | testing/wordle_tester.py:77-101 | SPEED against the hidden word ERASE gives yellow, grey, yellow, yellow, grey |
| ConstraintFilter.Compatible | testing/wordle_tester.py:41-75 | whether a word is still possible after a guess and its feedback: the green, yellow and grey checks per position and, for yellow letters, the minimum counts; its meaning is in `SelfConsistent`, `AllGreenOnlyGuess` and `FilterKeepsOtherPatterns` |
| ConstraintFilter.SelfConsistent | testing/wordle_tester.py:41-75 | every word is compatible with the feedback a guess receives against it, so the hidden word is never filtered out |
| ConstraintFilter.AllGreenOnlyGuess | testing/wordle_tester.py:47-50 | after all-green feedback, a word is compatible iff it is the guess |
| ConstraintFilter.FilterKeepsOtherPatterns | testing/wordle_tester.py:56-63 | the filter sets no upper bound on a letter's count: after AAXYZ against ABCDE, AACDE survives although its own feedback would differ |
| LetterTracker.KnownFrom | testing/wordle_tester.py:30-31 | the letters of a guess at green or yellow positions; its meaning is in `TrackingSound` and `KnownExcludedDisjoint` |
| LetterTracker.ExcludedFrom | testing/wordle_tester.py:32-39 | the letters of a guess at grey positions that are green or yellow at no other position; its meaning is in `TrackingSound` and `KnownExcludedDisjoint` |
| LetterTracker.KnownExcludedDisjoint | testing/wordle_tester.py:30-39 | one guess never makes a letter both known and excluded |
| LetterTracker.TrackingSound | testing/wordle_tester.py:25-39 | with feedback computed against the answer, known letters are in the answer and excluded letters are not |
| LetterTracker.TrackingStep | testing/wordle_tester.py:27-39 | one position of the loop adds its letter to the tested set, and to the known or the excluded set according to its colour and the rest of the feedback |
| LetterTracker.HistoryTrackingSound | testing/wordle_tester.py:25-39 | over a whole history of true feedback, every known letter is in the answer and no excluded letter is |
| Scoring.Score | testing/wordle_tester.py:103-139 | the score of a guess: 0 with at most one candidate, otherwise the candidates minus the expected number left, plus 2 for each distinct untested letter, minus 1.5 for each letter short of five distinct ones when more than 10 candidates remain, minus 5 for each of its letters that is excluded; its meaning is in `ScoreBounds`, `WeightedIsSquares` and `SeparatingScore` |
| Scoring.GroupKeysMembers | testing/wordle_tester.py:108-114 | a pattern is a key of the grouping dictionary iff some candidate produces it |
| Scoring.GroupKeysDistinct | testing/wordle_tester.py:108-114 | no pattern is a key twice |
| Scoring.GroupValuesStep | testing/wordle_tester.py:111-114 | appending the next candidate to the end of its pattern's group keeps every group exact |
| Scoring.GroupingStep | testing/wordle_tester.py:111-114 | one iteration of the grouping loop keeps the dictionary exact: each key maps to exactly its pattern's candidates, in order |
| Scoring.GroupPartition | testing/wordle_tester.py:108-114 | the groups partition the candidates: each candidate is in exactly its own pattern's group and the group sizes add up to the number of candidates |
| Scoring.SumOverGroupsSpec | testing/wordle_tester.py:117-120 | the sum over the dictionary's values equals the weighted sum over the pattern groups |
| Scoring.WeightedIsSquares | testing/wordle_tester.py:117-120 | the expected number left is the sum of squared group sizes over the number of candidates |
| Scoring.ExpectedRemainingBounds | testing/wordle_tester.py:116-123 | between 1 and all candidates are expected to remain, so the base gain lies between 0 and one less than the number of candidates |
| Scoring.SeparatingGuess | testing/wordle_tester.py:108-123 | a guess that gives every candidate its own feedback leaves exactly one candidate expected |
| Scoring.SeparatingScore | testing/wordle_tester.py:103-139 | such a guess, with five letters neither tested nor excluded, scores the number of candidates plus 9, the top of the score's range |
| Scoring.ScoreBounds | testing/wordle_tester.py:103-139 | with two or more candidates the score lies between -31 and the number of candidates plus 9 |
| Selection.DistinguishingWords | testing/wordle_tester.py:141-156 | the dictionary, or with two candidates the dictionary words that could tell them apart; its meaning is in `DistinguishingWordsSpec` |
| Selection.GuessPool | testing/wordle_tester.py:166-172 | the words scored: the first 1000 dictionary words above 50 candidates, the dictionary above 2, otherwise the distinguishing words; its meaning is in `LightNightExample` and `BestGuessSpec` |
| Selection.ScanBest | testing/wordle_tester.py:176-183 | the scoring loop of `find_best_guess` over the pool's scores: the index kept (or -1) and its score; its meaning is in `ScanBestSpec` |
| Selection.DistinguishingWordsSpec | testing/wordle_tester.py:141-156 | unless exactly two candidates remain the result is the dictionary; with two, it is, in dictionary order and with the dictionary's repeats, exactly the dictionary words with five distinct letters containing a letter from a position where the candidates differ |
| Selection.LightNightExample | testing/wordle_tester.py:141-172 | LIGHT and NIGHT differ only in L and N, so with those two candidates left the guess pool is, for any dictionary, exactly its words with five distinct letters containing L or N |
| Selection.ScanBestSpec | testing/wordle_tester.py:176-183 | the scan keeps nothing iff no score exceeds -1, and otherwise keeps the first index of the maximal score |
| Selection.BestGuess | testing/wordle_tester.py:158-185 | there is no guess iff there are no candidates, and a guess is a candidate or a dictionary word |
| Selection.BestGuessSpec | testing/wordle_tester.py:158-185 | one candidate gives that candidate; with two or more, the guess is the first best-scoring pool word with a score above -1, or else the first candidate when no score exceeds -1 |
| Game.Initial | testing/wordle_tester.py:17-23 | the per-game fields after `reset_game`; its meaning is in `InitialDerived` |
| Game.Advance | testing/wordle_tester.py:187-196 | the per-game fields after `make_guess`; its meaning is in `AdvanceSpec` and `AdvanceDerived` |
| Game.Play | testing/wordle_tester.py:203-235 | the loop of `solve_word` from a given round and state, giving the returned record and the final state; its meaning is in `PlaySpec`, `SolveSpec` and `AbcdeGame` |
| Game.AdvanceSpec | testing/wordle_tester.py:187-196 | a guess appends exactly one history entry; the new candidates are the old ones compatible with the feedback, in order and never more of them; the letter sets only grow and the tested set gets every letter of the guess |
| Game.InitialDerived | testing/wordle_tester.py:17-23 | the reset state is the one the empty history determines |
| Game.AdvanceDerived | testing/wordle_tester.py:187-196 | after a guess, the candidates and letter sets are still the ones the history determines |
| Game.TargetSurvives | testing/wordle_tester.py:193-196 | a hidden word from the dictionary stays a candidate while all feedback is computed against it |
| Game.PlaySpec | testing/wordle_tester.py:203-235 | from any round: the final state is the one its history determines and every history entry holds the true feedback; a failure reports max_guesses guesses and the final candidate count; a success reports as many guesses as history entries and one word left, either as the sole remaining candidate or as a last entry that is the hidden word with all-green feedback; known letters are in the hidden word and excluded ones are not; a hidden word from the dictionary stays a candidate, so a failure then used all max_guesses rounds |
| Game.SolveSpec | testing/wordle_tester.py:198-235 | the same guarantees for a whole game started from the reset state |
| Solver.WordleSolver.constructor | testing/wordle_tester.py:13-15 | the dictionary is prepared from the word list and the game state is the reset state |
| Solver.WordleSolver.ResetGame | testing/wordle_tester.py:17-23 | the candidates are the dictionary, history and letter sets are empty, and the class invariant holds |
| Solver.WordleSolver.UpdateLetterTracking | testing/wordle_tester.py:25-39 | the tested, known and excluded sets grow by exactly the guess's letters, its green or yellow letters, and its letters grey with no green or yellow elsewhere; nothing else changes |
| Solver.WordleSolver.GetResultPattern | testing/wordle_tester.py:77-101 | the two loops compute the feedback rule on the first five letters of the answer |
| Solver.WordleSolver.GroupByPattern | testing/wordle_tester.py:108-114 | the loop builds the exact grouping dictionary and its keys in order of first appearance |
| Solver.WordleSolver.CalculateExpectedValue | testing/wordle_tester.py:103-139 | the method returns the score: 0 with at most one candidate, otherwise the gain plus the new-letter bonus minus the two penalties |
| Solver.WordleSolver.FindDistinguishingWords | testing/wordle_tester.py:141-156 | the loop over positions collects the differing letters and the result is the distinguishing words |
| Solver.WordleSolver.ScanPool | testing/wordle_tester.py:176-183 | the scoring loop keeps the first pool word of maximal score above -1, if any |
| Solver.WordleSolver.FindBestGuess | testing/wordle_tester.py:158-185 | the method returns the guess the selection rule chooses |
| Solver.WordleSolver.MakeGuess | testing/wordle_tester.py:187-196 | the state becomes the one-guess step of the old state, and the class invariant is kept |
| Solver.WordleSolver.PlayRound | testing/wordle_tester.py:204-228 | one loop body: either the game's outcome from this round, or, when the game goes on, the chosen guess is not the hidden word, the new state is the one-guess step of the old one with that guess and its true feedback, and the rest of the game from it is the same |
| Solver.WordleSolver.PlayGuess | testing/wordle_tester.py:217-228 | the part of the body after the guess is chosen: success when it is the hidden word; otherwise the new state is the one-guess step with the guess and its true feedback, and the rest of the game from it is the same |
| Solver.WordleSolver.SolveWord | testing/wordle_tester.py:198-235 | the returned record and the final state are those of the game from the reset state, and the class invariant holds |
| Scenario.DictScore | testing/wordle_tester.py:103-139 | in the game on ABCDE, ABCDF, FGHIJ, each word scores 12 in the first round: a gain of 2 and a bonus of 10 |
| Scenario.FirstOfTies | testing/wordle_tester.py:158-185 | with three equal scores the strict comparison keeps the first word, so the first guess is ABCDE |
| Scenario.AbcdeGame | testing/wordle_tester.py:198-226 | the game on ABCDE, ABCDF, FGHIJ with hidden word ABCDE and six rounds succeeds after one guess, with ABCDE and all-green feedback as its only history entry |

## Left out

- `WordleTestSuite`, the `main` entry point and the other scripts of the repository (result saving, sample and quick tests, word-list merging) are not part of this model. They read files, time runs, draw plots and print.
- Floating point: scores are exact rationals. IEEE rounding of `len(group) / len(possible_words)` and of the sums is not modelled, so two guesses whose float scores round to a tie while their exact scores differ (or the reverse) may be ranked differently.
- `.upper()` is modelled for ASCII letters only. Other Unicode case mappings are not modelled.
- Feedback is a three-valued datatype, and a pattern has exactly five entries. Lists with other strings or other lengths cannot be expressed.
- Guesses and candidates are words of exactly five characters. The source's methods also accept other strings, but the solver only passes dictionary words to them.
- Solver.WordleSolver.GetResultPattern: requires an answer of at least five characters. The source raises `IndexError` on a shorter one.
- Solver.WordleSolver.SolveWord: requires a hidden word of at least five characters. For a shorter one the source raises `IndexError` once a guess is chosen: `get_result_pattern` (`testing/wordle_tester.py:217`) indexes the answer (`testing/wordle_tester.py:86`). A guess can be chosen without any scoring, when one candidate remains (`testing/wordle_tester.py:164`) or when two remain and nothing distinguishes them (`testing/wordle_tester.py:174`); for example, the word list `["ABCDE"]` with hidden word `ABC` raises on the first round. The source returns normally when no guess is chosen (an empty dictionary, or `max_guesses <= 0`). Those returns are not modelled.
- Solver.WordleSolver.SolveWord: the default argument `max_guesses = 6` (`testing/wordle_tester.py:198`) is not modelled. Dafny has no default parameters, so every caller passes the bound explicitly.
- The 1000-word cap on the guess pool is modelled as behaviour. The running time it bounds is not modelled.
- The separate `guesses` list of `solve_word` is not kept as its own variable. It always equals the history field, except that the winning guess of the line-220 return path is appended to it only. The model returns the history field, with that hit appended on that path.
