/** The solver object: its fields and the methods that update them, each
    proved against the functional model of the other modules. */
module Solver {
  import opened Words
  import opened PatternEngine
  import opened ConstraintFilter
  import opened LetterTracker
  import opened Scoring
  import opened Selection
  import opened Game

  class WordleSolver {
    /** The dictionary, fixed at construction. */
    const allWords: seq<Word>
    var possibleWords: seq<Word>
    var guessHistory: seq<GuessRecord>
    var testedLetters: set<char>
    var knownLetters: set<char>
    var excludedLetters: set<char>

    /** The per-game fields as a value. */
    function Snapshot(): State
      reads this
    {
      State(possibleWords, guessHistory, testedLetters, knownLetters, excludedLetters)
    }

    /** The candidates and letter sets are the ones the history determines. */
    ghost predicate Valid()
      reads this
    {
      Derived(allWords, Snapshot())
    }

    constructor (wordList: seq<seq<char>>)
      ensures allWords == Dictionary(wordList)
      ensures Snapshot() == Initial(allWords)
      ensures Valid()
    {
      allWords := Dictionary(wordList);
      new;
      ResetGame();
    }

    method ResetGame()
      modifies this
      ensures Snapshot() == Initial(allWords)
      ensures Valid()
    {
      possibleWords := allWords;
      guessHistory := [];
      testedLetters := {};
      knownLetters := {};
      excludedLetters := {};
      InitialDerived(allWords);
    }

    /** Adds the guess's letters to the tested set, its green and yellow
        letters to the known set and the letters grey everywhere to the
        excluded set. */
    method UpdateLetterTracking(guess: Word, result: Pattern)
      modifies this
      ensures testedLetters == old(testedLetters) + Letters(guess)
      ensures knownLetters == old(knownLetters) + KnownFrom(guess, result)
      ensures excludedLetters == old(excludedLetters) + ExcludedFrom(guess, result)
      ensures possibleWords == old(possibleWords) && guessHistory == old(guessHistory)
    {
      for i := 0 to 5
        invariant testedLetters == old(testedLetters) + TestedUpTo(guess, i)
        invariant knownLetters == old(knownLetters) + KnownUpTo(guess, result, i)
        invariant excludedLetters == old(excludedLetters) + ExcludedUpTo(guess, result, i)
        invariant possibleWords == old(possibleWords) && guessHistory == old(guessHistory)
      {
        TrackingStep(guess, result, i);
        var letter := guess[i];
        testedLetters := testedLetters + {letter};
        if result[i] != Grey {
          knownLetters := knownLetters + {letter};
        } else {
          var appearsElsewhere := exists j :: 0 <= j < 5 && j != i && result[j] != Grey && guess[j] == letter;
          assert appearsElsewhere == AppearsElsewhere(guess, result, i);
          if !appearsElsewhere {
            excludedLetters := excludedLetters + {letter};
          }
        }
      }
      TrackingComplete(guess, result);
    }

    /** The feedback `guess` receives when the hidden word is `answer`; only
        the first five letters of `answer` are looked at. */
    method GetResultPattern(guess: Word, answer: seq<char>) returns (result: Pattern)
      requires |answer| >= 5
      ensures result == ResultPattern(guess, answer[..5])
    {
      ghost var a: Word := answer[..5];
      result := [Grey, Grey, Grey, Grey, Grey];
      var used: set<int> := {};
      for i := 0 to 5
        invariant forall k :: 0 <= k < 5 ==> result[k] == (if k < i && guess[k] == a[k] then Green else Grey)
        invariant used == set k | 0 <= k < i && guess[k] == a[k]
      {
        if guess[i] == answer[i] {
          result := result[i := Green];
          used := used + {i};
        }
      }
      assert result == GreenPass(guess, a);
      for i := 0 to 5
        invariant YellowPass(guess, a, result, used, i) == PatternRun(guess, a)
      {
        if result[i] == Grey {
          var letter := guess[i];
          ghost var r0, u0 := result, used;
          for j := 0 to 5
            invariant result == r0 && used == u0
            invariant FirstUnused(a, used, letter, j) == FirstUnused(a, used, letter, 0)
          {
            if j !in used && answer[j] == letter {
              result := result[i := Yellow];
              used := used + {j};
              break;
            }
          }
        }
      }
    }

    /** The grouping loop of `calculate_expected_value`: the candidates
        keyed by the pattern `guess` would get against them, keys in order
        of first appearance, each group in candidate order. */
    method GroupByPattern(guess: Word, pool: seq<Word>) returns (groups: map<Pattern, seq<Word>>, keys: seq<Pattern>)
      ensures Grouped(guess, pool, groups, keys)
    {
      groups, keys := map[], [];
      for k := 0 to |pool|
        invariant Grouped(guess, pool[..k], groups, keys)
      {
        var answer := pool[k];
        var pattern := GetResultPattern(guess, answer);
        assert answer[..5] == answer;
        GroupingStep(guess, pool, k, groups, keys);
        if pattern in groups {
          groups := groups[pattern := groups[pattern] + [answer]];
        } else {
          groups := groups[pattern := [answer]];
          keys := keys + [pattern];
        }
      }
      assert pool[..|pool|] == pool;
    }

    /** The score of `guess` against the current candidates: the candidates
        are grouped by their feedback pattern, the expected number left is
        the size-weighted mean group size, and the gain is adjusted by the
        new-letter bonus and the two penalties. */
    method CalculateExpectedValue(guess: Word) returns (score: real)
      ensures score == Score(guess, possibleWords, testedLetters, excludedLetters)
    {
      var pool := possibleWords;
      var n := |pool|;
      if n <= 1 {
        return 0.0;
      }
      var groups, keys := GroupByPattern(guess, pool);
      SumOverGroupsSpec(guess, pool, groups, keys, n);
      var expected := SumOverGroups(groups, keys, n);
      var infoGain := n as real - expected;
      var guessLetters := Letters(guess);
      var newLetters := guessLetters - testedLetters;
      infoGain := infoGain + |newLetters| as real * 2.0;
      var uniqueLetters := |guessLetters|;
      if uniqueLetters < 5 && n > 10 {
        infoGain := infoGain - (5 - uniqueLetters) as real * 1.5;
      }
      var excludedUsed := |guessLetters * excludedLetters|;
      infoGain := infoGain - excludedUsed as real * 5.0;
      score := infoGain;
    }

    /** With exactly two candidates left, the dictionary words with five
        distinct letters that use a letter where the two differ; otherwise
        the whole dictionary. */
    method FindDistinguishingWords() returns (words: seq<Word>)
      ensures words == DistinguishingWords(allWords, possibleWords)
    {
      if |possibleWords| != 2 {
        return allWords;
      }
      var word1, word2 := possibleWords[0], possibleWords[1];
      var diffLetters: set<char> := {};
      for i := 0 to 5
        invariant diffLetters == (set k | 0 <= k < i && word1[k] != word2[k] :: word1[k])
                               + (set k | 0 <= k < i && word1[k] != word2[k] :: word2[k])
      {
        if word1[i] != word2[i] {
          diffLetters := diffLetters + {word1[i]};
          diffLetters := diffLetters + {word2[i]};
        }
      }
      words := Filter(allWords, Distinguishes(diffLetters));
    }

    /** The next guess: none without candidates, the candidate itself when
        one is left, otherwise the first word of the guess pool with the
        highest score above -1, falling back to the first candidate. */
    method FindBestGuess() returns (best: Option<Word>)
      ensures best == BestGuess(allWords, possibleWords, testedLetters, excludedLetters)
    {
      if |possibleWords| == 0 {
        return None;
      }
      if |possibleWords| == 1 {
        return Some(possibleWords[0]);
      }
      var guessPool: seq<Word>;
      if |possibleWords| > 50 {
        guessPool := if |allWords| > 1000 then allWords[..1000] else allWords;
      } else if |possibleWords| > 2 {
        guessPool := allWords;
      } else {
        guessPool := FindDistinguishingWords();
        if |guessPool| == 0 {
          return Some(possibleWords[0]);
        }
      }
      assert guessPool == GuessPool(allWords, possibleWords);
      var bestGuess := ScanPool(guessPool);
      best := if bestGuess.Some? then bestGuess else Some(possibleWords[0]);
    }

    /** The scoring loop of `find_best_guess`: the first word of `guessPool`
        whose score is the highest and above -1, if any. */
    method ScanPool(guessPool: seq<Word>) returns (bestGuess: Option<Word>)
      ensures var k := ScanBest(Scores(guessPool, possibleWords, testedLetters, excludedLetters)).0;
        bestGuess == if k >= 0 then Some(guessPool[k]) else None
    {
      ghost var scores := Scores(guessPool, possibleWords, testedLetters, excludedLetters);
      bestGuess := None;
      var bestScore: real := -1.0;
      ghost var bestIndex: int := -1;
      for k := 0 to |guessPool|
        invariant (bestIndex, bestScore) == ScanBest(scores[..k])
        invariant bestGuess == if bestIndex >= 0 then Some(guessPool[bestIndex]) else None
      {
        var guess := guessPool[k];
        var score := CalculateExpectedValue(guess);
        ScanStep(scores, k);
        if score > bestScore {
          bestScore := score;
          bestGuess := Some(guess);
          bestIndex := k;
        }
      }
      assert scores[..|guessPool|] == scores;
    }

    /** Records the guess, updates the letter sets and keeps only the
        candidates compatible with the feedback, in their order. */
    method MakeGuess(guess: Word, result: Pattern)
      modifies this
      ensures Snapshot() == Advance(old(Snapshot()), guess, result)
      ensures old(Valid()) ==> Valid()
    {
      ghost var before := Snapshot();
      guessHistory := guessHistory + [GuessRecord(guess, result)];
      UpdateLetterTracking(guess, result);
      possibleWords := Filter(possibleWords, CompatibleWith(guess, result));
      if Derived(allWords, before) {
        AdvanceDerived(allWords, before, guess, result);
      }
    }

    /** One round of the game loop of `solve_word`: stops with the outcome
        when the hidden word is the only candidate or when there is nothing to
        guess; otherwise plays the chosen guess. */
    method PlayRound(target: seq<char>, maxGuesses: int, guessNum: nat) returns (done: bool, res: GameResult)
      requires |target| >= 5 && guessNum < maxGuesses
      requires Valid()
      modifies this
      ensures Valid()
      ensures done ==> (res, Snapshot()) == Play(allWords, target, maxGuesses, guessNum, old(Snapshot()))
      ensures !done ==>
        var b := BestGuess(allWords, old(possibleWords), old(testedLetters), old(excludedLetters));
        && b.Some? && b.value != target
        && Snapshot() == Advance(old(Snapshot()), b.value, ResultPattern(b.value, target[..5]))
      ensures !done ==>
        Play(allWords, target, maxGuesses, guessNum + 1, Snapshot())
        == Play(allWords, target, maxGuesses, guessNum, old(Snapshot()))
    {
      if |possibleWords| == 1 && possibleWords[0] == target {
        PlayFound(allWords, target, maxGuesses, guessNum, Snapshot());
        return true, GameResult(true, guessNum, guessHistory, 1);
      }
      var bestGuess := FindBestGuess();
      if bestGuess.None? {
        PlayNoGuess(allWords, target, maxGuesses, guessNum, Snapshot());
        return true, GameResult(false, maxGuesses, guessHistory, |possibleWords|);
      }
      done, res := PlayGuess(target, maxGuesses, guessNum, bestGuess.value);
    }

    /** The rest of a round once `guess` is chosen: stops when it is the
        hidden word, otherwise records it and its feedback. */
    method PlayGuess(target: seq<char>, maxGuesses: int, guessNum: nat, guess: Word) returns (done: bool, res: GameResult)
      requires |target| >= 5 && guessNum < maxGuesses
      requires Valid()
      requires !(|possibleWords| == 1 && possibleWords[0] == target)
      requires BestGuess(allWords, possibleWords, testedLetters, excludedLetters) == Some(guess)
      modifies this
      ensures Valid()
      ensures done ==> (res, Snapshot()) == Play(allWords, target, maxGuesses, guessNum, old(Snapshot()))
      ensures !done ==>
        guess != target && Snapshot() == Advance(old(Snapshot()), guess, ResultPattern(guess, target[..5]))
      ensures !done ==>
        Play(allWords, target, maxGuesses, guessNum + 1, Snapshot())
        == Play(allWords, target, maxGuesses, guessNum, old(Snapshot()))
    {
      var result := GetResultPattern(guess, target);
      if guess == target {
        PlayHit(allWords, target, maxGuesses, guessNum, Snapshot(), guess);
        return true, GameResult(true, guessNum + 1, guessHistory + [GuessRecord(guess, result)], 1);
      }
      ghost var before := Snapshot();
      PlayStep(allWords, target, maxGuesses, guessNum, before, guess);
      MakeGuess(guess, result);
      done, res := false, GameResult(false, maxGuesses, guessHistory, |possibleWords|);
    }

    /** Plays one game against `target` with at most `maxGuesses` rounds. */
    method SolveWord(target: seq<char>, maxGuesses: int) returns (res: GameResult)
      requires |target| >= 5
      modifies this
      ensures (res, Snapshot()) == Play(allWords, target, maxGuesses, 0, Initial(allWords))
      ensures Valid()
    {
      ResetGame();
      ghost var game := Play(allWords, target, maxGuesses, 0, Initial(allWords));
      var guessNum := 0;
      while guessNum < maxGuesses
        invariant guessNum >= 0
        invariant Valid()
        invariant Play(allWords, target, maxGuesses, guessNum, Snapshot()) == game
        decreases maxGuesses - guessNum
      {
        var done;
        done, res := PlayRound(target, maxGuesses, guessNum);
        if done {
          return;
        }
        guessNum := guessNum + 1;
      }
      PlayStop(allWords, target, maxGuesses, guessNum, Snapshot());
      res := GameResult(false, maxGuesses, guessHistory, |possibleWords|);
    }
  }
}
