/** One game as a value: the solver's state, the effect of `make_guess`,
    and the loop of `solve_word` as a recursive function, with what a game
    guarantees. */
module Game {
  import opened Words
  import opened PatternEngine
  import opened ConstraintFilter
  import opened LetterTracker
  import opened Selection

  /** The per-game fields of the solver. */
  datatype State = State(
    possible: seq<Word>,
    history: seq<GuessRecord>,
    tested: set<char>,
    known: set<char>,
    excluded: set<char>)

  /** The record `solve_word` returns. */
  datatype GameResult = GameResult(
    success: bool,
    guesses: int,
    history: seq<GuessRecord>,
    finalWordsRemaining: nat)

  /** The state after `reset_game`. */
  function Initial(allWords: seq<Word>): State
  {
    State(allWords, [], {}, {}, {})
  }

  /** The state after `make_guess(guess, result)`. */
  function Advance(s: State, guess: Word, result: Pattern): State
  {
    State(
      Filter(s.possible, CompatibleWith(guess, result)),
      s.history + [GuessRecord(guess, result)],
      s.tested + Letters(guess),
      s.known + KnownFrom(guess, result),
      s.excluded + ExcludedFrom(guess, result))
  }

  /** What one guess does to the state: one more history entry, the
      candidates become the compatible ones in their old order (so there are
      never more of them), and the letter sets only grow, the tested letters
      taking in every letter of the guess. */
  lemma AdvanceSpec(s: State, guess: Word, result: Pattern)
    ensures var t := Advance(s, guess, result);
      && |t.history| == |s.history| + 1
      && t.history[..|s.history|] == s.history
      && t.history[|s.history|] == GuessRecord(guess, result)
      && IsSubsequence(t.possible, s.possible)
      && |t.possible| <= |s.possible|
      && (forall w :: w in t.possible <==> w in s.possible && Compatible(w, guess, result))
      && s.tested <= t.tested && s.known <= t.known && s.excluded <= t.excluded
      && (forall i :: 0 <= i < 5 ==> guess[i] in t.tested)
  {
    FilterIsSubsequence(s.possible, CompatibleWith(guess, result));
  }

  /** Compatible with every record of the history. */
  function ConsistentWith(h: seq<GuessRecord>): Word -> bool
  {
    (w: Word) => forall k :: 0 <= k < |h| ==> Compatible(w, h[k].guess, h[k].pattern)
  }

  /** The candidate pool a history determines: the dictionary words, in
      dictionary order, compatible with every record. */
  function Candidates(allWords: seq<Word>, h: seq<GuessRecord>): seq<Word>
  {
    Filter(allWords, ConsistentWith(h))
  }

  /** The state is the one its history determines from the dictionary. */
  ghost predicate Derived(allWords: seq<Word>, s: State)
  {
    && s.possible == Candidates(allWords, s.history)
    && s.tested == TestedOf(s.history)
    && s.known == KnownOf(s.history)
    && s.excluded == ExcludedOf(s.history)
  }

  lemma InitialDerived(allWords: seq<Word>)
    ensures Derived(allWords, Initial(allWords))
  {
    FilterAll(allWords, ConsistentWith([]));
  }

  /** Guessing keeps the state the one its history determines. */
  lemma AdvanceDerived(allWords: seq<Word>, s: State, guess: Word, result: Pattern)
    requires Derived(allWords, s)
    ensures Derived(allWords, Advance(s, guess, result))
  {
    var rec := GuessRecord(guess, result);
    var h := s.history;
    var h' := h + [rec];
    assert h'[..|h|] == h;
    forall w: Word
      ensures ConsistentWith(h')(w) == (ConsistentWith(h)(w) && CompatibleWith(guess, result)(w))
    {
      assert forall k :: 0 <= k < |h| ==> h'[k] == h[k];
      assert h'[|h|] == rec;
    }
    FilterFilter(allWords, ConsistentWith(h), CompatibleWith(guess, result), ConsistentWith(h'));
  }

  /** A hidden word that is in the dictionary stays a candidate as long as
      all feedback was computed against it. */
  lemma TargetSurvives(allWords: seq<Word>, s: State, target: Word)
    requires Derived(allWords, s)
    requires FeedbackFrom(s.history, target)
    requires target in allWords
    ensures target in s.possible
  {
    forall k | 0 <= k < |s.history| ensures Compatible(target, s.history[k].guess, s.history[k].pattern) {
      SelfConsistent(target, s.history[k].guess);
    }
    assert ConsistentWith(s.history)(target);
  }

  /** The loop of `solve_word` from iteration `num` on, in state `s`;
      yields the returned record and the solver's final state. */
  function Play(allWords: seq<Word>, target: seq<char>, maxGuesses: int, num: nat, s: State): (GameResult, State)
    requires |target| >= 5
    decreases maxGuesses - num
  {
    if num >= maxGuesses then (GameResult(false, maxGuesses, s.history, |s.possible|), s)
    else if |s.possible| == 1 && s.possible[0] == target then (GameResult(true, num, s.history, 1), s)
    else
      match BestGuess(allWords, s.possible, s.tested, s.excluded)
      case None => (GameResult(false, maxGuesses, s.history, |s.possible|), s)
      case Some(g) =>
        var r := ResultPattern(g, target[..5]);
        if g == target then (GameResult(true, num + 1, s.history + [GuessRecord(g, r)], 1), s)
        else Play(allWords, target, maxGuesses, num + 1, Advance(s, g, r))
  }

  /** The loop's exits, one round at a time. */
  lemma PlayStop(allWords: seq<Word>, target: seq<char>, maxGuesses: int, num: nat, s: State)
    requires |target| >= 5
    requires num >= maxGuesses
    ensures Play(allWords, target, maxGuesses, num, s) == (GameResult(false, maxGuesses, s.history, |s.possible|), s)
  {
  }

  lemma PlayFound(allWords: seq<Word>, target: seq<char>, maxGuesses: int, num: nat, s: State)
    requires |target| >= 5
    requires num < maxGuesses
    requires |s.possible| == 1 && s.possible[0] == target
    ensures Play(allWords, target, maxGuesses, num, s) == (GameResult(true, num, s.history, 1), s)
  {
  }

  lemma PlayNoGuess(allWords: seq<Word>, target: seq<char>, maxGuesses: int, num: nat, s: State)
    requires |target| >= 5
    requires num < maxGuesses
    requires !(|s.possible| == 1 && s.possible[0] == target)
    requires BestGuess(allWords, s.possible, s.tested, s.excluded) == None
    ensures Play(allWords, target, maxGuesses, num, s) == (GameResult(false, maxGuesses, s.history, |s.possible|), s)
  {
  }

  lemma PlayHit(allWords: seq<Word>, target: seq<char>, maxGuesses: int, num: nat, s: State, g: Word)
    requires |target| >= 5
    requires num < maxGuesses
    requires !(|s.possible| == 1 && s.possible[0] == target)
    requires BestGuess(allWords, s.possible, s.tested, s.excluded) == Some(g)
    requires g == target
    ensures Play(allWords, target, maxGuesses, num, s)
         == (GameResult(true, num + 1, s.history + [GuessRecord(g, ResultPattern(g, target[..5]))], 1), s)
  {
  }

  /** One round of the loop that neither finds the hidden word nor runs out
      of candidates moves on to the next round in the advanced state. */
  lemma PlayStep(allWords: seq<Word>, target: seq<char>, maxGuesses: int, num: nat, s: State, g: Word)
    requires |target| >= 5
    requires num < maxGuesses
    requires !(|s.possible| == 1 && s.possible[0] == target)
    requires BestGuess(allWords, s.possible, s.tested, s.excluded) == Some(g)
    requires g != target
    ensures Play(allWords, target, maxGuesses, num, s)
         == Play(allWords, target, maxGuesses, num + 1, Advance(s, g, ResultPattern(g, target[..5])))
  {
  }

  /** What a game guarantees from any reachable point of the loop. */
  ghost predicate Outcome(allWords: seq<Word>, target: seq<char>, maxGuesses: int, num: nat, res: GameResult, fin: State)
    requires |target| >= 5
  {
    && Derived(allWords, fin)
    && FeedbackFrom(res.history, target[..5])
    && |res.history| <= (if num > maxGuesses then num else maxGuesses)
    && (!res.success ==>
          && res.guesses == maxGuesses
          && res.finalWordsRemaining == |fin.possible|
          && res.history == fin.history)
    && (res.success ==>
          && res.guesses == |res.history|
          && res.finalWordsRemaining == 1
          && (|| (fin.possible == [target] && res.history == fin.history)
              || (&& |res.history| == |fin.history| + 1
                  && res.history[..|fin.history|] == fin.history
                  && res.history[|fin.history|].guess == target
                  && res.history[|fin.history|].pattern == AllGreen())))
    && fin.known <= Letters(target[..5])
    && fin.excluded !! Letters(target[..5])
    && (target in allWords ==> target in fin.possible)
    && (target in allWords && !res.success && num <= maxGuesses ==> |res.history| == maxGuesses)
  }

  /** Facts about any state reached with honest feedback. */
  lemma StateFacts(allWords: seq<Word>, target: seq<char>, s: State)
    requires |target| >= 5
    requires Derived(allWords, s)
    requires FeedbackFrom(s.history, target[..5])
    ensures s.known <= Letters(target[..5]) && s.excluded !! Letters(target[..5])
    ensures target in allWords ==> target in s.possible
  {
    var t5: Word := target[..5];
    HistoryTrackingSound(s.history, t5);
    if target in allWords {
      assert target == t5;
      TargetSurvives(allWords, s, t5);
    }
  }

  /** Appending the honest feedback for `g` keeps the history honest. */
  lemma FeedbackExtend(h: seq<GuessRecord>, g: Word, answer: Word)
    requires FeedbackFrom(h, answer)
    ensures FeedbackFrom(h + [GuessRecord(g, ResultPattern(g, answer))], answer)
  {
    var h' := h + [GuessRecord(g, ResultPattern(g, answer))];
    forall k | 0 <= k < |h'| ensures h'[k].pattern == ResultPattern(h'[k].guess, answer) {
      if k < |h| { assert h'[k] == h[k]; }
    }
  }

  /** The loop ends in failure in state `s`: out of rounds, or no guess. */
  lemma FailOutcome(allWords: seq<Word>, target: seq<char>, maxGuesses: int, num: nat, s: State)
    requires |target| >= 5
    requires |s.history| == num
    requires Derived(allWords, s)
    requires FeedbackFrom(s.history, target[..5])
    requires num >= maxGuesses || |s.possible| == 0
    ensures Outcome(allWords, target, maxGuesses, num, GameResult(false, maxGuesses, s.history, |s.possible|), s)
  {
    StateFacts(allWords, target, s);
  }

  /** The loop ends because the hidden word is the only candidate left. */
  lemma FoundOutcome(allWords: seq<Word>, target: seq<char>, maxGuesses: int, num: nat, s: State)
    requires |target| >= 5
    requires |s.history| == num
    requires Derived(allWords, s)
    requires FeedbackFrom(s.history, target[..5])
    requires s.possible == [target]
    ensures Outcome(allWords, target, maxGuesses, num, GameResult(true, num, s.history, 1), s)
  {
    StateFacts(allWords, target, s);
  }

  /** The loop ends because the chosen guess is the hidden word. */
  lemma HitOutcome(allWords: seq<Word>, target: seq<char>, maxGuesses: int, num: nat, s: State, g: Word)
    requires |target| >= 5
    requires |s.history| == num < maxGuesses
    requires Derived(allWords, s)
    requires FeedbackFrom(s.history, target[..5])
    requires g == target
    ensures Outcome(allWords, target, maxGuesses, num,
      GameResult(true, num + 1, s.history + [GuessRecord(g, ResultPattern(g, target[..5]))], 1), s)
  {
    StateFacts(allWords, target, s);
    assert target[..5] == g;
    FeedbackExtend(s.history, g, g);
    SelfPatternAllGreen(g);
    assert (s.history + [GuessRecord(g, ResultPattern(g, g))])[..num] == s.history;
  }

  /** What holds from the next round holds from this one. */
  lemma OutcomeEarlier(allWords: seq<Word>, target: seq<char>, maxGuesses: int, num: nat, res: GameResult, fin: State)
    requires |target| >= 5
    requires num < maxGuesses
    requires Outcome(allWords, target, maxGuesses, num + 1, res, fin)
    ensures Outcome(allWords, target, maxGuesses, num, res, fin)
  {
  }

  lemma {:induction false} PlaySpec(allWords: seq<Word>, target: seq<char>, maxGuesses: int, num: nat, s: State)
    requires |target| >= 5
    requires |s.history| == num
    requires Derived(allWords, s)
    requires FeedbackFrom(s.history, target[..5])
    ensures Outcome(allWords, target, maxGuesses, num, Play(allWords, target, maxGuesses, num, s).0, Play(allWords, target, maxGuesses, num, s).1)
    decreases maxGuesses - num
  {
    if num >= maxGuesses {
      FailOutcome(allWords, target, maxGuesses, num, s);
    } else if |s.possible| == 1 && s.possible[0] == target {
      assert s.possible == [target];
      FoundOutcome(allWords, target, maxGuesses, num, s);
    } else {
      var best := BestGuess(allWords, s.possible, s.tested, s.excluded);
      if best.None? {
        FailOutcome(allWords, target, maxGuesses, num, s);
      } else if best.value == target {
        HitOutcome(allWords, target, maxGuesses, num, s, best.value);
      } else {
        var g := best.value;
        var r := ResultPattern(g, target[..5]);
        var s' := Advance(s, g, r);
        AdvanceDerived(allWords, s, g, r);
        FeedbackExtend(s.history, g, target[..5]);
        PlaySpec(allWords, target, maxGuesses, num + 1, s');
        PlayStep(allWords, target, maxGuesses, num, s, g);
        var p := Play(allWords, target, maxGuesses, num + 1, s');
        OutcomeEarlier(allWords, target, maxGuesses, num, p.0, p.1);
      }
    }
  }

  /** A whole game from `reset_game`: the guarantees of `solve_word`. */
  lemma SolveSpec(allWords: seq<Word>, target: seq<char>, maxGuesses: int)
    requires |target| >= 5
    ensures Outcome(allWords, target, maxGuesses, 0,
      Play(allWords, target, maxGuesses, 0, Initial(allWords)).0,
      Play(allWords, target, maxGuesses, 0, Initial(allWords)).1)
  {
    InitialDerived(allWords);
    PlaySpec(allWords, target, maxGuesses, 0, Initial(allWords));
  }
}
