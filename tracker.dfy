/** Letter tracking (`update_letter_tracking`): the letters one guess adds
    to the known and excluded sets, their accumulation over a history, and
    their soundness when the feedback was computed against the hidden word. */
module LetterTracker {
  import opened Words
  import opened PatternEngine

  /** Some other position `j != i` carrying the same letter is green or yellow. */
  predicate AppearsElsewhere(guess: Word, result: Pattern, i: int)
    requires 0 <= i < 5
  {
    exists j :: 0 <= j < 5 && j != i && result[j] != Grey && guess[j] == guess[i]
  }

  /** Letters of the guess marked green or yellow. */
  function KnownFrom(guess: Word, result: Pattern): set<char>
  {
    set i | 0 <= i < 5 && result[i] != Grey :: guess[i]
  }

  /** Letters marked grey at a position and green or yellow at no other. */
  function ExcludedFrom(guess: Word, result: Pattern): set<char>
  {
    set i | 0 <= i < 5 && result[i] == Grey && !AppearsElsewhere(guess, result, i) :: guess[i]
  }

  /** The three letter sets after the first `i` positions of one guess. */
  function TestedUpTo(guess: Word, i: int): set<char>
  {
    set k | 0 <= k < i && k < 5 :: guess[k]
  }

  function KnownUpTo(guess: Word, result: Pattern, i: int): set<char>
  {
    set k | 0 <= k < i && k < 5 && result[k] != Grey :: guess[k]
  }

  function ExcludedUpTo(guess: Word, result: Pattern, i: int): set<char>
  {
    set k | 0 <= k < i && k < 5 && result[k] == Grey && !AppearsElsewhere(guess, result, k) :: guess[k]
  }

  /** Position `i` adds its letter to the tested set, and to the known or
      the excluded set by its colour; all five positions give the sets of the
      whole guess. */
  lemma TrackingStep(guess: Word, result: Pattern, i: int)
    requires 0 <= i < 5
    ensures TestedUpTo(guess, i + 1) == TestedUpTo(guess, i) + {guess[i]}
    ensures KnownUpTo(guess, result, i + 1)
      == KnownUpTo(guess, result, i) + (if result[i] != Grey then {guess[i]} else {})
    ensures ExcludedUpTo(guess, result, i + 1)
      == ExcludedUpTo(guess, result, i)
         + (if result[i] == Grey && !AppearsElsewhere(guess, result, i) then {guess[i]} else {})
  {
  }

  lemma TrackingComplete(guess: Word, result: Pattern)
    ensures TestedUpTo(guess, 5) == Letters(guess)
    ensures KnownUpTo(guess, result, 5) == KnownFrom(guess, result)
    ensures ExcludedUpTo(guess, result, 5) == ExcludedFrom(guess, result)
  {
    forall c | c in Letters(guess) ensures c in TestedUpTo(guess, 5) {
      var k :| 0 <= k < 5 && guess[k] == c;
    }
  }

  /** A single guess never makes a letter both known and excluded. */
  lemma KnownExcludedDisjoint(guess: Word, result: Pattern)
    ensures KnownFrom(guess, result) !! ExcludedFrom(guess, result)
  {
    forall c | c in KnownFrom(guess, result) ensures c !in ExcludedFrom(guess, result) {
      var i :| 0 <= i < 5 && result[i] != Grey && guess[i] == c;
      forall k | 0 <= k < 5 && result[k] == Grey && guess[k] == c
        ensures AppearsElsewhere(guess, result, k)
      {
        assert i != k;
      }
    }
  }

  /** With feedback computed against `answer`, known letters are letters of
      the answer and excluded letters are not. */
  lemma TrackingSound(guess: Word, answer: Word)
    ensures KnownFrom(guess, ResultPattern(guess, answer)) <= Letters(answer)
    ensures ExcludedFrom(guess, ResultPattern(guess, answer)) !! Letters(answer)
  {
    var r := ResultPattern(guess, answer);
    ResultPatternSpec(guess, answer);
    forall c | c in ExcludedFrom(guess, r) ensures c !in Letters(answer) {
      var i :| 0 <= i < 5 && r[i] == Grey && !AppearsElsewhere(guess, r, i) && guess[i] == c;
      if Hits(guess, r, c) > 0 {
        HitsWitness(guess, r, c);
      }
      assert Occurrences(answer, c) == 0;
    }
  }

  /** Letters of all guesses in a history. */
  function TestedOf(h: seq<GuessRecord>): set<char>
  {
    if |h| == 0 then {} else TestedOf(h[..|h|-1]) + Letters(h[|h|-1].guess)
  }

  function KnownOf(h: seq<GuessRecord>): set<char>
  {
    if |h| == 0 then {} else KnownOf(h[..|h|-1]) + KnownFrom(h[|h|-1].guess, h[|h|-1].pattern)
  }

  function ExcludedOf(h: seq<GuessRecord>): set<char>
  {
    if |h| == 0 then {} else ExcludedOf(h[..|h|-1]) + ExcludedFrom(h[|h|-1].guess, h[|h|-1].pattern)
  }

  /** Every record of `h` carries the feedback its guess gets against `answer`. */
  ghost predicate FeedbackFrom(h: seq<GuessRecord>, answer: Word)
  {
    forall k :: 0 <= k < |h| ==> h[k].pattern == ResultPattern(h[k].guess, answer)
  }

  /** Over a whole game with true feedback, every known letter is in the
      hidden word and no excluded letter is. */
  lemma {:induction false} HistoryTrackingSound(h: seq<GuessRecord>, answer: Word)
    requires FeedbackFrom(h, answer)
    ensures KnownOf(h) <= Letters(answer)
    ensures ExcludedOf(h) !! Letters(answer)
  {
    if |h| > 0 {
      var h' := h[..|h|-1];
      assert FeedbackFrom(h', answer) by {
        forall k | 0 <= k < |h'| ensures h'[k].pattern == ResultPattern(h'[k].guess, answer) {
          assert h'[k] == h[k];
        }
      }
      HistoryTrackingSound(h', answer);
      TrackingSound(h[|h|-1].guess, answer);
    }
  }
}
