/** The candidate filter `is_word_compatible`, as the source states it,
    including the grey rule that sets no upper bound on a letter's count, and
    the theorem that every word is compatible with the feedback it produces. */
module ConstraintFilter {
  import opened Words
  import opened PatternEngine

  /** Some position of the guess carrying letter `c` is green or yellow. */
  predicate HasHit(guess: Word, result: Pattern, c: char)
  {
    exists j :: 0 <= j < 5 && result[j] != Grey && guess[j] == c
  }

  /** The per-position check of the first loop. A grey letter only excludes
      the letter from `word` when no position of the guess carrying that
      letter is green or yellow. */
  predicate PositionCompatible(word: Word, guess: Word, result: Pattern, i: int)
    requires 0 <= i < 5
  {
    match result[i]
    case Green => word[i] == guess[i]
    case Yellow => word[i] != guess[i] && guess[i] in word
    case Grey => HasHit(guess, result, guess[i]) || guess[i] !in word
  }

  /** The second loop: for a yellow letter, `word` holds at least as many
      copies as the guess has green or yellow positions with that letter. */
  predicate CountCompatible(word: Word, guess: Word, result: Pattern, i: int)
    requires 0 <= i < 5
  {
    result[i] == Yellow ==> Occurrences(word, guess[i]) >= Hits(guess, result, guess[i])
  }

  /** `word` is still a candidate after `guess` received `result`. */
  predicate Compatible(word: Word, guess: Word, result: Pattern)
  {
    && (forall i :: 0 <= i < 5 ==> PositionCompatible(word, guess, result, i))
    && (forall i :: 0 <= i < 5 ==> CountCompatible(word, guess, result, i))
  }

  function CompatibleWith(guess: Word, result: Pattern): Word -> bool
  {
    (w: Word) => Compatible(w, guess, result)
  }

  /** Self-consistency: the hidden word always survives the filter built
      from the feedback it produced. */
  lemma SelfConsistent(w: Word, g: Word)
    ensures Compatible(w, g, ResultPattern(g, w))
  {
    var r := ResultPattern(g, w);
    ResultPatternSpec(g, w);
    forall i | 0 <= i < 5 ensures PositionCompatible(w, g, r, i) {
      if r[i] == Grey && g[i] in w {
        assert Occurrences(w, g[i]) > 0;
        HitsWitness(g, r, g[i]);
      }
    }
  }

  /** After an all-green answer exactly the guessed word is compatible. */
  lemma AllGreenOnlyGuess(w: Word, g: Word)
    ensures Compatible(w, g, AllGreen()) <==> w == g
  {
    if Compatible(w, g, AllGreen()) {
      forall i | 0 <= i < 5 ensures w[i] == g[i] {
        assert PositionCompatible(w, g, AllGreen(), i);
        assert AllGreen()[i] == Green;
      }
    }
  }

  /** The filter does not bound how often a letter may occur: after guessing
      AAXYZ against ABCDE (green, then four greys), the word AACDE is still
      compatible although it would have answered AAXYZ differently. */
  lemma FilterKeepsOtherPatterns()
    ensures ResultPattern("AAXYZ", "ABCDE") == [Green, Grey, Grey, Grey, Grey]
    ensures Compatible("AACDE", "AAXYZ", ResultPattern("AAXYZ", "ABCDE"))
    ensures ResultPattern("AAXYZ", "AACDE") != ResultPattern("AAXYZ", "ABCDE")
  {
    AaxyzAgainstAbcde();
    AacdeCompatible();
    ResultPatternSpec("AAXYZ", "AACDE");
    assert ResultPattern("AAXYZ", "AACDE")[1] == Green;
  }

  lemma AaxyzAgainstAbcde()
    ensures ResultPattern("AAXYZ", "ABCDE") == [Green, Grey, Grey, Grey, Grey]
  {
  }

  lemma AacdeCompatible()
    ensures Compatible("AACDE", "AAXYZ", [Green, Grey, Grey, Grey, Grey])
  {
    var w: Word, g: Word, r: Pattern := "AACDE", "AAXYZ", [Green, Grey, Grey, Grey, Grey];
    assert HasHit(g, r, 'A') by { assert r[0] != Grey && g[0] == 'A'; }
    assert PositionCompatible(w, g, r, 1);
  }
}
