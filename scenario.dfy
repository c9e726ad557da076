/** A whole game worked out: the dictionary ABCDE, ABCDF, FGHIJ with the
    hidden word ABCDE and six rounds. Each word gives the three candidates
    three different feedbacks, so each scores 12; the strict comparison of
    the scan keeps the first, ABCDE, which wins in one guess. The words are
    passed as parameters equal to the literals, so that the verifier evaluates
    the feedback rule on literals only inside the small lemmas. */
module Scenario {
  import opened Words
  import opened PatternEngine
  import opened Scoring
  import opened Selection
  import opened Game

  function Dict(): seq<Word>
  {
    ["ABCDE", "ABCDF", "FGHIJ"]
  }

  /** The six feedbacks between different dictionary words. */
  lemma CrossPatterns(d: seq<Word>)
    requires d == Dict()
    ensures ResultPattern(d[0], d[1]) == [Green, Green, Green, Green, Grey]
    ensures ResultPattern(d[0], d[2]) == [Grey, Grey, Grey, Grey, Grey]
    ensures ResultPattern(d[1], d[0]) == [Green, Green, Green, Green, Grey]
    ensures ResultPattern(d[1], d[2]) == [Grey, Grey, Grey, Grey, Yellow]
    ensures ResultPattern(d[2], d[0]) == [Grey, Grey, Grey, Grey, Grey]
    ensures ResultPattern(d[2], d[1]) == [Yellow, Grey, Grey, Grey, Grey]
  {
    AbcdeAgainstAbcdf();
    AbcdeAgainstFghij();
    AbcdfAgainstAbcde();
    AbcdfAgainstFghij();
    FghijAgainstAbcde();
    FghijAgainstAbcdf();
  }

  lemma AbcdeAgainstAbcdf()
    ensures ResultPattern("ABCDE", "ABCDF") == [Green, Green, Green, Green, Grey]
  {
  }

  lemma AbcdeAgainstFghij()
    ensures ResultPattern("ABCDE", "FGHIJ") == [Grey, Grey, Grey, Grey, Grey]
  {
  }

  lemma AbcdfAgainstAbcde()
    ensures ResultPattern("ABCDF", "ABCDE") == [Green, Green, Green, Green, Grey]
  {
  }

  lemma AbcdfAgainstFghij()
    ensures ResultPattern("ABCDF", "FGHIJ") == [Grey, Grey, Grey, Grey, Yellow]
  {
  }

  lemma FghijAgainstAbcde()
    ensures ResultPattern("FGHIJ", "ABCDE") == [Grey, Grey, Grey, Grey, Grey]
  {
  }

  lemma FghijAgainstAbcdf()
    ensures ResultPattern("FGHIJ", "ABCDF") == [Yellow, Grey, Grey, Grey, Grey]
  {
  }

  /** Each dictionary word has five different letters. */
  lemma DictLetters(d: seq<Word>)
    requires d == Dict()
    ensures forall k :: 0 <= k < 3 ==> |Letters(d[k])| == 5
  {
    assert Letters(d[0]) == {'A', 'B', 'C', 'D', 'E'};
    assert Letters(d[1]) == {'A', 'B', 'C', 'D', 'F'};
    assert Letters(d[2]) == {'F', 'G', 'H', 'I', 'J'};
  }

  /** Three candidates with three different feedbacks are separated. */
  lemma SeparatesThree(guess: Word, pool: seq<Word>)
    requires |pool| == 3
    requires ResultPattern(guess, pool[0]) != ResultPattern(guess, pool[1])
    requires ResultPattern(guess, pool[0]) != ResultPattern(guess, pool[2])
    requires ResultPattern(guess, pool[1]) != ResultPattern(guess, pool[2])
    ensures Separates(guess, pool)
  {
    forall i, j | 0 <= i < j < |pool| ensures ResultPattern(guess, pool[i]) != ResultPattern(guess, pool[j]) {
      if i == 0 && j == 1 {
      } else if i == 0 {
        assert j == 2;
      } else {
        assert i == 1 && j == 2;
      }
    }
  }

  /** Each dictionary word tells the three words apart. */
  lemma DictSeparated(d: seq<Word>, k: nat)
    requires d == Dict() && k < 3
    ensures Separates(d[k], d)
  {
    CrossPatterns(d);
    SelfPatternAllGreen(d[k]);
    var g := AllGreen();
    if k == 0 {
      assert ResultPattern(d[0], d[1])[4] != g[4] && ResultPattern(d[0], d[2])[0] != g[0];
      assert ResultPattern(d[0], d[1])[0] != ResultPattern(d[0], d[2])[0];
    } else if k == 1 {
      assert ResultPattern(d[1], d[0])[4] != g[4] && ResultPattern(d[1], d[2])[0] != g[0];
      assert ResultPattern(d[1], d[0])[0] != ResultPattern(d[1], d[2])[0];
    } else {
      assert ResultPattern(d[2], d[0])[0] != ResultPattern(d[2], d[1])[0];
      assert ResultPattern(d[2], d[0])[0] != g[0] && ResultPattern(d[2], d[1])[0] != g[0];
    }
    SeparatesThree(d[k], d);
  }

  /** Each dictionary word scores 12 at the start of the game: a gain of 2
      (one word expected to remain out of three) and 10 for five new letters,
      with no penalties. */
  lemma DictScore(d: seq<Word>, k: nat)
    requires d == Dict() && k < 3
    ensures Score(d[k], d, {}, {}) == 12.0
  {
    DictSeparated(d, k);
    DictLetters(d);
    SeparatingScore(d[k], d, {}, {});
  }

  /** The scores of the three words, in dictionary order. */
  lemma DictScores(d: seq<Word>)
    requires d == Dict()
    ensures Scores(d, d, {}, {}) == [12.0, 12.0, 12.0]
  {
    var s := Scores(d, d, {}, {});
    forall k | 0 <= k < 3 ensures s[k] == 12.0 {
      DictScore(d, k);
    }
  }

  /** Equal scores: the strict comparison keeps the first. */
  lemma TieScan(s: seq<real>)
    requires s == [12.0, 12.0, 12.0]
    ensures ScanBest(s).0 == 0
  {
    var s1, s2 := s[..1], s[..2];
    assert s2[..1] == s1 && s1[..0] == [];
    assert ScanBest(s1) == (0, 12.0);
    assert ScanBest(s2) == (0, 12.0);
  }

  /** The first guess is the first dictionary word. */
  lemma FirstOfTies(d: seq<Word>)
    requires d == Dict()
    ensures BestGuess(d, d, {}, {}) == Some(d[0])
  {
    assert GuessPool(d, d) == d;
    DictScores(d);
    TieScan(Scores(d, d, {}, {}));
  }

  /** The game: one guess, ABCDE, answered all green. */
  lemma AbcdeGame(d: seq<Word>, target: seq<char>)
    requires d == Dict() && target == "ABCDE"
    ensures Play(d, target, 6, 0, Initial(d)).0 == GameResult(true, 1, [GuessRecord(d[0], AllGreen())], 1)
  {
    var s := Initial(d);
    assert s.possible == d && s.history == [] && |d| == 3;
    FirstOfTies(d);
    assert target[..5] == d[0] && d[0] == target;
    SelfPatternAllGreen(d[0]);
  }
}
