/** Choosing the next guess (`find_distinguishing_words`, `find_best_guess`):
    the adaptive guess pool and the first-maximum scan over it. */
module Selection {
  import opened Words
  import opened Scoring

  /** Letters at the positions where the two words differ, from both words. */
  function DiffLetters(w1: Word, w2: Word): set<char>
  {
    (set i | 0 <= i < 5 && w1[i] != w2[i] :: w1[i]) + (set i | 0 <= i < 5 && w1[i] != w2[i] :: w2[i])
  }

  /** Uses some letter of `diff` and has five distinct letters. */
  function Distinguishes(diff: set<char>): Word -> bool
  {
    (w: Word) => (exists c :: c in diff && c in w) && |Letters(w)| == 5
  }

  /** With exactly two candidates left, the dictionary words that can tell
      them apart; otherwise the whole dictionary. */
  function DistinguishingWords(allWords: seq<Word>, possible: seq<Word>): seq<Word>
  {
    if |possible| != 2 then allWords
    else Filter(allWords, Distinguishes(DiffLetters(possible[0], possible[1])))
  }

  /** What the distinguishing words are: the dictionary itself unless two
      candidates remain; then, in dictionary order and as often as the
      dictionary lists them, exactly the dictionary words with five distinct
      letters that contain a letter from a position where the two candidates
      differ. */
  lemma DistinguishingWordsSpec(allWords: seq<Word>, possible: seq<Word>)
    ensures |possible| != 2 ==> DistinguishingWords(allWords, possible) == allWords
    ensures |possible| == 2 ==> IsSubsequence(DistinguishingWords(allWords, possible), allWords)
    ensures |possible| == 2 ==> forall w: Word :: w in DistinguishingWords(allWords, possible) <==>
      && w in allWords
      && |Letters(w)| == 5
      && exists i :: 0 <= i < 5 && possible[0][i] != possible[1][i] && (possible[0][i] in w || possible[1][i] in w)
    ensures |possible| == 2 ==> forall w ::
      multiset(DistinguishingWords(allWords, possible))[w]
      == if Distinguishes(DiffLetters(possible[0], possible[1]))(w) then multiset(allWords)[w] else 0
  {
    if |possible| == 2 {
      var diff := DiffLetters(possible[0], possible[1]);
      FilterCounts(allWords, Distinguishes(diff));
      FilterIsSubsequence(allWords, Distinguishes(diff));
      forall w: Word | w in allWords ensures (exists c :: c in diff && c in w) <==>
        exists i :: 0 <= i < 5 && possible[0][i] != possible[1][i] && (possible[0][i] in w || possible[1][i] in w)
      {
        if exists c :: c in diff && c in w {
          var c :| c in diff && c in w;
          var i :| 0 <= i < 5 && possible[0][i] != possible[1][i] && (c == possible[0][i] || c == possible[1][i]);
        }
        if exists i :: 0 <= i < 5 && possible[0][i] != possible[1][i] && (possible[0][i] in w || possible[1][i] in w) {
          var i :| 0 <= i < 5 && possible[0][i] != possible[1][i] && (possible[0][i] in w || possible[1][i] in w);
          assert possible[0][i] in diff && possible[1][i] in diff;
        }
      }
    }
  }

  /** An example with two candidates: LIGHT and NIGHT differ only in L and N. */
  lemma LightNightExample(allWords: seq<Word>)
    ensures DiffLetters("LIGHT", "NIGHT") == {'L', 'N'}
    ensures forall w :: w in GuessPool(allWords, ["LIGHT", "NIGHT"]) <==>
      w in allWords && |Letters(w)| == 5 && ('L' in w || 'N' in w)
  {
    var w1: Word, w2: Word := "LIGHT", "NIGHT";
    assert w1[0] != w2[0];
    assert forall i :: 1 <= i < 5 ==> w1[i] == w2[i];
    var diff := DiffLetters(w1, w2);
    assert diff == {'L', 'N'};
    forall w: Word ensures Distinguishes(diff)(w) <==> |Letters(w)| == 5 && ('L' in w || 'N' in w) {
      if 'L' in w {
        assert 'L' in diff && 'L' in w;
      } else if 'N' in w {
        assert 'N' in diff && 'N' in w;
      }
    }
  }

  /** The words scored for the next guess, by the number of candidates. */
  function GuessPool(allWords: seq<Word>, possible: seq<Word>): seq<Word>
  {
    if |possible| > 50 then (if |allWords| > 1000 then allWords[..1000] else allWords)
    else if |possible| > 2 then allWords
    else DistinguishingWords(allWords, possible)
  }

  /** The score of every word of `pool`, in order. */
  function Scores(pool: seq<Word>, possible: seq<Word>, tested: set<char>, excluded: set<char>): (s: seq<real>)
    ensures |s| == |pool|
  {
    seq(|pool|, j requires 0 <= j < |pool| => Score(pool[j], possible, tested, excluded))
  }

  /** The scan of `find_best_guess` over a sequence of scores: the index of
      the entry kept (or -1) and its score, starting from the threshold -1 and
      replacing the kept entry only on a strictly larger score. */
  function ScanBest(scores: seq<real>): (best: (int, real))
    ensures -1 <= best.0 < |scores|
  {
    if |scores| == 0 then (-1, -1.0)
    else
      var prev := ScanBest(scores[..|scores|-1]);
      if scores[|scores|-1] > prev.1 then (|scores| - 1, scores[|scores|-1]) else prev
  }

  /** One more step of the scan. */
  lemma ScanStep(scores: seq<real>, k: nat)
    requires k < |scores|
    ensures ScanBest(scores[..k+1])
      == if scores[k] > ScanBest(scores[..k]).1 then (k, scores[k]) else ScanBest(scores[..k])
  {
    assert scores[..k+1][..k] == scores[..k];
  }

  /** `k` is the first index of a maximal score, and that score is above -1. */
  ghost predicate IsFirstBest(scores: seq<real>, k: int)
  {
    && 0 <= k < |scores|
    && scores[k] > -1.0
    && (forall j :: 0 <= j < |scores| ==> scores[j] <= scores[k])
    && (forall j :: 0 <= j < k ==> scores[j] < scores[k])
  }

  /** The scan keeps nothing exactly when no score exceeds -1, and otherwise
      keeps the first maximal score. */
  lemma {:induction false} ScanBestSpec(scores: seq<real>)
    ensures ScanBest(scores).0 == -1 ==>
      ScanBest(scores).1 == -1.0 && forall j :: 0 <= j < |scores| ==> scores[j] <= -1.0
    ensures ScanBest(scores).0 >= 0 ==>
      ScanBest(scores).1 == scores[ScanBest(scores).0] && IsFirstBest(scores, ScanBest(scores).0)
  {
    if |scores| > 0 {
      var n := |scores|;
      var prefix := scores[..n-1];
      ScanBestSpec(prefix);
      assert forall j :: 0 <= j < n - 1 ==> prefix[j] == scores[j];
    }
  }

  /** The next guess: none without candidates, the candidate itself when one
      is left, otherwise the first best-scoring pool word, falling back to the
      first candidate. */
  function BestGuess(allWords: seq<Word>, possible: seq<Word>, tested: set<char>, excluded: set<char>): (best: Option<Word>)
    ensures best.None? <==> |possible| == 0
    ensures best.Some? ==> best.value in possible || best.value in allWords
  {
    if |possible| == 0 then None
    else if |possible| == 1 then Some(possible[0])
    else
      var pool := GuessPool(allWords, possible);
      if |possible| <= 2 && |pool| == 0 then Some(possible[0])
      else
        var k := ScanBest(Scores(pool, possible, tested, excluded)).0;
        if k >= 0 then Some(pool[k]) else Some(possible[0])
  }

  /** The selection rule stated outright. */
  lemma BestGuessSpec(allWords: seq<Word>, possible: seq<Word>, tested: set<char>, excluded: set<char>)
    ensures |possible| == 1 ==> BestGuess(allWords, possible, tested, excluded) == Some(possible[0])
    ensures |possible| >= 2 ==>
      var pool := GuessPool(allWords, possible);
      var scores := Scores(pool, possible, tested, excluded);
      var best := BestGuess(allWords, possible, tested, excluded);
      || (exists k :: IsFirstBest(scores, k) && best == Some(pool[k]))
      || ((forall j :: 0 <= j < |pool| ==> scores[j] <= -1.0) && best == Some(possible[0]))
  {
    if |possible| >= 2 {
      var pool := GuessPool(allWords, possible);
      var scores := Scores(pool, possible, tested, excluded);
      ScanBestSpec(scores);
      var k := ScanBest(scores).0;
      if k >= 0 && !(|possible| <= 2 && |pool| == 0) {
        assert IsFirstBest(scores, k) && BestGuess(allWords, possible, tested, excluded) == Some(pool[k]);
      }
    }
  }
}
