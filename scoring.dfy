/** Scoring a candidate guess (`calculate_expected_value`): the candidates
    are grouped by the feedback the guess would get, and the expected size of
    the group left after guessing is turned into an information gain, adjusted
    by a new-letter bonus and two penalties. Scores are exact rationals. */
module Scoring {
  import opened Words
  import opened PatternEngine

  function HasPattern(guess: Word, p: Pattern): Word -> bool
  {
    (w: Word) => ResultPattern(guess, w) == p
  }

  /** The candidates that would answer `guess` with feedback `p`, in order. */
  function Group(guess: Word, pool: seq<Word>, p: Pattern): seq<Word>
  {
    Filter(pool, HasPattern(guess, p))
  }

  /** The distinct feedback patterns of the candidates, in order of first
      appearance (the key order of the grouping dictionary). */
  function GroupKeys(guess: Word, pool: seq<Word>): seq<Pattern>
  {
    if |pool| == 0 then []
    else
      var rest := GroupKeys(guess, pool[..|pool|-1]);
      var p := ResultPattern(guess, pool[|pool|-1]);
      if p in rest then rest else rest + [p]
  }

  /** A pattern is a key exactly when some candidate produces it. */
  lemma {:induction false} GroupKeysMembers(guess: Word, pool: seq<Word>)
    ensures forall p :: p in GroupKeys(guess, pool) <==> Group(guess, pool, p) != []
  {
    if |pool| > 0 {
      var n := |pool|;
      GroupKeysMembers(guess, pool[..n-1]);
      assert pool == pool[..n-1] + [pool[n-1]];
      forall q ensures Group(guess, pool, q) == Group(guess, pool[..n-1], q) + (if q == ResultPattern(guess, pool[n-1]) then [pool[n-1]] else []) {
        FilterAppend(pool[..n-1], pool[n-1], HasPattern(guess, q));
      }
    }
  }

  /** No element occurs twice. */
  ghost predicate Distinct(s: seq<Pattern>)
  {
    forall i, j :: 0 <= i < j < |s| ==> s[i] != s[j]
  }

  /** No pattern is a key twice. */
  lemma {:induction false} GroupKeysDistinct(guess: Word, pool: seq<Word>)
    ensures Distinct(GroupKeys(guess, pool))
  {
    if |pool| > 0 {
      var n := |pool|;
      var rest, p := GroupKeys(guess, pool[..n-1]), ResultPattern(guess, pool[n-1]);
      GroupKeysDistinct(guess, pool[..n-1]);
      assert GroupKeys(guess, pool) == if p in rest then rest else rest + [p];
      if p !in rest {
        var ks := rest + [p];
        forall i, j | 0 <= i < j < |ks| ensures ks[i] != ks[j] {
          assert ks[i] == rest[i];
          if j < |rest| {
            assert ks[j] == rest[j];
          } else {
            assert rest[i] in rest;
          }
        }
      }
    }
  }

  /** One more candidate: its pattern joins the keys unless already there. */
  lemma KeysExtend(guess: Word, pool: seq<Word>, k: nat)
    requires k < |pool|
    ensures var keys, p := GroupKeys(guess, pool[..k]), ResultPattern(guess, pool[k]);
      GroupKeys(guess, pool[..k+1]) == if p in keys then keys else keys + [p]
  {
    assert pool[..k+1][..k] == pool[..k];
  }

  /** One more candidate is appended to its own group and to no other. */
  lemma GroupExtend(guess: Word, pool: seq<Word>, k: nat, q: Pattern)
    requires k < |pool|
    ensures Group(guess, pool[..k+1], q) == Group(guess, pool[..k], q) + (if q == ResultPattern(guess, pool[k]) then [pool[k]] else [])
  {
    assert pool[..k+1] == pool[..k] + [pool[k]];
    FilterAppend(pool[..k], pool[k], HasPattern(guess, q));
  }

  /** `groups` is the grouping dictionary of `pool` under `guess`, and
      `keys` its keys in order of first appearance. */
  ghost predicate Grouped(guess: Word, pool: seq<Word>, groups: map<Pattern, seq<Word>>, keys: seq<Pattern>)
  {
    && keys == GroupKeys(guess, pool)
    && (forall p :: p in groups <==> p in keys)
    && (forall p :: p in groups ==> groups[p] == Group(guess, pool, p))
  }

  /** Appending the next candidate to its pattern's group (creating the
      group and its key when new) keeps the dictionary exact. */
  lemma GroupingStep(guess: Word, pool: seq<Word>, k: nat, groups: map<Pattern, seq<Word>>, keys: seq<Pattern>)
    requires k < |pool|
    requires Grouped(guess, pool[..k], groups, keys)
    ensures var p := ResultPattern(guess, pool[k]);
      Grouped(guess, pool[..k+1],
        if p in groups then groups[p := groups[p] + [pool[k]]] else groups[p := [pool[k]]],
        if p in groups then keys else keys + [p])
  {
    if ResultPattern(guess, pool[k]) in groups {
      KnownKeyStep(guess, pool, k, groups, keys);
    } else {
      NewKeyStep(guess, pool, k, groups, keys);
    }
  }

  lemma KnownKeyStep(guess: Word, pool: seq<Word>, k: nat, groups: map<Pattern, seq<Word>>, keys: seq<Pattern>)
    requires k < |pool|
    requires Grouped(guess, pool[..k], groups, keys)
    requires ResultPattern(guess, pool[k]) in groups
    ensures var p := ResultPattern(guess, pool[k]);
      Grouped(guess, pool[..k+1], groups[p := groups[p] + [pool[k]]], keys)
  {
    var p := ResultPattern(guess, pool[k]);
    KeysExtend(guess, pool, k);
    GroupValuesStep(guess, pool, k, groups, groups[p]);
  }

  lemma NewKeyStep(guess: Word, pool: seq<Word>, k: nat, groups: map<Pattern, seq<Word>>, keys: seq<Pattern>)
    requires k < |pool|
    requires Grouped(guess, pool[..k], groups, keys)
    requires ResultPattern(guess, pool[k]) !in groups
    ensures var p := ResultPattern(guess, pool[k]);
      Grouped(guess, pool[..k+1], groups[p := [pool[k]]], keys + [p])
  {
    var p := ResultPattern(guess, pool[k]);
    KeysExtend(guess, pool, k);
    GroupKeysMembers(guess, pool[..k]);
    assert p !in keys;
    assert [] + [pool[k]] == [pool[k]];
    GroupValuesStep(guess, pool, k, groups, []);
  }

  /** The group values alone: the next candidate goes to the end of its
      pattern's group. */
  lemma GroupValuesStep(guess: Word, pool: seq<Word>, k: nat, groups: map<Pattern, seq<Word>>, prior: seq<Word>)
    requires k < |pool|
    requires forall q :: q in groups ==> groups[q] == Group(guess, pool[..k], q)
    requires prior == Group(guess, pool[..k], ResultPattern(guess, pool[k]))
    ensures var groups' := groups[ResultPattern(guess, pool[k]) := prior + [pool[k]]];
      forall q :: q in groups' ==> groups'[q] == Group(guess, pool[..k+1], q)
  {
    var p := ResultPattern(guess, pool[k]);
    var groups' := groups[p := prior + [pool[k]]];
    forall q | q in groups' ensures groups'[q] == Group(guess, pool[..k+1], q) {
      GroupExtend(guess, pool, k, q);
    }
  }

  /** Sum of the group sizes over `keys`. */
  function GroupSizes(guess: Word, pool: seq<Word>, keys: seq<Pattern>): nat
  {
    if |keys| == 0 then 0
    else GroupSizes(guess, pool, keys[..|keys|-1]) + |Group(guess, pool, keys[|keys|-1])|
  }

  /** Sum of the squared group sizes over `keys`. */
  function GroupSquares(guess: Word, pool: seq<Word>, keys: seq<Pattern>): nat
  {
    if |keys| == 0 then 0
    else GroupSquares(guess, pool, keys[..|keys|-1]) + Square(|Group(guess, pool, keys[|keys|-1])|)
  }

  function Square(g: nat): nat
  {
    g * g
  }

  /** One group's term of the expected-remaining sum: its share of the `n`
      candidates times its size. */
  function Share(size: nat, n: nat): real
    requires n > 0
  {
    (size as real / n as real) * size as real
  }

  /** The sum of the groups' terms over `keys`, in order. */
  function WeightedSizes(guess: Word, pool: seq<Word>, keys: seq<Pattern>, n: nat): real
    requires n > 0
  {
    if |keys| == 0 then 0.0
    else WeightedSizes(guess, pool, keys[..|keys|-1], n) + Share(|Group(guess, pool, keys[|keys|-1])|, n)
  }

  /** Expected number of candidates left after the guess: each group weighted
      by its share of the pool. */
  function ExpectedRemaining(guess: Word, pool: seq<Word>): real
    requires |pool| > 0
  {
    WeightedSizes(guess, pool, GroupKeys(guess, pool), |pool|)
  }

  function NewLetterBonus(guess: Word, tested: set<char>): real
  {
    2.0 * |Letters(guess) - tested| as real
  }

  function RepeatPenalty(guess: Word, pool: seq<Word>): real
  {
    var unique := |Letters(guess)|;
    if unique < 5 && |pool| > 10 then (5 - unique) as real * 1.5 else 0.0
  }

  function ExcludedPenalty(guess: Word, excluded: set<char>): real
  {
    5.0 * |Letters(guess) * excluded| as real
  }

  /** The score of `guess` against the candidates `pool` and the tracked
      letters. */
  function Score(guess: Word, pool: seq<Word>, tested: set<char>, excluded: set<char>): real
  {
    if |pool| <= 1 then 0.0
    else
      (|pool| as real - ExpectedRemaining(guess, pool))
      + NewLetterBonus(guess, tested)
      - RepeatPenalty(guess, pool)
      - ExcludedPenalty(guess, excluded)
  }

  /** Adding one candidate adds one to the size sum exactly when its pattern
      is among the (distinct) keys. */
  lemma {:induction false} GroupSizesExtend(guess: Word, pool: seq<Word>, w: Word, keys: seq<Pattern>)
    requires Distinct(keys)
    ensures GroupSizes(guess, pool + [w], keys)
         == GroupSizes(guess, pool, keys) + (if ResultPattern(guess, w) in keys then 1 else 0)
  {
    if |keys| > 0 {
      var ks, q := keys[..|keys|-1], keys[|keys|-1];
      assert keys == ks + [q];
      GroupSizesExtend(guess, pool, w, ks);
      FilterAppend(pool, w, HasPattern(guess, q));
      assert q !in ks;
    }
  }

  /** The groups partition the pool: every candidate lies in exactly the
      group of its own pattern, and the group sizes add up to the pool size. */
  lemma {:induction false} GroupPartition(guess: Word, pool: seq<Word>)
    ensures GroupSizes(guess, pool, GroupKeys(guess, pool)) == |pool|
    ensures forall w, p :: w in Group(guess, pool, p) <==> w in pool && ResultPattern(guess, w) == p
  {
    if |pool| > 0 {
      var n := |pool|;
      var pool', w := pool[..n-1], pool[n-1];
      assert pool == pool' + [w];
      GroupPartition(guess, pool');
      var ks := GroupKeys(guess, pool');
      var p := ResultPattern(guess, w);
      GroupKeysDistinct(guess, pool');
      GroupKeysMembers(guess, pool');
      GroupSizesExtend(guess, pool', w, ks);
      if p !in ks {
        assert Group(guess, pool', p) == [];
        FilterAppend(pool', w, HasPattern(guess, p));
        assert |Group(guess, pool, p)| == 1;
        assert (ks + [p])[..|ks|] == ks;
      }
    }
  }

  /** Squares of the group sizes lie between the size sum and its square. */
  lemma SquaresBetween(guess: Word, pool: seq<Word>, keys: seq<Pattern>)
    ensures GroupSizes(guess, pool, keys) <= GroupSquares(guess, pool, keys)
    ensures GroupSquares(guess, pool, keys) <= Square(GroupSizes(guess, pool, keys))
  {
    SizesBelowSquares(guess, pool, keys);
    SquaresBelowSquare(guess, pool, keys);
  }

  lemma {:induction false} SizesBelowSquares(guess: Word, pool: seq<Word>, keys: seq<Pattern>)
    ensures GroupSizes(guess, pool, keys) <= GroupSquares(guess, pool, keys)
  {
    if |keys| > 0 {
      var ks := keys[..|keys|-1];
      SizesBelowSquares(guess, pool, ks);
      SquareAtLeast(|Group(guess, pool, keys[|keys|-1])|);
    }
  }

  lemma SquareAtLeast(g: nat)
    ensures g <= Square(g)
  {
    if g > 0 {
      assert g * g == g * (g - 1) + g;
    }
  }

  lemma {:induction false} SquaresBelowSquare(guess: Word, pool: seq<Word>, keys: seq<Pattern>)
    ensures GroupSquares(guess, pool, keys) <= Square(GroupSizes(guess, pool, keys))
  {
    if |keys| > 0 {
      var ks := keys[..|keys|-1];
      SquaresBelowSquare(guess, pool, ks);
      var g := |Group(guess, pool, keys[|keys|-1])|;
      SquareStep(GroupSizes(guess, pool, ks), GroupSquares(guess, pool, ks), g,
                 GroupSizes(guess, pool, keys), GroupSquares(guess, pool, keys));
    }
  }

  lemma SquareStep(a: nat, b: nat, g: nat, s: nat, q: nat)
    requires b <= Square(a) && s == a + g && q == b + Square(g)
    ensures q <= Square(s)
  {
    assert (a + g) * (a + g) == a * a + 2 * a * g + g * g;
  }

  /** Between one and all candidates are expected to remain, so the
      information gain lies between 0 and one less than the pool size. */
  lemma ExpectedRemainingBounds(guess: Word, pool: seq<Word>)
    requires |pool| > 0
    ensures 1.0 <= ExpectedRemaining(guess, pool) <= |pool| as real
    ensures 0.0 <= |pool| as real - ExpectedRemaining(guess, pool) <= |pool| as real - 1.0
  {
    var keys := GroupKeys(guess, pool);
    WeightedIsSquares(guess, pool, keys, |pool|);
    GroupPartition(guess, pool);
    SquaresBetween(guess, pool, keys);
    DivisionBounds(GroupSquares(guess, pool, keys), |pool|);
  }

  lemma DivisionBounds(s: nat, n: nat)
    requires 1 <= n <= s <= Square(n)
    ensures 1.0 <= s as real / n as real <= n as real
  {
    QuotientAtLeastOne(s, n);
    QuotientAtMost(s, n);
  }

  lemma QuotientAtLeastOne(s: nat, n: nat)
    requires 1 <= n <= s
    ensures 1.0 <= s as real / n as real
  {
    assert (s as real / n as real) * n as real == s as real;
  }

  lemma QuotientAtMost(s: nat, n: nat)
    requires 1 <= n && s <= Square(n)
    ensures s as real / n as real <= n as real
  {
    assert (s as real / n as real) * n as real == s as real;
    assert (n * n) as real == n as real * n as real;
  }

  /** The same sum read off a grouping dictionary, over its keys in order
      (the `sum` over `result_groups.values()`). */
  function SumOverGroups(groups: map<Pattern, seq<Word>>, keys: seq<Pattern>, n: nat): real
    requires n > 0
    requires forall p :: p in keys ==> p in groups
  {
    if |keys| == 0 then 0.0
    else SumOverGroups(groups, keys[..|keys|-1], n) + Share(|groups[keys[|keys|-1]]|, n)
  }

  /** A dictionary holding each key's group gives the weighted group sum. */
  lemma {:induction false} SumOverGroupsSpec(guess: Word, pool: seq<Word>, groups: map<Pattern, seq<Word>>, keys: seq<Pattern>, n: nat)
    requires n > 0
    requires forall p :: p in keys ==> p in groups && groups[p] == Group(guess, pool, p)
    ensures SumOverGroups(groups, keys, n) == WeightedSizes(guess, pool, keys, n)
  {
    if |keys| > 0 {
      SumOverGroupsSpec(guess, pool, groups, keys[..|keys|-1], n);
    }
  }

  /** One term added to a partial sum `w` of `a / n` gives `b / n` for
      `b = a + g * g`. */
  lemma SquareSumStep(a: nat, g: nat, n: nat, w: real, b: nat)
    requires n > 0 && w == a as real / n as real && b == a + g * g
    ensures w + Share(g, n) == b as real / n as real
  {
    assert (g * g) as real == g as real * g as real;
  }

  /** The weighted sum is the sum of squared group sizes over `n`. */
  lemma {:induction false} WeightedIsSquares(guess: Word, pool: seq<Word>, keys: seq<Pattern>, n: nat)
    requires n > 0
    ensures WeightedSizes(guess, pool, keys, n) == GroupSquares(guess, pool, keys) as real / n as real
  {
    if |keys| == 0 {
      ZeroOver(n);
    } else {
      var ks := keys[..|keys|-1];
      WeightedIsSquares(guess, pool, ks, n);
      SquareSumStep(GroupSquares(guess, pool, ks), |Group(guess, pool, keys[|keys|-1])|, n,
        WeightedSizes(guess, pool, ks, n), GroupSquares(guess, pool, keys));
    }
  }

  lemma ZeroOver(n: nat)
    requires n > 0
    ensures 0.0 == 0 as real / n as real
  {
  }

  /** Every candidate of `pool` gets its own feedback from `guess`. */
  ghost predicate Separates(guess: Word, pool: seq<Word>)
  {
    forall i, j :: 0 <= i < j < |pool| ==> ResultPattern(guess, pool[i]) != ResultPattern(guess, pool[j])
  }

  /** A guess that separates the candidates leaves exactly one of them
      expected, so its gain is the largest possible, one less than the
      number of candidates. */
  lemma SeparatingGuess(guess: Word, pool: seq<Word>)
    requires |pool| > 0 && Separates(guess, pool)
    ensures ExpectedRemaining(guess, pool) == 1.0
  {
    var keys, n := GroupKeys(guess, pool), |pool|;
    forall p ensures |Group(guess, pool, p)| <= 1 {
      SingletonGroup(guess, pool, p);
    }
    SquaresAreSizes(guess, pool, keys);
    GroupPartition(guess, pool);
    WeightedIsSquares(guess, pool, keys, n);
    SelfQuotient(GroupSquares(guess, pool, keys), n);
  }

  /** The upper end of the score's range is reached: a guess that separates
      the candidates and brings five letters that are neither tested nor
      excluded scores the number of candidates plus 9. */
  lemma SeparatingScore(guess: Word, pool: seq<Word>, tested: set<char>, excluded: set<char>)
    requires |pool| >= 2 && Separates(guess, pool)
    requires |Letters(guess)| == 5 && Letters(guess) !! tested && Letters(guess) !! excluded
    ensures Score(guess, pool, tested, excluded) == |pool| as real + 9.0
  {
    SeparatingGuess(guess, pool);
    assert Letters(guess) - tested == Letters(guess);
    assert Letters(guess) * excluded == {};
  }

  lemma SelfQuotient(s: nat, n: nat)
    requires n > 0 && s == n
    ensures s as real / n as real == 1.0
  {
  }

  /** Under a separating guess no group holds more than one candidate. */
  lemma {:induction false} SingletonGroup(guess: Word, pool: seq<Word>, p: Pattern)
    requires Separates(guess, pool)
    ensures |Group(guess, pool, p)| <= 1
  {
    if |pool| > 0 {
      var n := |pool|;
      var pool' := pool[..n-1];
      assert pool == pool' + [pool[n-1]];
      SingletonGroup(guess, pool', p);
      FilterAppend(pool', pool[n-1], HasPattern(guess, p));
      if ResultPattern(guess, pool[n-1]) == p {
        forall j | 0 <= j < n - 1 ensures !HasPattern(guess, p)(pool'[j]) {
          assert ResultPattern(guess, pool[j]) != ResultPattern(guess, pool[n-1]);
        }
        FilterNone(pool', HasPattern(guess, p));
      }
    }
  }

  lemma {:induction false} SquaresAreSizes(guess: Word, pool: seq<Word>, keys: seq<Pattern>)
    requires forall p :: |Group(guess, pool, p)| <= 1
    ensures GroupSquares(guess, pool, keys) == GroupSizes(guess, pool, keys)
  {
    if |keys| > 0 {
      var ks := keys[..|keys|-1];
      SquaresAreSizes(guess, pool, ks);
      var g := |Group(guess, pool, keys[|keys|-1])|;
      assert g == 0 || g == 1;
      assert Square(g) == g;
      assert GroupSquares(guess, pool, keys) == GroupSquares(guess, pool, ks) + Square(g);
    }
  }

  /** The score's range: with at least two candidates it is at least
      -31 (the largest penalties, no gain) and at most the pool size
      plus 9 (the largest gain and bonus). */
  lemma ScoreBounds(guess: Word, pool: seq<Word>, tested: set<char>, excluded: set<char>)
    requires |pool| >= 2
    ensures -31.0 <= Score(guess, pool, tested, excluded) <= |pool| as real + 9.0
  {
    ExpectedRemainingBounds(guess, pool);
    LettersBound(guess);
    assert |Letters(guess) - tested| <= |Letters(guess)|;
    var a := Letters(guess);
    assert a == (a - excluded) + (a * excluded);
    assert (a - excluded) !! (a * excluded);
    assert |a| == |a - excluded| + |a * excluded|;
  }
}
