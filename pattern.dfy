/** The feedback rule: the two-pass green/yellow/grey computation of
    `get_result_pattern`, written as functions, and what it guarantees. */
module PatternEngine {
  import opened Words

  /** Number of indices of `s` that are in `used` and carry letter `c`. */
  function UsedCount(s: seq<char>, used: set<int>, c: char): nat
  {
    if |s| == 0 then 0
    else UsedCount(s[..|s|-1], used, c) + (if |s| - 1 in used && s[|s|-1] == c then 1 else 0)
  }

  lemma {:induction false} UsedCountIgnores(s: seq<char>, used: set<int>, k: int, c: char)
    requires k >= |s|
    ensures UsedCount(s, used + {k}, c) == UsedCount(s, used, c)
  {
    if |s| > 0 {
      UsedCountIgnores(s[..|s|-1], used, k, c);
    }
  }

  /** Consuming a fresh answer index adds one to the count of its letter. */
  lemma {:induction false} UsedCountAdd(s: seq<char>, used: set<int>, k: int, c: char)
    requires 0 <= k < |s| && k !in used
    ensures UsedCount(s, used + {k}, c) == UsedCount(s, used, c) + (if s[k] == c then 1 else 0)
  {
    var n := |s|;
    if k == n - 1 {
      UsedCountIgnores(s[..n-1], used, k, c);
    } else {
      UsedCountAdd(s[..n-1], used, k, c);
    }
  }

  lemma {:induction false} UsedCountBound(s: seq<char>, used: set<int>, c: char)
    ensures UsedCount(s, used, c) <= Occurrences(s, c)
  {
    if |s| > 0 {
      UsedCountBound(s[..|s|-1], used, c);
    }
  }

  /** Once every occurrence of `c` is consumed, the count is all of them. */
  lemma {:induction false} UsedCountFull(s: seq<char>, used: set<int>, c: char)
    requires forall m :: 0 <= m < |s| && s[m] == c ==> m in used
    ensures UsedCount(s, used, c) == Occurrences(s, c)
  {
    if |s| > 0 {
      var s' := s[..|s|-1];
      assert forall m :: 0 <= m < |s'| && s'[m] == c ==> m in used by {
        forall m | 0 <= m < |s'| && s'[m] == c ensures m in used {
          assert s[m] == c;
        }
      }
      UsedCountFull(s', used, c);
    }
  }

  /** Hits equal consumed answer letters when exactly the matching positions
      are coloured and consumed. */
  lemma {:induction false} HitsMatchUsed(g: seq<char>, a: seq<char>, r: seq<Feedback>, used: set<int>, c: char)
    requires |g| == |a| == |r|
    requires forall m :: 0 <= m < |g| ==> (r[m] != Grey <==> g[m] == a[m])
    requires forall m :: 0 <= m < |g| ==> (m in used <==> g[m] == a[m])
    ensures Hits(g, r, c) == UsedCount(a, used, c)
  {
    var n := |g|;
    if n > 0 {
      var g', a', r' := g[..n-1], a[..n-1], r[..n-1];
      assert forall m :: 0 <= m < n - 1 ==> g'[m] == g[m] && a'[m] == a[m] && r'[m] == r[m];
      HitsMatchUsed(g', a', r', used, c);
    }
  }

  /** Pass 1: green exactly where the letters agree. */
  function GreenPass(guess: Word, answer: Word): Pattern
  {
    seq(5, i requires 0 <= i < 5 => if guess[i] == answer[i] then Green else Grey)
  }

  /** The answer indices consumed by pass 1. */
  function GreenIndices(guess: Word, answer: Word): set<int>
  {
    set i | 0 <= i < 5 && guess[i] == answer[i]
  }

  /** The first answer index `k >= j` not yet consumed whose letter is `c`,
      or 5 when there is none (the inner scan of pass 2). */
  function FirstUnused(answer: Word, used: set<int>, c: char, j: nat): (k: nat)
    requires j <= 5
    ensures j <= k <= 5
    ensures k < 5 ==> k !in used && answer[k] == c
    ensures forall m :: j <= m < k ==> m in used || answer[m] != c
    decreases 5 - j
  {
    if j == 5 then 5
    else if j !in used && answer[j] == c then j
    else FirstUnused(answer, used, c, j + 1)
  }

  /** Pass 2 from position `i` on, with the feedback `r` and the consumed
      answer indices `used` so far; yields the final pair. */
  function YellowPass(guess: Word, answer: Word, r: Pattern, used: set<int>, i: nat): (Pattern, set<int>)
    requires i <= 5
    decreases 5 - i
  {
    if i == 5 then (r, used)
    else if r[i] == Grey then
      var k := FirstUnused(answer, used, guess[i], 0);
      if k < 5 then YellowPass(guess, answer, r[i := Yellow], used + {k}, i + 1)
      else YellowPass(guess, answer, r, used, i + 1)
    else YellowPass(guess, answer, r, used, i + 1)
  }

  /** Both passes, starting pass 2 from pass 1's result. */
  function PatternRun(guess: Word, answer: Word): (Pattern, set<int>)
  {
    YellowPass(guess, answer, GreenPass(guess, answer), GreenIndices(guess, answer), 0)
  }

  /** The feedback `guess` receives when the hidden word is `answer`. */
  function ResultPattern(guess: Word, answer: Word): Pattern
  {
    PatternRun(guess, answer).0
  }

  function AllGreen(): Pattern
  {
    [Green, Green, Green, Green, Green]
  }

  /** What holds of the feedback and the consumed indices after pass 2 has
      looked at positions `0 .. i-1`. Pass 2 is followed by two invariants
      over the same `Shape`: this one tracks the consumed index set, which
      gives the per-letter coloured count; `CountsUpTo` and `RuleUpTo` below
      track where the yellows fall. They are kept as separate proofs because
      one invariant holding both counting quantifiers sends the verifier into a
      matching loop. */
  ghost predicate PassInvariant(guess: Word, answer: Word, r: Pattern, used: set<int>, i: nat)
  {
    && Shape(guess, answer, r, i)
    && (forall k :: 0 <= k < 5 && guess[k] == answer[k] ==> k in used)
    && (forall c :: Hits(guess, r, c) == UsedCount(answer, used, c))
    && (forall k :: 0 <= k < i && r[k] == Grey ==>
          forall m :: 0 <= m < 5 && answer[m] == guess[k] ==> m in used)
    && (forall k :: 0 <= k < 5 && r[k] == Yellow ==> guess[k] in answer)
  }

  lemma GreenPassInvariant(guess: Word, answer: Word)
    ensures PassInvariant(guess, answer, GreenPass(guess, answer), GreenIndices(guess, answer), 0)
  {
    forall c ensures Hits(guess, GreenPass(guess, answer), c) == UsedCount(answer, GreenIndices(guess, answer), c) {
      HitsMatchUsed(guess, answer, GreenPass(guess, answer), GreenIndices(guess, answer), c);
    }
  }

  lemma {:induction false} YellowPassKeeps(guess: Word, answer: Word, r: Pattern, used: set<int>, i: nat)
    requires PassInvariant(guess, answer, r, used, i)
    ensures PassInvariant(guess, answer, YellowPass(guess, answer, r, used, i).0, YellowPass(guess, answer, r, used, i).1, 5)
    decreases 5 - i
  {
    if i < 5 {
      if r[i] == Grey {
        var k := FirstUnused(answer, used, guess[i], 0);
        if k < 5 {
          var r', used' := r[i := Yellow], used + {k};
          forall c ensures Hits(guess, r', c) == UsedCount(answer, used', c) {
            HitsMarkYellow(guess, r, i, c);
            UsedCountAdd(answer, used, k, c);
          }
          assert PassInvariant(guess, answer, r', used', i + 1);
          YellowPassKeeps(guess, answer, r', used', i + 1);
        } else {
          assert PassInvariant(guess, answer, r, used, i + 1);
          YellowPassKeeps(guess, answer, r, used, i + 1);
        }
      } else {
        YellowPassKeeps(guess, answer, r, used, i + 1);
      }
    }
  }

  /** Positions below `n` where the guess has letter `c` and is green. */
  function GreensBefore(guess: Word, answer: Word, c: char, n: nat): nat
    requires n <= 5
  {
    if n == 0 then 0
    else GreensBefore(guess, answer, c, n - 1) + (if guess[n-1] == c && guess[n-1] == answer[n-1] then 1 else 0)
  }

  /** Positions below `n` where the guess has letter `c` and is not green. */
  function NonGreensBefore(guess: Word, answer: Word, c: char, n: nat): nat
    requires n <= 5
  {
    if n == 0 then 0
    else NonGreensBefore(guess, answer, c, n - 1) + (if guess[n-1] == c && guess[n-1] != answer[n-1] then 1 else 0)
  }

  /** The answer's occurrences of `c` consumed by pass 1, i.e. the green
      positions holding `c`. It equals `GreensBefore(guess, answer, c, 5)`
      (`GreenCountIsGreens`); the loop invariants use this form, counted on
      the consumed set the loop updates, because the position count with its
      literal bound 5 is unrolled by the verifier wherever it occurs, and the
      stated rule uses the position count, which reads directly. */
  function GreenCount(guess: Word, answer: Word, c: char): nat
  {
    UsedCount(answer, GreenIndices(guess, answer), c)
  }

  /** After the greens of letter `guess[i]` and its non-green positions left
      of `i`, the answer still has an occurrence of it to spare. */
  function HasRoom(guess: Word, answer: Word, i: int): bool
    requires 0 <= i < 5
  {
    GreenCount(guess, answer, guess[i]) + NonGreensBefore(guess, answer, guess[i], i) < Occurrences(answer, guess[i])
  }

  /** Pass 1's consumed count of a letter is its number of green positions. */
  lemma {:induction false} GreenIndicesCount(guess: Word, answer: Word, c: char, n: nat)
    requires n <= 5
    ensures UsedCount(answer[..n], GreenIndices(guess, answer), c) == GreensBefore(guess, answer, c, n)
  {
    if n > 0 {
      assert answer[..n][..n-1] == answer[..n-1];
      GreenIndicesCount(guess, answer, c, n - 1);
    }
  }

  lemma GreenCountIsGreens(guess: Word, answer: Word, c: char)
    ensures GreenCount(guess, answer, c) == GreensBefore(guess, answer, c, 5)
  {
    GreenIndicesCount(guess, answer, c, 5);
    assert answer[..5] == answer;
  }

  /** The inner scan finds a free index for `c` exactly when fewer of the
      answer's `c`s are consumed than the answer holds. */
  lemma FirstUnusedFound(answer: Word, used: set<int>, c: char)
    ensures FirstUnused(answer, used, c, 0) < 5 <==> UsedCount(answer, used, c) < Occurrences(answer, c)
  {
    var k := FirstUnused(answer, used, c, 0);
    if k < 5 {
      UsedCountAdd(answer, used, k, c);
      UsedCountBound(answer, used + {k}, c);
    } else {
      UsedCountFull(answer, used, c);
    }
  }

  /** Pass 2 has looked at positions `0 .. i-1`: green exactly where the
      letters agree, and no yellow from `i` on. */
  ghost predicate Shape(guess: Word, answer: Word, r: Pattern, i: nat)
  {
    && i <= 5
    && (forall k :: 0 <= k < 5 ==> (r[k] == Green <==> guess[k] == answer[k]))
    && (forall k :: i <= k < 5 ==> r[k] != Yellow)
  }

  /** Per letter, the consumed answer indices are its greens plus its
      non-green positions below `i`, capped by the answer's count. */
  ghost predicate CountsUpTo(guess: Word, answer: Word, used: set<int>, i: nat)
    requires i <= 5
  {
    forall c {:trigger UsedCount(answer, used, c)} ::
      UsedCount(answer, used, c)
      == Min(GreenCount(guess, answer, c) + NonGreensBefore(guess, answer, c, i), Occurrences(answer, c))
  }

  /** Every non-green position below `i` is yellow exactly when it has room. */
  ghost predicate RuleUpTo(guess: Word, answer: Word, r: Pattern, i: nat)
    requires i <= 5
  {
    forall k :: 0 <= k < i && guess[k] != answer[k] ==> (r[k] == Yellow <==> HasRoom(guess, answer, k))
  }

  lemma GreenPassOrder(guess: Word, answer: Word)
    ensures Shape(guess, answer, GreenPass(guess, answer), 0)
    ensures CountsUpTo(guess, answer, GreenIndices(guess, answer), 0)
  {
    forall c ensures UsedCount(answer, GreenIndices(guess, answer), c)
      == Min(GreenCount(guess, answer, c) + NonGreensBefore(guess, answer, c, 0), Occurrences(answer, c))
    {
      UsedCountBound(answer, GreenIndices(guess, answer), c);
    }
  }

  /** At a non-green position the scan finds an index exactly when it has room. */
  lemma CountsRoom(guess: Word, answer: Word, used: set<int>, i: nat)
    requires i < 5 && CountsUpTo(guess, answer, used, i)
    ensures FirstUnused(answer, used, guess[i], 0) < 5 <==> HasRoom(guess, answer, i)
  {
    FirstUnusedFound(answer, used, guess[i]);
    assert UsedCount(answer, used, guess[i])
      == Min(GreenCount(guess, answer, guess[i]) + NonGreensBefore(guess, answer, guess[i], i), Occurrences(answer, guess[i]));
  }

  /** The counts after a yellow at non-green position `i`, consuming `k`. */
  lemma CountsYellow(guess: Word, answer: Word, used: set<int>, i: nat, k: nat)
    requires i < 5 && k < 5 && k !in used && answer[k] == guess[i] && guess[i] != answer[i]
    requires CountsUpTo(guess, answer, used, i) && HasRoom(guess, answer, i)
    ensures CountsUpTo(guess, answer, used + {k}, i + 1)
  {
    forall d ensures UsedCount(answer, used + {k}, d)
      == Min(GreenCount(guess, answer, d) + NonGreensBefore(guess, answer, d, i + 1), Occurrences(answer, d))
    {
      CountYellowAt(guess, answer, used, i, k, d, UsedCount(answer, used, d));
    }
  }

  lemma CountYellowAt(guess: Word, answer: Word, used: set<int>, i: nat, k: nat, d: char, u: nat)
    requires i < 5 && k < 5 && k !in used && answer[k] == guess[i] && guess[i] != answer[i]
    requires u == UsedCount(answer, used, d)
    requires u == Min(GreenCount(guess, answer, d) + NonGreensBefore(guess, answer, d, i), Occurrences(answer, d))
    requires HasRoom(guess, answer, i)
    ensures UsedCount(answer, used + {k}, d)
      == Min(GreenCount(guess, answer, d) + NonGreensBefore(guess, answer, d, i + 1), Occurrences(answer, d))
  {
    UsedCountAdd(answer, used, k, d);
    var g, n, o := GreenCount(guess, answer, d), NonGreensBefore(guess, answer, d, i), Occurrences(answer, d);
    assert NonGreensBefore(guess, answer, d, i + 1) == n + (if guess[i] == d then 1 else 0);
    if d == guess[i] {
      MinStepUp(u, g + n, o);
    }
  }

  lemma MinStepUp(u: int, s: int, o: int)
    requires u == Min(s, o) && s < o
    ensures u + 1 == Min(s + 1, o)
  {
  }

  /** The counts after a non-green position `i` without room: nothing is
      consumed, and the letter's count was already capped. */
  lemma CountsGrey(guess: Word, answer: Word, used: set<int>, i: nat)
    requires i < 5 && guess[i] != answer[i]
    requires CountsUpTo(guess, answer, used, i) && !HasRoom(guess, answer, i)
    ensures CountsUpTo(guess, answer, used, i + 1)
  {
    forall d ensures UsedCount(answer, used, d)
      == Min(GreenCount(guess, answer, d) + NonGreensBefore(guess, answer, d, i + 1), Occurrences(answer, d))
    {
      var g, n, o := GreenCount(guess, answer, d), NonGreensBefore(guess, answer, d, i), Occurrences(answer, d);
      assert UsedCount(answer, used, d) == Min(g + n, o);
      assert NonGreensBefore(guess, answer, d, i + 1) == n + (if guess[i] == d then 1 else 0);
    }
  }

  /** The counts after a green position: unchanged. */
  lemma CountsGreen(guess: Word, answer: Word, used: set<int>, i: nat)
    requires i < 5 && guess[i] == answer[i]
    requires CountsUpTo(guess, answer, used, i)
    ensures CountsUpTo(guess, answer, used, i + 1)
  {
    forall d ensures UsedCount(answer, used, d)
      == Min(GreenCount(guess, answer, d) + NonGreensBefore(guess, answer, d, i + 1), Occurrences(answer, d))
    {
      assert UsedCount(answer, used, d)
        == Min(GreenCount(guess, answer, d) + NonGreensBefore(guess, answer, d, i), Occurrences(answer, d));
      assert NonGreensBefore(guess, answer, d, i + 1) == NonGreensBefore(guess, answer, d, i);
    }
  }

  /** Deciding position `i` by its room keeps the rule for the positions so far. */
  lemma RuleStep(guess: Word, answer: Word, r: Pattern, r': Pattern, i: nat)
    requires i < 5 && RuleUpTo(guess, answer, r, i)
    requires forall k :: 0 <= k < i ==> r'[k] == r[k]
    requires guess[i] != answer[i] ==> (r'[i] == Yellow <==> HasRoom(guess, answer, i))
    ensures RuleUpTo(guess, answer, r', i + 1)
  {
  }

  /** Position `i` keeps its colour or turns from grey to yellow. */
  lemma ShapeStep(guess: Word, answer: Word, r: Pattern, i: nat, f: Feedback)
    requires i < 5 && Shape(guess, answer, r, i)
    requires f == r[i] || (r[i] == Grey && f == Yellow)
    ensures Shape(guess, answer, r[i := f], i + 1)
  {
  }

  lemma {:induction false} YellowPassOrder(guess: Word, answer: Word, r: Pattern, used: set<int>, i: nat)
    requires Shape(guess, answer, r, i) && CountsUpTo(guess, answer, used, i) && RuleUpTo(guess, answer, r, i)
    ensures RuleUpTo(guess, answer, YellowPass(guess, answer, r, used, i).0, 5)
    decreases 5 - i
  {
    if i < 5 {
      if r[i] == Grey {
        var k := FirstUnused(answer, used, guess[i], 0);
        CountsRoom(guess, answer, used, i);
        if k < 5 {
          var r' := r[i := Yellow];
          CountsYellow(guess, answer, used, i, k);
          RuleStep(guess, answer, r, r', i);
          ShapeStep(guess, answer, r, i, Yellow);
          YellowPassOrder(guess, answer, r', used + {k}, i + 1);
        } else {
          CountsGrey(guess, answer, used, i);
          RuleStep(guess, answer, r, r, i);
          ShapeStep(guess, answer, r, i, Grey);
          YellowPassOrder(guess, answer, r, used, i + 1);
        }
      } else {
        CountsGreen(guess, answer, used, i);
        RuleStep(guess, answer, r, r, i);
        ShapeStep(guess, answer, r, i, r[i]);
        YellowPassOrder(guess, answer, r, used, i + 1);
      }
    }
  }

  /** Yellow goes to a letter's leftmost non-green positions: a non-green
      position is yellow exactly when the answer has more occurrences of its
      letter than the letter's green positions plus its non-green positions
      further left. */
  lemma YellowLeftmost(guess: Word, answer: Word)
    ensures var r := ResultPattern(guess, answer);
      forall i :: 0 <= i < 5 && guess[i] != answer[i] ==>
        (r[i] == Yellow <==>
          GreensBefore(guess, answer, guess[i], 5) + NonGreensBefore(guess, answer, guess[i], i) < Occurrences(answer, guess[i]))
  {
    GreenPassOrder(guess, answer);
    YellowPassOrder(guess, answer, GreenPass(guess, answer), GreenIndices(guess, answer), 0);
    forall i | 0 <= i < 5 {
      GreenCountIsGreens(guess, answer, guess[i]);
    }
  }

  /** The feedback rule's guarantees: green exactly where the letters agree,
      yellow only for letters the answer has, a grey letter has had all its
      answer occurrences coloured elsewhere, and for each letter the number of
      coloured positions is the smaller of its counts in guess and answer
      (so never more than the answer holds); the yellows of a letter are its
      leftmost non-green positions. */
  lemma ResultPatternSpec(guess: Word, answer: Word)
    ensures var r := ResultPattern(guess, answer);
      && (forall i :: 0 <= i < 5 ==> (r[i] == Green <==> guess[i] == answer[i]))
      && (forall i :: 0 <= i < 5 && r[i] == Yellow ==> guess[i] in answer)
      && (forall i :: 0 <= i < 5 && r[i] == Grey ==> Hits(guess, r, guess[i]) == Occurrences(answer, guess[i]))
      && (forall c :: Hits(guess, r, c) <= Occurrences(answer, c))
      && (forall c :: Hits(guess, r, c) == Min(Occurrences(guess, c), Occurrences(answer, c)))
      && (forall i :: 0 <= i < 5 && guess[i] != answer[i] ==>
            (r[i] == Yellow <==>
              GreensBefore(guess, answer, guess[i], 5) + NonGreensBefore(guess, answer, guess[i], i) < Occurrences(answer, guess[i])))
  {
    YellowLeftmost(guess, answer);
    GreenPassInvariant(guess, answer);
    YellowPassKeeps(guess, answer, GreenPass(guess, answer), GreenIndices(guess, answer), 0);
    var (r, used) := PatternRun(guess, answer);
    forall i | 0 <= i < 5 && r[i] == Grey
      ensures Hits(guess, r, guess[i]) == Occurrences(answer, guess[i])
    {
      UsedCountFull(answer, used, guess[i]);
    }
    forall c ensures Hits(guess, r, c) == Min(Occurrences(guess, c), Occurrences(answer, c)) {
      UsedCountBound(answer, used, c);
      HitsAtMostOccurrences(guess, r, c);
      if forall m :: 0 <= m < 5 && guess[m] == c ==> r[m] != Grey {
        HitsAllOccurrences(guess, r, c);
      } else {
        var m :| 0 <= m < 5 && guess[m] == c && r[m] == Grey;
        UsedCountFull(answer, used, c);
      }
    }
  }

  /** The feedback rule stated on its own, position by position: green
      where the letters agree; elsewhere yellow exactly when the answer has
      more occurrences of the letter than the letter's greens plus its
      non-green positions further left; grey otherwise. */
  ghost predicate FollowsRule(guess: Word, answer: Word, r: Pattern)
  {
    && (forall i :: 0 <= i < 5 ==> (r[i] == Green <==> guess[i] == answer[i]))
    && (forall i :: 0 <= i < 5 && guess[i] != answer[i] ==>
          (r[i] == Yellow <==>
            GreensBefore(guess, answer, guess[i], 5) + NonGreensBefore(guess, answer, guess[i], i) < Occurrences(answer, guess[i])))
  }

  /** The two passes compute the one pattern that follows the rule. */
  lemma ResultPatternUnique(guess: Word, answer: Word, r: Pattern)
    ensures FollowsRule(guess, answer, r) <==> r == ResultPattern(guess, answer)
  {
    var p := ResultPattern(guess, answer);
    ResultPatternSpec(guess, answer);
    assert FollowsRule(guess, answer, p);
    if FollowsRule(guess, answer, r) {
      forall i | 0 <= i < 5 ensures r[i] == p[i] {
        if guess[i] != answer[i] && r[i] != Yellow {
          assert r[i] == Grey && p[i] == Grey;
        }
      }
    }
  }

  /** A word checked against itself is all green. */
  lemma SelfPatternAllGreen(w: Word)
    ensures ResultPattern(w, w) == AllGreen()
  {
    ResultPatternSpec(w, w);
    var r := ResultPattern(w, w);
    assert forall i :: 0 <= i < 5 ==> r[i] == Green;
  }

  /** A duplicate-letter example: SPEED against the hidden word ERASE. */
  lemma SpeedEraseExample()
    ensures ResultPattern("SPEED", "ERASE") == [Yellow, Grey, Yellow, Yellow, Grey]
  {
  }

  /** A repeated guess letter the answer lacks next to a letter it has once:
      only the leftmost E of EEABC is yellow against DDDDE. */
  lemma EeabcExample()
    ensures ResultPattern("EEABC", "DDDDE") == [Yellow, Grey, Grey, Grey, Grey]
  {
  }
}
