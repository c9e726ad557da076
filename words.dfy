/** Basic vocabulary of the solver: words, feedback patterns, guess records,
    letter counts, an order-preserving filter and the dictionary preparation
    done by the solver's constructor. */
module Words {

  /** Feedback for one guess position ("green", "yellow", "grey"). */
  datatype Feedback = Green | Yellow | Grey

  /** A dictionary word: exactly five characters. */
  type Word = w: seq<char> | |w| == 5 witness "AAAAA"

  /** The feedback for a whole guess: one symbol per position. */
  type Pattern = p: seq<Feedback> | |p| == 5 witness [Grey, Grey, Grey, Grey, Grey]

  /** One step of a game's history: the word guessed and the feedback it got. */
  datatype GuessRecord = GuessRecord(guess: Word, pattern: Pattern)

  datatype Option<T> = None | Some(value: T)

  function Min(a: int, b: int): int
  {
    if a <= b then a else b
  }

  /** The set of distinct letters of a word (Python's `set(word)`). */
  function Letters(w: seq<char>): set<char>
  {
    set c | c in w
  }

  lemma {:induction false} LettersBound(w: seq<char>)
    ensures |Letters(w)| <= |w|
    ensures |w| > 0 ==> |Letters(w)| >= 1
  {
    if |w| > 0 {
      var n := |w|;
      LettersBound(w[..n-1]);
      assert w == w[..n-1] + [w[n-1]];
      assert Letters(w) == Letters(w[..n-1]) + {w[n-1]};
      assert w[0] in Letters(w);
    }
  }

  /** Number of occurrences of `c` in `s` (Python's `s.count(c)`). */
  function Occurrences(s: seq<char>, c: char): (r: nat)
    ensures r <= |s|
    ensures r > 0 <==> c in s
  {
    if |s| == 0 then 0
    else
      assert s == s[..|s|-1] + [s[|s|-1]];
      Occurrences(s[..|s|-1], c) + (if s[|s|-1] == c then 1 else 0)
  }

  /** The count is the letter's multiplicity in the word. */
  lemma {:induction false} OccurrencesCount(s: seq<char>, c: char)
    ensures Occurrences(s, c) == multiset(s)[c]
  {
    if |s| > 0 {
      var s', y := s[..|s|-1], s[|s|-1];
      assert s == s' + [y];
      OccurrencesCount(s', c);
      assert multiset(s) == multiset(s') + multiset{y};
    }
  }

  /** Number of positions of `g` that carry letter `c` and whose feedback in
      `r` is green or yellow. */
  function Hits(g: seq<char>, r: seq<Feedback>, c: char): nat
    requires |g| == |r|
  {
    if |g| == 0 then 0
    else Hits(g[..|g|-1], r[..|r|-1], c) + (if g[|g|-1] == c && r[|r|-1] != Grey then 1 else 0)
  }

  lemma {:induction false} HitsAtMostOccurrences(g: seq<char>, r: seq<Feedback>, c: char)
    requires |g| == |r|
    ensures Hits(g, r, c) <= Occurrences(g, c)
  {
    if |g| > 0 {
      HitsAtMostOccurrences(g[..|g|-1], r[..|r|-1], c);
    }
  }

  /** When every position carrying `c` is green or yellow, the hits for `c`
      are all its occurrences. */
  lemma {:induction false} HitsAllOccurrences(g: seq<char>, r: seq<Feedback>, c: char)
    requires |g| == |r|
    requires forall m :: 0 <= m < |g| && g[m] == c ==> r[m] != Grey
    ensures Hits(g, r, c) == Occurrences(g, c)
  {
    if |g| > 0 {
      HitsAllOccurrences(g[..|g|-1], r[..|r|-1], c);
    }
  }

  /** A positive hit count is witnessed by a green or yellow position. */
  lemma {:induction false} HitsWitness(g: seq<char>, r: seq<Feedback>, c: char)
    requires |g| == |r|
    requires Hits(g, r, c) > 0
    ensures exists j :: 0 <= j < |g| && r[j] != Grey && g[j] == c
  {
    var n := |g|;
    if !(g[n-1] == c && r[n-1] != Grey) {
      HitsWitness(g[..n-1], r[..n-1], c);
      var j :| 0 <= j < n - 1 && r[..n-1][j] != Grey && g[..n-1][j] == c;
      assert r[j] != Grey && g[j] == c;
    }
  }

  /** Turning one grey position into yellow adds one hit for its letter. */
  lemma {:induction false} HitsMarkYellow(g: seq<char>, r: seq<Feedback>, i: int, c: char)
    requires |g| == |r| && 0 <= i < |r| && r[i] == Grey
    ensures Hits(g, r[i := Yellow], c) == Hits(g, r, c) + (if g[i] == c then 1 else 0)
  {
    var n := |g|;
    var r' := r[i := Yellow];
    if i == n - 1 {
      assert r'[..n-1] == r[..n-1];
    } else {
      assert r'[..n-1] == r[..n-1][i := Yellow];
      HitsMarkYellow(g[..n-1], r[..n-1], i, c);
    }
  }

  /** The elements of `s` satisfying `p`, in their original order (a Python
      list comprehension with an `if`). */
  function Filter<T(!new)>(s: seq<T>, p: T -> bool): (r: seq<T>)
    ensures |r| <= |s|
    ensures forall x :: x in r <==> x in s && p(x)
  {
    if |s| == 0 then []
    else
      assert s == s[..|s|-1] + [s[|s|-1]];
      Filter(s[..|s|-1], p) + (if p(s[|s|-1]) then [s[|s|-1]] else [])
  }

  /** The filter keeps every occurrence of a kept element and none of the
      others, so repeated elements survive as often as they occur. */
  lemma {:induction false} FilterCounts<T(!new)>(s: seq<T>, p: T -> bool)
    ensures forall x :: multiset(Filter(s, p))[x] == if p(x) then multiset(s)[x] else 0
  {
    if |s| > 0 {
      var s', y := s[..|s|-1], s[|s|-1];
      assert s == s' + [y];
      FilterCounts(s', p);
      assert multiset(s) == multiset(s') + multiset{y};
    }
  }

  lemma FilterAppend<T(!new)>(s: seq<T>, x: T, p: T -> bool)
    ensures Filter(s + [x], p) == Filter(s, p) + (if p(x) then [x] else [])
  {
    assert (s + [x])[..|s|] == s;
  }

  /** Nothing satisfies the condition: nothing is kept. */
  lemma {:induction false} FilterNone<T(!new)>(s: seq<T>, p: T -> bool)
    requires forall i :: 0 <= i < |s| ==> !p(s[i])
    ensures Filter(s, p) == []
  {
    if |s| > 0 {
      FilterNone(s[..|s|-1], p);
    }
  }

  /** Filtering twice is filtering once by the conjunction. */
  lemma {:induction false} FilterFilter<T(!new)>(s: seq<T>, p: T -> bool, q: T -> bool, pq: T -> bool)
    requires forall x :: pq(x) == (p(x) && q(x))
    ensures Filter(Filter(s, p), q) == Filter(s, pq)
  {
    if |s| > 0 {
      var s', x := s[..|s|-1], s[|s|-1];
      assert s == s' + [x];
      FilterFilter(s', p, q, pq);
      FilterAppend(s', x, p);
      FilterAppend(s', x, pq);
      assert pq(x) == (p(x) && q(x));
      if p(x) {
        FilterAppend(Filter(s', p), x, q);
        calc {
          Filter(Filter(s, p), q);
          Filter(Filter(s', p) + [x], q);
          Filter(Filter(s', p), q) + (if q(x) then [x] else []);
          Filter(s, pq);
        }
      } else {
        assert Filter(s', p) + [] == Filter(s', p);
        assert Filter(s', pq) + [] == Filter(s', pq);
        calc {
          Filter(Filter(s, p), q);
          Filter(Filter(s', p), q);
          Filter(s, pq);
        }
      }
    }
  }

  /** A filter that keeps everything is the identity. */
  lemma {:induction false} FilterAll<T(!new)>(s: seq<T>, p: T -> bool)
    requires forall x :: x in s ==> p(x)
    ensures Filter(s, p) == s
  {
    if |s| > 0 {
      var s' := s[..|s|-1];
      assert forall x :: x in s' ==> x in s;
      FilterAll(s', p);
      assert s == s' + [s[|s|-1]];
    }
  }

  /** `a` can be obtained from `b` by deleting elements. */
  ghost predicate IsSubsequence<T>(a: seq<T>, b: seq<T>)
    decreases |b|
  {
    if |b| == 0 then |a| == 0
    else
      (|a| > 0 && a[|a|-1] == b[|b|-1] && IsSubsequence(a[..|a|-1], b[..|b|-1]))
      || IsSubsequence(a, b[..|b|-1])
  }

  lemma {:induction false} FilterIsSubsequence<T(!new)>(s: seq<T>, p: T -> bool)
    ensures IsSubsequence(Filter(s, p), s)
  {
    if |s| > 0 {
      var s' := s[..|s|-1];
      FilterIsSubsequence(s', p);
      var r := Filter(s, p);
      assert s == s' + [s[|s|-1]];
      FilterAppend(s', s[|s|-1], p);
      if p(s[|s|-1]) {
        assert r[..|r|-1] == Filter(s', p);
        assert r[|r|-1] == s[|s|-1];
      } else {
        assert r == Filter(s', p);
      }
    }
  }

  /** ASCII upper-casing of one character. */
  function UpperChar(c: char): char
  {
    if 'a' <= c <= 'z' then (c as int - 32) as char else c
  }

  function UpperWord(w: seq<char>): (u: seq<char>)
    ensures |u| == |w|
  {
    seq(|w|, i requires 0 <= i < |w| => UpperChar(w[i]))
  }

  /** Every entry of `wordList` upper-cased, in order. */
  function UpperAll(wordList: seq<seq<char>>): (u: seq<seq<char>>)
    ensures |u| == |wordList|
  {
    seq(|wordList|, i requires 0 <= i < |wordList| => UpperWord(wordList[i]))
  }

  function FiveLong(): seq<char> -> bool
  {
    (v: seq<char>) => |v| == 5
  }

  /** The solver's word list: the five-character entries of `wordList`,
      upper-cased, in their original order. */
  function Dictionary(wordList: seq<seq<char>>): (r: seq<Word>)
    ensures |r| == |Filter(wordList, FiveLong())|
    ensures IsSubsequence<seq<char>>(r, UpperAll(wordList))
    ensures forall v :: v in wordList && |v| == 5 ==> UpperWord(v) in r
    ensures forall w :: w in r ==> exists v :: v in wordList && |v| == 5 && UpperWord(v) == w
    ensures forall w, i :: w in r && 0 <= i < 5 ==> !('a' <= w[i] <= 'z')
  {
    if |wordList| == 0 then []
    else
      var n := |wordList|;
      assert wordList == wordList[..n-1] + [wordList[n-1]];
      assert UpperAll(wordList)[..n-1] == UpperAll(wordList[..n-1]);
      var rest := Dictionary(wordList[..n-1]);
      var v := wordList[n-1];
      if |v| == 5 then
        assert (rest + [UpperWord(v)])[..|rest|] == rest;
        rest + [UpperWord(v)]
      else rest
  }
}
