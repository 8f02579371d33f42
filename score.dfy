/** Scoring: `score_answers` counts the positions where the detected answer equals the key. */
module Scoring {
  import opened Raster
  import opened Detection

  /** `e == k` for a detected answer and a one-letter key entry: `None` equals no letter,
      and the letter `chr(ord('A') + i)` equals `k` when the code points agree. */
  predicate Matches(e: Answer, k: char)
    ensures Matches(e, k) ==> e.Letter?
  {
    e.Letter? && Code(e.index) == k as int
  }

  /** A key letter at or after `A` is matched by exactly one detected answer, the letter of
      its own option; `None` matches nothing. */
  lemma MatchesOneLetter(k: char, e: Answer)
    ensures !Matches(NoAnswer, k)
    ensures Matches(e, k) <==> 'A' as int <= k as int && e == Letter(k as int - 'A' as int)
  {
  }

  /** The number of agreeing positions among the first `n`. */
  function MatchCount(e: seq<Answer>, key: seq<char>, n: nat): (c: nat)
    requires n <= |e| && n <= |key|
    ensures c <= n
  {
    if n == 0 then 0
    else MatchCount(e, key, n - 1) + (if Matches(e[n - 1], key[n - 1]) then 1 else 0)
  }

  /** The length of `zip(extracted, key)`. */
  function ZipLength(e: seq<Answer>, key: seq<char>): nat
  {
    Min(|e|, |key|)
  }

  /** The score of a subject: agreeing positions within the zipped range. */
  function Score(e: seq<Answer>, key: seq<char>): (s: nat)
    ensures s <= |e| && s <= |key|
  {
    MatchCount(e, key, ZipLength(e, key))
  }

  /** `score_answers`: walk the zipped pairs and add one for each equal pair. */
  method ScoreAnswers(extracted: seq<Answer>, key: seq<char>) returns (score: nat)
    ensures score == Score(extracted, key)
  {
    score := 0;
    var n := ZipLength(extracted, key);
    for i := 0 to n
      invariant score == MatchCount(extracted, key, i)
    {
      if Matches(extracted[i], key[i]) {
        score := score + 1;
      }
    }
  }

  /** The positions that earn a point. */
  ghost function MatchingPositions(e: seq<Answer>, key: seq<char>, n: nat): set<nat>
    requires n <= |e| && n <= |key|
  {
    set i: nat | i < n && Matches(e[i], key[i])
  }

  /** Extending the range by one position adds that position exactly when it agrees. */
  lemma MatchingPositionsStep(e: seq<Answer>, key: seq<char>, n: nat)
    requires 0 < n <= |e| && n <= |key|
    ensures MatchingPositions(e, key, n)
         == MatchingPositions(e, key, n - 1) + (if Matches(e[n - 1], key[n - 1]) then {n - 1} else {})
  {
    var now := MatchingPositions(e, key, n);
    var after := MatchingPositions(e, key, n - 1) + (if Matches(e[n - 1], key[n - 1]) then {n - 1} else {});
    forall i: nat
      ensures i in now <==> i in after
    {
      if i < n - 1 {
        assert (i in now) == Matches(e[i], key[i]) == (i in after);
      }
    }
  }

  /** One point per agreeing position, and no other points. */
  lemma {:induction false} MatchCountIsPositions(e: seq<Answer>, key: seq<char>, n: nat)
    requires n <= |e| && n <= |key|
    ensures MatchCount(e, key, n) == |MatchingPositions(e, key, n)|
  {
    if n > 0 {
      MatchCountIsPositions(e, key, n - 1);
      MatchingPositionsStep(e, key, n);
      assert n - 1 !in MatchingPositions(e, key, n - 1);
    }
  }

  /** The score is the number of positions of the zipped range where answer and key agree. */
  lemma ScoreIsMatchingPositions(e: seq<Answer>, key: seq<char>)
    ensures Score(e, key) == |MatchingPositions(e, key, ZipLength(e, key))|
  {
    MatchCountIsPositions(e, key, ZipLength(e, key));
  }

  /** `None` never earns a point: a subject with no detected answers scores zero. */
  lemma {:induction false} BlankScoresZero(e: seq<Answer>, key: seq<char>, n: nat)
    requires n <= |e| && n <= |key|
    requires forall i :: 0 <= i < n ==> e[i] == NoAnswer
    ensures MatchCount(e, key, n) == 0
  {
    if n > 0 {
      BlankScoresZero(e, key, n - 1);
    }
  }

  /** Full marks exactly when every zipped position agrees. */
  lemma {:induction false} FullMarks(e: seq<Answer>, key: seq<char>, n: nat)
    requires n <= |e| && n <= |key|
    ensures MatchCount(e, key, n) == n <==> forall i :: 0 <= i < n ==> Matches(e[i], key[i])
  {
    if n > 0 {
      FullMarks(e, key, n - 1);
    }
  }

  /** Changing one answer inside the zipped range changes only that position's contribution. */
  lemma {:induction false} MatchCountUpdate(e: seq<Answer>, key: seq<char>, n: nat, p: nat, a: Answer)
    requires n <= |e| && n <= |key| && p < |e|
    ensures MatchCount(e[p := a], key, n)
         == MatchCount(e, key, n)
            - (if p < n && Matches(e[p], key[p]) then 1 else 0)
            + (if p < n && Matches(a, key[p]) then 1 else 0)
  {
    if n > 0 {
      MatchCountUpdate(e, key, n - 1, p, a);
    }
  }

  /** Turning one non-matching answer inside the zipped range into a matching one raises
      the score by exactly one. */
  lemma ScoreRaise(e: seq<Answer>, key: seq<char>, p: nat, a: Answer)
    requires p < |e| && p < |key|
    requires !Matches(e[p], key[p]) && Matches(a, key[p])
    ensures Score(e[p := a], key) == Score(e, key) + 1
  {
    MatchCountUpdate(e, key, ZipLength(e, key), p, a);
  }

  /** Answers beyond the end of the key (or key entries beyond the answers) are never scored. */
  lemma {:induction false} MatchCountPrefix(e: seq<Answer>, key: seq<char>, e': seq<Answer>, key': seq<char>, n: nat)
    requires n <= |e| && n <= |key| && n <= |e'| && n <= |key'|
    requires e[..n] == e'[..n] && key[..n] == key'[..n]
    ensures MatchCount(e, key, n) == MatchCount(e', key', n)
  {
    if n > 0 {
      assert e[n - 1] == e[..n][n - 1] && e'[n - 1] == e'[..n][n - 1];
      assert key[n - 1] == key[..n][n - 1] && key'[n - 1] == key'[..n][n - 1];
      assert e[..n - 1] == e[..n][..n - 1] && e'[..n - 1] == e'[..n][..n - 1];
      assert key[..n - 1] == key[..n][..n - 1] && key'[..n - 1] == key'[..n][..n - 1];
      MatchCountPrefix(e, key, e', key', n - 1);
    }
  }

  /** `zip` truncates: extra answers after the last key entry do not change the score. */
  lemma ScoreIgnoresExtraAnswers(e: seq<Answer>, key: seq<char>, extra: seq<Answer>)
    requires |key| <= |e|
    ensures Score(e + extra, key) == Score(e, key)
  {
    assert (e + extra)[..|key|] == e[..|key|];
    MatchCountPrefix(e + extra, key, e, key, |key|);
  }
}
