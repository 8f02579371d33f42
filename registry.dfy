/** The configured answer keys and bubble layouts (`ANSWER_KEYS`, `BUBBLE_POSITIONS`). */
module Registry {
  import opened Raster
  import opened Detection

  /** Width, in pixels, the normaliser resizes every sheet to; all coordinates refer to it. */
  const ReferenceWidth: nat := 600

  const QuestionsPerSubject: nat := 20
  const OptionsPerQuestion: nat := 4

  /** Python's list repetition `s * n`. */
  function Repeat(s: seq<char>, n: nat): (r: seq<char>)
    ensures |r| == |s| * n
    ensures forall i :: 0 <= i < |r| ==> |s| > 0 && r[i] == s[i % |s|]
  {
    if n == 0 || s == [] then []
    else
      var rest := Repeat(s, n - 1);
      MulSucc(n - 1, |s|);
      RepeatStep(s, rest);
      s + rest
  }

  /** One more copy of `s` in front keeps every element at its position modulo `|s|`. */
  lemma RepeatStep(s: seq<char>, rest: seq<char>)
    requires |s| > 0
    requires forall i :: 0 <= i < |rest| ==> rest[i] == s[i % |s|]
    ensures forall i :: 0 <= i < |s + rest| ==> (s + rest)[i] == s[i % |s|]
  {
    forall i | 0 <= i < |s + rest|
      ensures (s + rest)[i] == s[i % |s|]
    {
      if i < |s| {
        assert i % |s| == i;
      } else {
        ModShiftHolds(i, |s|);
        assert (s + rest)[i] == rest[i - |s|];
      }
    }
  }

  /** `(i - m) % m == i % m`, stated as a predicate so it can be instantiated per index. */
  predicate ModShift(i: int, m: int)
    requires m > 0
  {
    (i - m) % m == i % m
  }

  lemma ModShiftHolds(i: int, m: int)
    requires m > 0
    ensures ModShift(i, m)
  {
    var q, r := i / m, i % m;
    var q', r' := (i - m) / m, (i - m) % m;
    assert m * (q - 1 - q') == r' - r;
    var d := q - 1 - q';
    if d >= 1 {
      MulAtLeast(d, m);
    } else if d <= -1 {
      MulAtLeast(-d, m);
    }
  }

  lemma MulAtLeast(d: int, m: int)
    requires d >= 1 && m > 0
    ensures m * d >= m
  {
  }

  /** The layout of one subject's block of the sheet: 20 rows of 4 bubbles, each 20 by 20
      pixels, columns 25 pixels apart starting at `left`, rows 30 pixels apart starting at 20. */
  function SheetLayout(left: nat): (layout: Layout)
    ensures |layout| == QuestionsPerSubject
    ensures forall q :: 0 <= q < |layout| ==> |layout[q]| == OptionsPerQuestion && UniformArea(layout[q])
  {
    seq(QuestionsPerSubject, row requires 0 <= row < QuestionsPerSubject =>
      seq(OptionsPerQuestion, col requires 0 <= col < OptionsPerQuestion =>
        Rect(left + 25 * col, 20 + 30 * row, 20, 20)))
  }

  /** `BUBBLE_POSITIONS`: per exam version, the subjects in their dictionary order. */
  const BubblePositions: map<string, seq<(string, Layout)>> :=
    map["version1" := [("subject1", SheetLayout(10)), ("subject2", SheetLayout(150))]]

  /** `ANSWER_KEYS`: per exam version and subject, the correct letters. */
  const AnswerKeys: map<string, map<string, seq<char>>> :=
    map["version1" := map["subject1" := Repeat("ABCD", 5), "subject2" := Repeat("DCBA", 5)]]

  /** The properties one subject's configuration has: a key entry per question, four
      uniformly sized options per question, every option inside the reference width, and
      every key letter one of the question's option letters. */
  predicate SubjectConsistent(layout: Layout, key: seq<char>)
  {
    && |layout| == QuestionsPerSubject
    && |key| == |layout|
    && (forall q :: 0 <= q < |layout| ==> |layout[q]| == OptionsPerQuestion && UniformArea(layout[q]))
    && (forall q, o :: 0 <= q < |layout| && 0 <= o < |layout[q]| ==> layout[q][o].x + layout[q][o].w <= ReferenceWidth)
    && (forall q :: 0 <= q < |key| ==> 'A' as int <= key[q] as int < Code(OptionsPerQuestion))
  }

  lemma SheetLayoutShape(left: nat)
    requires left + 25 * (OptionsPerQuestion - 1) + 20 <= ReferenceWidth
    ensures |SheetLayout(left)| == QuestionsPerSubject
    ensures forall q :: 0 <= q < QuestionsPerSubject ==> |SheetLayout(left)[q]| == OptionsPerQuestion && UniformArea(SheetLayout(left)[q])
    ensures forall q, o :: 0 <= q < QuestionsPerSubject && 0 <= o < OptionsPerQuestion ==> SheetLayout(left)[q][o].x + SheetLayout(left)[q][o].w <= ReferenceWidth
  {
  }

  lemma KeyLetters(s: seq<char>, n: nat)
    requires forall i :: 0 <= i < |s| ==> 'A' <= s[i] <= 'D'
    ensures forall i :: 0 <= i < |Repeat(s, n)| ==> 'A' as int <= Repeat(s, n)[i] as int < Code(OptionsPerQuestion)
  {
  }

  /** Every configured subject has a key, and layout and key agree: 20 questions and 20
      letters, four equally sized options per question inside the 600-pixel width, and
      every key letter among A to D. */
  lemma RegistryConsistent()
    ensures forall v :: v in BubblePositions ==> v in AnswerKeys
    ensures forall v, s :: v in BubblePositions && 0 <= s < |BubblePositions[v]| ==>
              BubblePositions[v][s].0 in AnswerKeys[v]
              && SubjectConsistent(BubblePositions[v][s].1, AnswerKeys[v][BubblePositions[v][s].0])
  {
    SheetLayoutShape(10);
    SheetLayoutShape(150);
    KeyLetters("ABCD", 5);
    KeyLetters("DCBA", 5);
  }
}
