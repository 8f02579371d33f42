/** Mark detection: `detect_bubbles` decides, question by question, which option is marked. */
module Detection {
  import opened Raster

  /** The option rectangles of one question, in option order. */
  type Question = seq<Rect>

  /** The questions of one subject, in question order. */
  type Layout = seq<Question>

  /** A detected answer: `None`, or the letter `chr(ord('A') + index)`. */
  datatype Answer = NoAnswer | Letter(index: nat)

  /** Code point of the letter emitted for option `index`. */
  function Code(index: nat): int { 'A' as int + index }

  /** Every question has at least one option; `np.argmax` fails on an empty question. */
  predicate WellFormed(layout: Layout)
  {
    forall q :: 0 <= q < |layout| ==> |layout[q]| > 0
  }

  /** `k` is the first position of a maximum of `c`: nothing is larger, everything before is smaller. */
  predicate IsFirstMax(c: seq<nat>, k: nat)
  {
    k < |c| && (forall j :: 0 <= j < |c| ==> c[j] <= c[k]) && (forall j :: 0 <= j < k ==> c[j] < c[k])
  }

  /** `np.argmax`: the index of the first maximum. */
  function ArgMax(c: seq<nat>): (k: nat)
    requires |c| > 0
    ensures IsFirstMax(c, k)
  {
    if |c| == 1 then 0
    else
      var k := ArgMax(c[..|c| - 1]);
      if c[|c| - 1] > c[k] then |c| - 1 else k
  }

  /** The fill counts of the options of one question, in option order. */
  function FillCounts(g: Grid, q: Question): (c: seq<nat>)
    ensures |c| == |q|
    ensures forall j :: 0 <= j < |q| ==> c[j] <= q[j].Area()
  {
    seq(|q|, j requires 0 <= j < |q| => FillCount(g, q[j]))
  }

  /** The rectangle whose `w, h` the threshold reads: the loop variables left over from the
      last option of the question. */
  function LastRect(q: Question): Rect
    requires |q| > 0
  {
    q[|q| - 1]
  }

  /** The answer detected for one question: the first option with the largest fill count,
      provided that count is more than half the area of the question's LAST rectangle. */
  function Decide(g: Grid, q: Question): (a: Answer)
    requires |q| > 0
    ensures a.Letter? ==> a.index < |q| && IsFirstMax(FillCounts(g, q), a.index)
    ensures a.Letter? <==> exists j :: 0 <= j < |q| && 2 * FillCount(g, q[j]) > LastRect(q).Area()
  {
    var counts := FillCounts(g, q);
    var k := ArgMax(counts);
    var area := LastRect(q).Area();
    assert forall j :: 0 <= j < |q| ==> counts[j] == FillCount(g, q[j]);
    if 2 * counts[k] > area then Letter(k) else NoAnswer
  }

  /** The answers of a whole subject, one per question in question order. */
  function Detect(g: Grid, layout: Layout): (answers: seq<Answer>)
    requires WellFormed(layout)
    ensures |answers| == |layout|
    ensures forall q :: 0 <= q < |layout| && answers[q].Letter? ==> answers[q].index < |layout[q]|
  {
    seq(|layout|, q requires 0 <= q < |layout| => Decide(g, layout[q]))
  }

  /** `detect_bubbles`: for each question, collect the fill counts of its options, take the
      first maximum and compare it against the area of the last rectangle visited. */
  method DetectBubbles(g: Grid, layout: Layout) returns (answers: seq<Answer>)
    requires WellFormed(layout)
    ensures |answers| == |layout|
    ensures forall q :: 0 <= q < |layout| ==> answers[q] == Decide(g, layout[q])
    ensures answers == Detect(g, layout)
  {
    answers := [];
    for q := 0 to |layout|
      invariant |answers| == q
      invariant forall p :: 0 <= p < q ==> answers[p] == Decide(g, layout[p])
    {
      var question := layout[q];
      var fillCounts, w, h := CollectFillCounts(g, question);
      var maxIdx := ArgMax(fillCounts);
      var maxVal := fillCounts[maxIdx];
      var answer := if 2 * maxVal > w * h then Letter(maxIdx) else NoAnswer;
      DecideFromCounts(g, question, fillCounts, w, h);
      answers := answers + [answer];
    }
    DetectIsPointwise(g, layout, answers);
  }

  /** The inner loop of `detect_bubbles`: the fill count of every option in order, and the
      `w, h` of the last option visited, which stay in scope after the loop. */
  method CollectFillCounts(g: Grid, question: Question) returns (fillCounts: seq<nat>, w: nat, h: nat)
    requires |question| > 0
    ensures fillCounts == FillCounts(g, question)
    ensures w == LastRect(question).w && h == LastRect(question).h
  {
    fillCounts := [];
    w, h := 0, 0;
    for j := 0 to |question|
      invariant |fillCounts| == j
      invariant forall i :: 0 <= i < j ==> fillCounts[i] == FillCount(g, question[i])
      invariant j > 0 ==> w == question[j - 1].w && h == question[j - 1].h
    {
      var r := question[j];
      w, h := r.w, r.h;
      fillCounts := fillCounts + [FillCount(g, r)];
    }
  }

  /** The decision of the loop body, from the collected counts and the leftover `w, h`, is `Decide`. */
  lemma DecideFromCounts(g: Grid, q: Question, counts: seq<nat>, w: nat, h: nat)
    requires |q| > 0 && counts == FillCounts(g, q)
    requires w == LastRect(q).w && h == LastRect(q).h
    ensures Decide(g, q) == if 2 * counts[ArgMax(counts)] > w * h then Letter(ArgMax(counts)) else NoAnswer
  {
  }

  /** A sequence holding `Decide` of each question, in order, is `Detect` of the layout. */
  lemma DetectIsPointwise(g: Grid, layout: Layout, answers: seq<Answer>)
    requires WellFormed(layout)
    requires |answers| == |layout|
    requires forall q :: 0 <= q < |layout| ==> answers[q] == Decide(g, layout[q])
    ensures answers == Detect(g, layout)
  {
  }

  /** Tie-break: among options with equal, maximal fill counts, the lowest index wins. */
  lemma TieGoesToLowestIndex(g: Grid, q: Question, i: nat, j: nat)
    requires i < j < |q|
    requires FillCount(g, q[i]) == FillCount(g, q[j])
    requires forall k :: 0 <= k < |q| ==> FillCount(g, q[k]) <= FillCount(g, q[i])
    ensures Decide(g, q) != Letter(j)
    ensures Decide(g, q).Letter? ==> Decide(g, q).index <= i
    ensures 2 * FillCount(g, q[i]) > LastRect(q).Area() ==> Decide(g, q).Letter?
  {
    var c := FillCounts(g, q);
    var k := ArgMax(c);
    assert c[i] == FillCount(g, q[i]) && c[j] == FillCount(g, q[j]);
    assert k <= i;
  }

  /** Strict threshold: a best count of exactly half the last area yields no answer. */
  lemma HalfIsNotEnough(g: Grid, q: Question)
    requires |q| > 0
    requires forall j :: 0 <= j < |q| ==> 2 * FillCount(g, q[j]) <= LastRect(q).Area()
    ensures Decide(g, q) == NoAnswer
  {
  }

  /** When every option of a question has zero area, the question has no answer. */
  lemma ZeroAreaQuestion(g: Grid, q: Question)
    requires |q| > 0
    requires forall j :: 0 <= j < |q| ==> q[j].Area() == 0
    ensures Decide(g, q) == NoAnswer
  {
    forall j | 0 <= j < |q|
      ensures FillCount(g, q[j]) == 0
    {
      ZeroAreaRegion(g, q[j], IsInk);
    }
  }

  /** A question none of whose options holds a single counted pixel has no answer. */
  lemma BlankQuestion(g: Grid, q: Question)
    requires |q| > 0
    requires forall j :: 0 <= j < |q| ==> NoCell(g, q[j], IsInk)
    ensures Decide(g, q) == NoAnswer
  {
    forall j | 0 <= j < |q|
      ensures FillCount(g, q[j]) == 0
    {
      EmptyRegion(g, q[j], IsInk);
    }
  }

  /** All options of the question have the same area. */
  predicate UniformArea(q: Question)
  {
    forall j :: 0 <= j < |q| ==> q[j].Area() == q[0].Area()
  }

  /** When all options share one area, reading `w, h` from the last rectangle is the same as
      comparing the winner against its own area. */
  lemma UniformAreaThreshold(g: Grid, q: Question)
    requires |q| > 0 && UniformArea(q)
    ensures Decide(g, q).Letter? ==> 2 * FillCount(g, q[Decide(g, q).index]) > q[Decide(g, q).index].Area()
    ensures Decide(g, q).NoAnswer? ==> forall j :: 0 <= j < |q| ==> 2 * FillCount(g, q[j]) <= q[j].Area()
  {
    var a := Decide(g, q);
    if a.Letter? {
      var c := FillCounts(g, q);
      assert c[a.index] == FillCount(g, q[a.index]);
      assert forall j :: 0 <= j < |q| ==> c[j] <= c[a.index];
      assert q[a.index].Area() == LastRect(q).Area();
      var e :| 0 <= e < |q| && 2 * FillCount(g, q[e]) > LastRect(q).Area();
      assert c[e] == FillCount(g, q[e]);
    }
  }
}
