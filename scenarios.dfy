/** Worked cases of the whole pipeline on small rasters: a clear mark, a blank question,
    the strict one-half threshold, the area of the last rectangle, and scoring with a blank. */
module Scenarios {
  import opened Raster
  import opened Detection
  import opened Scoring
  import opened Exam

  /** A question of four 2-by-2 options side by side on the top two rows. */
  function FourOptions(): Question
  {
    [Rect(0, 0, 2, 2), Rect(2, 0, 2, 2), Rect(4, 0, 2, 2), Rect(6, 0, 2, 2)]
  }

  /** Two rows of eight pixels, with option B (columns 2 and 3) inked. */
  function MarkedB(): Grid
  {
    var row := [255, 255, 0, 0, 255, 255, 255, 255];
    [row, row]
  }

  /** The same two rows of eight pixels with nothing inked. */
  function Blank(): Grid
  {
    var row := [255, 255, 255, 255, 255, 255, 255, 255];
    [row, row]
  }

  /** The fill counts of the four options when only B is inked. */
  lemma MarkedBCounts()
    ensures FillCounts(MarkedB(), FourOptions()) == [0, 4, 0, 0]
  {
    var g, q := MarkedB(), FourOptions();
    assert Inside(g, q[1]) && AllCells(g, q[1], IsInk);
    FullRegion(g, q[1], IsInk);
    forall j | 0 <= j < 4 && j != 1
      ensures FillCount(g, q[j]) == 0
    {
      assert NoCell(g, q[j], IsInk);
      EmptyRegion(g, q[j], IsInk);
    }
  }

  /** Option B fully inked, the others blank: the sheet reads `B` and scores 1 against key `B`. */
  lemma ClearMarkIsDetected()
    ensures Detect(MarkedB(), [FourOptions()]) == [Letter(1)]
    ensures Score(Detect(MarkedB(), [FourOptions()]), "B") == 1
  {
    var g, q := MarkedB(), FourOptions();
    MarkedBCounts();
    var c := FillCounts(g, q);
    var a := Decide(g, q);
    assert 2 * c[1] > LastRect(q).Area();
    assert a.Letter? && IsFirstMax(c, a.index);
    assert a.index == 1;
    assert Detect(g, [q]) == [a];
  }

  /** Nothing inked in any option: the sheet reads no answer and scores 0 against key `B`. */
  lemma BlankSheetScoresZero()
    ensures Detect(Blank(), [FourOptions()]) == [NoAnswer]
    ensures Score(Detect(Blank(), [FourOptions()]), "B") == 0
  {
    var g, q := Blank(), FourOptions();
    BlankHasNoInk();
    BlankQuestion(g, q);
    assert Detect(g, [q]) == [Decide(g, q)];
  }

  /** No option of the blank raster holds an inked pixel. */
  lemma BlankHasNoInk()
    ensures forall j :: 0 <= j < 4 ==> NoCell(Blank(), FourOptions()[j], IsInk)
  {
    var g := Blank();
    assert forall j, i :: 0 <= j < |g| && 0 <= i < |g[j]| ==> !IsInk(g[j][i]);
  }

  /** Exactly half of a 2-by-1 option inked is not enough; three quarters of a 2-by-2 option is. */
  lemma HalfFilledIsBlank()
    ensures Decide([[0, 255]], [Rect(0, 0, 2, 1)]) == NoAnswer
    ensures Decide([[0, 0], [0, 255]], [Rect(0, 0, 2, 2)]) == Letter(0)
  {
    var half := [[0, 255]];
    assert Slice(half, 0, 1) == half;
    assert Slice(half[0], 0, 2) == [0, 255];
    assert [0, 255][..1] == [0];
    assert FillCount(half, Rect(0, 0, 2, 1)) == 1;

    var most := [[0, 0], [0, 255]];
    assert Slice(most, 0, 2) == most;
    assert Slice(most[0], 0, 2) == [0, 0] && Slice(most[1], 0, 2) == [0, 255];
    assert [0, 0][..1] == [0];
    assert most[1..] == [[0, 255]];
    assert FillCount(most, Rect(0, 0, 2, 2)) == 3;
  }

  /** The threshold reads the area of the question's last rectangle, not the winner's: a fully
      inked 1-by-1 option beside a blank 2-by-2 last option is not accepted. */
  lemma SmallWinnerBigLastRectangle()
    ensures Decide([[0, 255, 255], [255, 255, 255]], [Rect(0, 0, 1, 1), Rect(1, 0, 2, 2)]) == NoAnswer
  {
    var g := [[0, 255, 255], [255, 255, 255]];
    var q := [Rect(0, 0, 1, 1), Rect(1, 0, 2, 2)];
    assert Inside(g, q[0]) && AllCells(g, q[0], IsInk);
    FullRegion(g, q[0], IsInk);
    assert NoCell(g, q[1], IsInk);
    EmptyRegion(g, q[1], IsInk);
    HalfIsNotEnough(g, q);
  }

  /** And the reverse: a fully inked 2-by-2 option beside a blank 1-by-1 last option is accepted. */
  lemma BigWinnerSmallLastRectangle()
    ensures Decide([[0, 0, 255], [0, 0, 255]], [Rect(0, 0, 2, 2), Rect(2, 0, 1, 1)]) == Letter(0)
  {
    var g := [[0, 0, 255], [0, 0, 255]];
    var q := [Rect(0, 0, 2, 2), Rect(2, 0, 1, 1)];
    assert Inside(g, q[0]) && AllCells(g, q[0], IsInk);
    FullRegion(g, q[0], IsInk);
    assert NoCell(g, q[1], IsInk);
    EmptyRegion(g, q[1], IsInk);
    var c := FillCounts(g, q);
    assert c == [4, 0];
    var a := Decide(g, q);
    assert 2 * FillCount(g, q[0]) > LastRect(q).Area();
    assert a.Letter? && IsFirstMax(c, a.index);
  }

  /** Key `ABCD` against answers A, B, C and a blank: three points, and a one-subject total of 3. */
  lemma ThreeOfFour()
    ensures Score([Letter(0), Letter(1), Letter(2), NoAnswer], "ABCD") == 3
    ensures var e := [Letter(0), Letter(1), Letter(2), NoAnswer];
            Total([("subject1", SubjectResult(Score(e, "ABCD"), e))]) == 3
  {
    var e: seq<Answer> := [Letter(0), Letter(1), Letter(2), NoAnswer];
    assert Matches(e[0], 'A') && Matches(e[1], 'B') && Matches(e[2], 'C') && !Matches(e[3], 'D');
    assert MatchCount(e, "ABCD", 4) == 3;
  }
}
