# OMR answer-sheet scoring, modelled in Dafny

This project models the scoring core of `omr.py`, a small optical-mark-recognition web
service. It covers four parts:

- the per-pixel binarisation rule of `preprocess_image`;
- `detect_bubbles`, which reads the marked option of each question from the binarised
  raster;
- `score_answers`, which compares the detected answers with an answer key;
- the subject loop of the upload handler, which runs detection and scoring per subject and
  sums the subject scores into a total.

The `ANSWER_KEYS` and `BUBBLE_POSITIONS` tables are model data.

The raster is `seq<seq<int>>`, indexed `g[y][x]` as numpy indexes the image array. It holds
binarised values. An option rectangle is `Rect(x, y, w, h)` with natural-number fields.

Modules, in dependency order:

- `Raster` (raster.dfy): Python slice clipping (`Slice`), counting, and the fill count of a
  rectangle. `FillCount` is the number of cells equal to 0 in `g[y:y+h, x:x+w]`.
- `Binarize` (binarize.dfy): the rule `0 if x > 128 else 255`. It proves that the fill count
  of the binarised raster counts the pixels whose luminance was *above* 128.
- `Detection` (detect.dfy): `ArgMax` (numpy's first maximum) and `Decide` (the answer to one
  question). `DetectBubbles` is the question loop of `detect_bubbles`, proved against
  `Decide`. `CollectFillCounts` is its inner loop over the options.
- `Scoring` (score.dfy): `Score`, the agreeing positions in the `zip` range.
  `ScoreAnswers` is the accumulator loop of `score_answers`, proved against `Score`.
- `Registry` (registry.dfy): the configured keys and layouts, and their consistency.
- `Exam` (exam.dfy): the subject loop and the total, as a pure function. It returns an error
  value for the two `KeyError` lookups.
- `Scenarios` (scenarios.dfy): worked cases on small rasters.

The model keeps these behaviours of the code as they are:

1. Bright pixels (luminance > 128) become 0, and the detector counts `== 0`. So the "fill
   count" counts bright pixels, despite the comment at omr.py:60
   (`Binarize.FillCountCountsBright`).
2. The threshold `max_val > 0.5*w*h` uses the `w, h` left over from the question's *last*
   rectangle, not the winner's. `Detection.CollectFillCounts` carries `w, h` as loop
   variables, and `Decide` reads `LastRect`. `Scenarios.SmallWinnerBigLastRectangle` shows that this
   matters when sizes differ. `Detection.UniformAreaThreshold` shows that it does not
   matter when all options of a question have the same size, as in the configured layouts
   (`Registry.RegistryConsistent`).
3. Slices clip at the raster edge (`Raster.Slice`, applied to rows and then to each row).
4. A question with no options makes `np.argmax` fail. This is the precondition
   `Detection.WellFormed`.
5. `zip` truncates, so scoring stops at the shorter of answers and key
   (`Scoring.ScoreIgnoresExtraAnswers`).

The threshold `max_val > 0.5*w*h` is written exactly in integers as `2*max_val > w*h`. The
detected letter `chr(ord('A') + i)` is represented as `Letter(i)`. A key character `k`
equals it when `'A' + i == k` as code points (`Scoring.Matches`).

Further facts about the code that the model records:

- The comment at omr.py:60 calls the counted pixels black. They are the pixels whose
  luminance was above 128 (`Binarize.FillCountCountsBright`).
- A zero-area rectangle counts 0, so a question whose options all have zero area reads `None`
  (`Detection.ZeroAreaQuestion`). A zero-area *last* rectangle, however, accepts any positive
  count.
- Nothing checks layout and key lengths: `zip` truncates, and an empty layout yields no
  answers.

## Model

| member | source | states |
|---|---|---|
| Raster.Slice | omr.py:59 | `img[y:y+h]` / `row[x:x+w]` clip. The length is `min(len, len(s) - start)`, or 0 past the end, and element `i` is `s[start+i]` |
| Raster.Count | omr.py:61 | a count of matching pixels never exceeds the number of pixels looked at |
| Raster.CountIsPositions | omr.py:61 | `np.sum(box == 0)` is exactly the number of positions whose value satisfies the predicate |
| Raster.CountFull | omr.py:61 | the count equals the length iff every element satisfies the predicate |
| Raster.CountNone | omr.py:61 | the count is 0 iff no element satisfies the predicate |
| Raster.RowsCount | omr.py:59-61 | the summed count over `k` rows of width at most `w` is at most `k*w` |
| Raster.RegionCount | omr.py:59-61 | a fill count lies between 0 and `w*h`, whatever the clipping |
| Raster.FullRegion | omr.py:59-61 | an in-bounds rectangle whose every cell is ink has fill count exactly `w*h` |
| Raster.EmptyRegion | omr.py:59-61 | a rectangle with no ink cell in its clipped area has fill count 0 |
| Raster.RowCellsCount | omr.py:59-61 | the count over the clipped slice `row[x:x+w]` equals the number of cells `(j, i)` of that row, in those columns, that satisfy the predicate |
| Raster.RegionCountIsCells | omr.py:59-61 | the region count equals the size of the set of cells `(j, i)` of the clipped `g[y:y+h, x:x+w]` that satisfy the predicate, so each such cell is counted once and no other cell is counted |
| Raster.FillCount | omr.py:59-61 | `np.sum(box == 0)` for one option: the number of 0-valued cells of the clipped rectangle (`RegionCountIsCells` with the `== 0` test). It is at most `w*h`, and 0 for a zero-area rectangle |
| Raster.RegionCountPointwise | omr.py:59-61 | two rasters of one shape whose cells agree on the predicate give equal fill counts |
| Binarize.Threshold | omr.py:48 | the binarised value is 0 or 255, and it is 0 iff the luminance is above 128 |
| Binarize.BinarizeGrid | omr.py:48 | binarisation keeps the raster's shape and applies the rule to every pixel |
| Binarize.FillCountCountsBright | omr.py:48-61 | the fill count on the binarised raster equals the number of pixels with luminance > 128 in the same rectangle |
| Detection.ArgMax | omr.py:63 | `np.argmax` returns the first maximum. No count is larger, and every earlier count is strictly smaller |
| Detection.Decide | omr.py:57-69 | a letter is emitted iff some option's fill count exceeds half the area of the question's last rectangle. A letter's index is below the option count and is the first maximum of the fill counts |
| Detection.FillCounts | omr.py:57-62 | the `fill_counts` list: one count per option, in option order, each at most that option's area |
| Detection.CollectFillCounts | omr.py:57-62 | the inner loop yields the fill count of every option, in option order, and leaves `w, h` equal to those of the last option |
| Detection.DetectBubbles | omr.py:51-70 | returns one answer per question in question order, and answer `q` is `Decide` of question `q` |
| Detection.Detect | omr.py:51-70 | the answers of `detect_bubbles` as a value: one answer per question, and a letter always names one of that question's options. `DetectBubbles` is proved to return it |
| Detection.TieGoesToLowestIndex | omr.py:63-64 | among equal maximal counts the later option never wins, and a lower-or-equal index is chosen |
| Detection.HalfIsNotEnough | omr.py:66-69 | if no count is strictly above half the last area (e.g. exactly half), the answer is `None` |
| Detection.ZeroAreaQuestion | omr.py:58-69 | if every rectangle of a question has zero area, the answer is `None`, with no division |
| Detection.BlankQuestion | omr.py:59-69 | a question with no ink cell in any option reads `None` |
| Detection.UniformAreaThreshold | omr.py:58-66 | with equal-sized options, an accepted winner exceeds half of its own area, and `None` means no option exceeds half of its own area |
| Scoring.Matches | omr.py:75 | `e == k` for a detected answer and a key entry: only a letter can be equal to a key entry |
| Scoring.MatchesOneLetter | omr.py:75 | `None` equals no key entry. A key entry `k` at or after `A` is equal to exactly one detected answer, the letter of option `k - 'A'` |
| Scoring.MatchCount | omr.py:74-76 | the number of points among the first `n` positions is at most `n` |
| Scoring.Score | omr.py:72-77 | `0 <= score <= min(len(extracted), len(key))` |
| Scoring.ScoreAnswers | omr.py:72-77 | the accumulator loop returns `Score(extracted, key)` |
| Scoring.MatchCountIsPositions | omr.py:74-76 | the points among the first `n` positions are exactly the set of agreeing positions, one point each |
| Scoring.ScoreIsMatchingPositions | omr.py:72-77 | the score is the number of positions in the zipped range where answer and key agree |
| Scoring.BlankScoresZero | omr.py:74-76 | `None` never equals a key letter, so all-`None` answers score 0 |
| Scoring.FullMarks | omr.py:74-76 | the score equals the zipped length iff every zipped position agrees |
| Scoring.MatchCountUpdate | omr.py:74-76 | changing one answer changes the count by exactly that position's change of agreement |
| Scoring.ScoreRaise | omr.py:74-76 | turning one non-matching answer in the zipped range into a matching one raises the score by exactly 1 |
| Scoring.MatchCountPrefix | omr.py:74 | the count over the first `n` positions depends only on those positions |
| Scoring.ScoreIgnoresExtraAnswers | omr.py:74 | answers past the end of the key never change the score |
| Registry.Repeat | omr.py:18-19 | `s * n` has length `len(s) * n`, and element `i` is `s[i % len(s)]` |
| Registry.SheetLayout | omr.py:28-35 | one subject's comprehension of rectangles: 20 questions, each of 4 options of equal area |
| Registry.BubblePositions | omr.py:26-37 | `BUBBLE_POSITIONS`: `version1` holds `subject1` at left edge 10 and `subject2` at left edge 150, in that order. Its properties are stated by `Registry.RegistryConsistent` and `Exam.ConfiguredSubjects` |
| Registry.AnswerKeys | omr.py:15-21 | `ANSWER_KEYS`: `version1` holds `ABCD * 5` for `subject1` and `DCBA * 5` for `subject2`. Its properties are stated by `Registry.RegistryConsistent` |
| Registry.SheetLayoutShape | omr.py:29-36 | each layout has 20 questions of 4 equal-area options, all inside the 600-pixel width |
| Registry.KeyLetters | omr.py:18-19 | a repeated key over A-D holds only the letters of options 0 to 3 |
| Registry.RegistryConsistent | omr.py:16-38 | every configured subject has a key. Key and layout both have 20 entries, each question has 4 equal-area options inside the 600-pixel width, and every key letter is one of A-D |
| Exam.EvaluateSubjects | omr.py:103-111 | succeeds iff every subject's key lookup succeeds. The results are in subject order, each being the detected answers and their score. Otherwise the `KeyError` names the missing version, or the first subject, in order, that has no key |
| Exam.Evaluate | omr.py:103-112 | an unknown version fails. On success there is one result per subject in order. Each holds the answers detected on the raster with that subject's layout, one per question, and their score against that subject's own key. The total is the sum of the subject scores |
| Exam.Total | omr.py:112 | `sum(r['score'] ...)`: no subject's score exceeds the total |
| Exam.TotalUpdate | omr.py:112 | replacing one subject's result changes the total by exactly the change in that subject's score |
| Exam.TotalAtMost | omr.py:112 | the total is at most the number of subjects times a bound on each score |
| Exam.TotalRaise | omr.py:103-112 | one answer turning from non-matching to matching raises that subject's score and the total by exactly 1, and leaves the other subjects' results unchanged |
| Exam.ConfiguredSubjects | omr.py:27-38 | `version1` has two distinctly named subjects. Each has a key and a well-formed layout of 20 questions |
| Exam.ConfiguredExamEvaluates | omr.py:103-112 | for `version1` and any raster, evaluation succeeds with two subjects of 20 answers each and a total of at most 40 |
| Exam.UnconfiguredVersionFails | omr.py:104 | any other version fails with the lookup error |
| Scenarios.ClearMarkIsDetected | omr.py:51-77 | with option B fully inked and the others blank, the sheet reads `B`, and those detected answers score 1 against key `B` |
| Scenarios.BlankSheetScoresZero | omr.py:51-77 | with all four in-bounds options blank, the sheet reads `None`, and those detected answers score 0 |
| Scenarios.HalfFilledIsBlank | omr.py:66-69 | one ink pixel of two reads `None`. Three of four reads `A` |
| Scenarios.SmallWinnerBigLastRectangle | omr.py:58-69 | a fully inked 1x1 option is rejected when the last option is 2x2 |
| Scenarios.BigWinnerSmallLastRectangle | omr.py:58-69 | a fully inked 2x2 option is accepted when the last option is 1x1 |
| Scenarios.ThreeOfFour | omr.py:72-77 | key ABCD against A, B, C and `None` scores 3, and the total of a one-subject result holding that score is 3 |

## Left out

- The Flask routes, request checks, timestamped file names, `send_from_directory` and the
  HTML templates (omr.py:79-177) are web I/O and presentation.
- Saving the processed image and writing the JSON audit record (omr.py:98-100, 114-123) are
  persistence. The audit payload (version, results, total) is `Exam.ExamResult`.
- Grey-scale conversion and resizing to width 600 (omr.py:42-46) are library calls with
  resampling and floating point. The model starts from the resized luminance raster. Note
  that the code truncates the new height with `int(...)`.
- The numpy dtype of the image array (omr.py:53) is left out. Only the `== 0` test matters.
- Negative rectangle coordinates are excluded by the `nat` fields of `Rect`. Python would
  wrap them around.
- `Detection.Decide`: the comparison `max_val > 0.5*w*h` is floating point in the source.
  The model compares exact integers `2*max_val > w*h`. The two agree while `w*h` is below
  2^53.
- `Detection.Answer`: `chr(ord('A') + i)` is kept as the index `i`. `chr` would fail only
  for more than a million options.
- `Scoring.Matches`: key entries are modelled as single characters, as configured. A
  multi-character key entry, which never equals a letter, is not represented.
- `Exam.Evaluate`: a version's subjects are a sequence of (name, layout) pairs in dictionary
  order. The precondition `DistinctNames` states that these names are distinct, as
  dictionary keys are.
