/** Evaluation of a whole sheet (the subject loop of the upload handler and its total),
    lifted out of the web handler as a pure function of the binarised raster. */
module Exam {
  import opened Raster
  import opened Detection
  import opened Scoring
  import opened Registry

  /** `{'score': ..., 'answers': ...}` for one subject. */
  datatype SubjectResult = SubjectResult(score: nat, answers: seq<Answer>)

  /** The `KeyError`s the handler can raise while evaluating. */
  datatype Failure =
    | UnknownVersion(version: string)
    | UnknownSubject(version: string, subject: string)

  datatype Outcome<T> = Ok(value: T) | Err(failure: Failure)

  /** What the handler renders and records: per-subject results in dictionary order and the total. */
  datatype ExamResult = ExamResult(version: string, results: seq<(string, SubjectResult)>, total: nat)

  /** Every question of every subject layout has at least one option. */
  predicate LayoutsWellFormed(subjects: seq<(string, Layout)>)
  {
    forall s :: 0 <= s < |subjects| ==> WellFormed(subjects[s].1)
  }

  /** Subject names are distinct, as the keys of a dictionary are. */
  predicate DistinctNames(subjects: seq<(string, Layout)>)
  {
    forall s, t :: 0 <= s < t < |subjects| ==> subjects[s].0 != subjects[t].0
  }

  /** The key lookup `ANSWER_KEYS[version][subject]` succeeds. */
  predicate HasKey(keys: map<string, map<string, seq<char>>>, version: string, subject: string)
  {
    version in keys && subject in keys[version]
  }

  /** `f` is the lookup error of the first subject, in order, that has no key. */
  predicate NamesFirstMissing(keys: map<string, map<string, seq<char>>>, version: string,
                              subjects: seq<(string, Layout)>, f: Failure)
  {
    exists s :: 0 <= s < |subjects| && f == UnknownSubject(version, subjects[s].0)
      && !HasKey(keys, version, subjects[s].0)
      && forall t :: 0 <= t < s ==> HasKey(keys, version, subjects[t].0)
  }

  /** A first missing subject among the later subjects is the first missing one overall
      when the first subject has its key. */
  lemma FirstMissingStep(keys: map<string, map<string, seq<char>>>, version: string,
                         subjects: seq<(string, Layout)>, f: Failure)
    requires |subjects| > 0 && HasKey(keys, version, subjects[0].0)
    requires NamesFirstMissing(keys, version, subjects[1..], f)
    ensures NamesFirstMissing(keys, version, subjects, f)
  {
    var tail := subjects[1..];
    var s' :| 0 <= s' < |tail| && f == UnknownSubject(version, tail[s'].0)
              && !HasKey(keys, version, tail[s'].0)
              && forall t :: 0 <= t < s' ==> HasKey(keys, version, tail[t].0);
    assert subjects[s' + 1] == tail[s'];
    forall t | 0 <= t < s' + 1
      ensures HasKey(keys, version, subjects[t].0)
    {
      if t > 0 {
        assert subjects[t] == tail[t - 1];
      }
    }
  }

  /** The result of one subject: its detected answers and their score against `key`. */
  function Evaluated(g: Grid, layout: Layout, key: seq<char>): SubjectResult
    requires WellFormed(layout)
  {
    var answers := Detect(g, layout);
    SubjectResult(Score(answers, key), answers)
  }

  /** The subject loop: detect, look the key up, score; the first failed lookup aborts. */
  function EvaluateSubjects(g: Grid, version: string, subjects: seq<(string, Layout)>,
                            keys: map<string, map<string, seq<char>>>): (r: Outcome<seq<(string, SubjectResult)>>)
    requires LayoutsWellFormed(subjects)
    ensures r.Ok? <==> forall s :: 0 <= s < |subjects| ==> HasKey(keys, version, subjects[s].0)
    ensures r.Ok? ==> |r.value| == |subjects|
    ensures r.Ok? ==> forall s :: 0 <= s < |subjects| ==>
              r.value[s] == (subjects[s].0, Evaluated(g, subjects[s].1, keys[version][subjects[s].0]))
    ensures r.Err? && version !in keys ==> r.failure == UnknownVersion(version)
    ensures r.Err? && version in keys ==> NamesFirstMissing(keys, version, subjects, r.failure)
  {
    if subjects == [] then Ok([])
    else
      var (name, layout) := subjects[0];
      if version !in keys then Err(UnknownVersion(version))
      else if name !in keys[version] then Err(UnknownSubject(version, name))
      else
        var rest := EvaluateSubjects(g, version, subjects[1..], keys);
        if rest.Err? then
          FirstMissingStep(keys, version, subjects, rest.failure);
          rest
        else
          var results := [(name, Evaluated(g, layout, keys[version][name]))] + rest.value;
          assert forall s :: 1 <= s < |subjects| ==> results[s] == rest.value[s - 1] && subjects[s] == subjects[1..][s - 1];
          Ok(results)
  }

  /** `sum(r['score'] for r in results.values())`. */
  function Total(results: seq<(string, SubjectResult)>): (t: nat)
    ensures forall s :: 0 <= s < |results| ==> results[s].1.score <= t
  {
    if results == [] then 0 else results[0].1.score + Total(results[1..])
  }

  /** The handler from `BUBBLE_POSITIONS[version]` to the total, for given layouts and keys. */
  function Evaluate(g: Grid, version: string, positions: map<string, seq<(string, Layout)>>,
                    keys: map<string, map<string, seq<char>>>): (r: Outcome<ExamResult>)
    requires version in positions ==> LayoutsWellFormed(positions[version]) && DistinctNames(positions[version])
    ensures version !in positions ==> r == Err(UnknownVersion(version))
    ensures r.Err? && version in positions && version !in keys ==> r.failure == UnknownVersion(version)
    ensures r.Err? && version in positions && version in keys ==> NamesFirstMissing(keys, version, positions[version], r.failure)
    ensures r.Ok? <==> version in positions && forall s :: 0 <= s < |positions[version]| ==> HasKey(keys, version, positions[version][s].0)
    ensures r.Ok? ==> r.value.version == version && |r.value.results| == |positions[version]|
    ensures r.Ok? ==> r.value.total == Total(r.value.results)
    ensures r.Ok? ==> forall s :: 0 <= s < |r.value.results| ==>
              r.value.results[s].0 == positions[version][s].0
              && r.value.results[s].1.score == Score(r.value.results[s].1.answers, keys[version][positions[version][s].0])
              && r.value.results[s].1.answers == Detect(g, positions[version][s].1)
              && |r.value.results[s].1.answers| == |positions[version][s].1|
  {
    if version !in positions then Err(UnknownVersion(version))
    else
      match EvaluateSubjects(g, version, positions[version], keys)
      case Err(f) => Err(f)
      case Ok(results) => Ok(ExamResult(version, results, Total(results)))
  }

  /** Replacing one subject's result changes the total by exactly the change in its score. */
  lemma {:induction false} TotalUpdate(results: seq<(string, SubjectResult)>, s: nat, res: SubjectResult)
    requires s < |results|
    ensures Total(results[s := (results[s].0, res)]) + results[s].1.score == Total(results) + res.score
  {
    if s > 0 {
      TotalUpdate(results[1..], s - 1, res);
      assert results[s := (results[s].0, res)][1..] == results[1..][s - 1 := (results[s].0, res)];
    }
  }

  /** The total is bounded by the number of subjects times the largest subject score. */
  lemma {:induction false} TotalAtMost(results: seq<(string, SubjectResult)>, bound: nat)
    requires forall s :: 0 <= s < |results| ==> results[s].1.score <= bound
    ensures Total(results) <= |results| * bound
  {
    if results != [] {
      TotalAtMost(results[1..], bound);
      MulSucc(|results| - 1, bound);
    }
  }

  /** Score monotonicity across subjects: when one detected answer of subject `s` turns from
      non-matching into matching, that subject's score and the total rise by exactly one and
      every other subject's result is unchanged. */
  lemma TotalRaise(results: seq<(string, SubjectResult)>, s: nat, key: seq<char>, p: nat, a: Answer)
    requires s < |results|
    requires results[s].1.score == Score(results[s].1.answers, key)
    requires p < |results[s].1.answers| && p < |key|
    requires !Matches(results[s].1.answers[p], key[p]) && Matches(a, key[p])
    ensures var answers := results[s].1.answers[p := a];
            var results' := results[s := (results[s].0, SubjectResult(Score(answers, key), answers))];
            && Total(results') == Total(results) + 1
            && results'[s].1.score == results[s].1.score + 1
            && forall t :: 0 <= t < |results| && t != s ==> results'[t] == results[t]
  {
    var answers := results[s].1.answers[p := a];
    ScoreRaise(results[s].1.answers, key, p, a);
    TotalUpdate(results, s, SubjectResult(Score(answers, key), answers));
  }

  /** The subjects configured for `version1`: two distinct names, each with a key and a
      well-formed layout of twenty questions. */
  lemma ConfiguredSubjects()
    ensures forall v :: v in BubblePositions ==> LayoutsWellFormed(BubblePositions[v]) && DistinctNames(BubblePositions[v])
    ensures |BubblePositions["version1"]| == 2
    ensures forall s :: 0 <= s < 2 ==> HasKey(AnswerKeys, "version1", BubblePositions["version1"][s].0)
    ensures forall s :: 0 <= s < 2 ==> |BubblePositions["version1"][s].1| == QuestionsPerSubject
  {
    SheetLayoutShape(10);
    SheetLayoutShape(150);
  }

  /** The configured version evaluates without a lookup failure on every raster: two subjects,
      twenty answers each, and a total of at most forty. */
  lemma ConfiguredExamEvaluates(g: Grid)
    ensures forall v :: v in BubblePositions ==> LayoutsWellFormed(BubblePositions[v]) && DistinctNames(BubblePositions[v])
    ensures var r := Evaluate(g, "version1", BubblePositions, AnswerKeys);
            && r.Ok?
            && |r.value.results| == 2
            && (forall s :: 0 <= s < 2 ==> |r.value.results[s].1.answers| == QuestionsPerSubject)
            && r.value.total <= 2 * QuestionsPerSubject
  {
    ConfiguredSubjects();
    var r := Evaluate(g, "version1", BubblePositions, AnswerKeys);
    assert r.Ok?;
    var results := r.value.results;
    assert |results| == 2;
    forall s | 0 <= s < 2
      ensures |results[s].1.answers| == QuestionsPerSubject && results[s].1.score <= QuestionsPerSubject
    {
    }
    TotalAtMost(results, QuestionsPerSubject);
  }

  /** An exam version that is not configured fails with the lookup error of line 104. */
  lemma UnconfiguredVersionFails(g: Grid, version: string)
    requires version != "version1"
    ensures forall v :: v in BubblePositions ==> LayoutsWellFormed(BubblePositions[v]) && DistinctNames(BubblePositions[v])
    ensures Evaluate(g, version, BubblePositions, AnswerKeys) == Err(UnknownVersion(version))
  {
    ConfiguredSubjects();
  }
}
