/** The quiz score (`QuizParticipateView._calculate_score`, quiz/views.py).
    Every question of the quiz weighs the same; a question with at least one
    correct choice earns the fraction of its correct choices that were
    selected; the average over all questions is scaled to a percentage.
    Division is exact (`real`). */
module Scoring {
  import opened Models

  /** How many of `cs` are marked correct (`sum(1 for c in cs if c.is_correct)`). */
  function CountCorrect(cs: seq<Choice>): (n: nat)
    ensures n <= |cs|
    ensures n == 0 <==> forall c :: c in cs ==> !c.isCorrect
  {
    if cs == [] then 0
    else
      assert forall c :: c in cs <==> c in cs[..|cs| - 1] || c == cs[|cs| - 1];
      CountCorrect(cs[..|cs| - 1]) + (if cs[|cs| - 1].isCorrect then 1 else 0)
  }

  /** The points one question earns: correct selected over all correct, or
      nothing when the question has no correct choice. */
  function QuestionScore(q: Question, choices: seq<Choice>, selected: seq<Choice>): (r: real)
    ensures 0.0 <= r
    ensures r > 0.0 <==> CountCorrect(ChoicesOf(choices, q.id)) > 0 && CountCorrect(ChoicesOf(selected, q.id)) > 0
  {
    var allCorrect := CountCorrect(ChoicesOf(choices, q.id));
    if allCorrect > 0 then
      var correctSelected := CountCorrect(ChoicesOf(selected, q.id));
      RatioSign(correctSelected, allCorrect);
      correctSelected as real / allCorrect as real
    else 0.0
  }

  /** A ratio of counts is never negative, and positive exactly when its
      numerator is. */
  lemma RatioSign(part: nat, whole: nat)
    requires 0 < whole
    ensures 0.0 <= part as real / whole as real
    ensures part as real / whole as real > 0.0 <==> part > 0
  {
    var ratio := part as real / whole as real;
    assert ratio * whole as real == part as real;
  }

  /** The points of all `questions`, summed. */
  function SumScores(questions: seq<Question>, choices: seq<Choice>, selected: seq<Choice>): (r: real)
    ensures 0.0 <= r
  {
    if questions == [] then 0.0
    else SumScores(questions[..|questions| - 1], choices, selected) + QuestionScore(questions[|questions| - 1], choices, selected)
  }

  /** The score of a participation: `questions` are the quiz's questions,
      `choices` the whole choice table and `selected` the resolved selection.
      A quiz without questions scores 0. */
  function Score(questions: seq<Question>, choices: seq<Choice>, selected: seq<Choice>): (r: real)
    ensures 0.0 <= r
  {
    if |questions| > 0 then
      var sum := SumScores(questions, choices, selected);
      PercentSign(sum, |questions| as real);
      (sum / |questions| as real) * 100.0
    else 0.0
  }

  /** The selected choices grouped by question, with `defaultdict(list)` lookup. */
  function Group(byQuestion: map<nat, seq<Choice>>, questionId: nat): seq<Choice> {
    if questionId in byQuestion then byQuestion[questionId] else []
  }

  /** `selected_choices_by_question`: the selection split by question, each
      group in selection order. */
  method GroupByQuestion(selected: seq<Choice>) returns (byQuestion: map<nat, seq<Choice>>)
    ensures forall questionId :: Group(byQuestion, questionId) == ChoicesOf(selected, questionId)
  {
    byQuestion := map[];
    for i := 0 to |selected|
      invariant forall questionId :: Group(byQuestion, questionId) == ChoicesOf(selected[..i], questionId)
    {
      var choice := selected[i];
      GroupStep(byQuestion, selected[..i], choice);
      assert selected[..i + 1] == selected[..i] + [choice];
      byQuestion := byQuestion[choice.question := Group(byQuestion, choice.question) + [choice]];
    }
    assert selected[..|selected|] == selected;
  }

  /** `selected_choices_by_question[choice.question].append(choice)` keeps
      every group equal to the filter of the choices seen so far. */
  lemma GroupStep(byQuestion: map<nat, seq<Choice>>, seen: seq<Choice>, choice: Choice)
    requires forall questionId :: Group(byQuestion, questionId) == ChoicesOf(seen, questionId)
    ensures var next := byQuestion[choice.question := Group(byQuestion, choice.question) + [choice]];
      forall questionId :: Group(next, questionId) == ChoicesOf(seen + [choice], questionId)
  {
    forall questionId
      ensures Group(byQuestion[choice.question := Group(byQuestion, choice.question) + [choice]], questionId)
           == ChoicesOf(seen + [choice], questionId)
    {
      ChoicesOfSnoc(seen, choice, questionId);
    }
  }

  /** The imperative scorer: it groups the selection by question, then
      accumulates the per-question ratios question by question. */
  method CalculateScore(questions: seq<Question>, choices: seq<Choice>, selected: seq<Choice>) returns (score: real)
    ensures score == Score(questions, choices, selected)
  {
    var byQuestion := GroupByQuestion(selected);
    var allQuestionsScore: real := 0.0;
    for k := 0 to |questions|
      invariant allQuestionsScore == SumScores(questions[..k], choices, selected)
    {
      var question := questions[k];
      var correctSelected := CountCorrect(Group(byQuestion, question.id));
      var allCorrect := CountCorrect(ChoicesOf(choices, question.id));
      AccumulateStep(questions, choices, selected, k);
      if allCorrect > 0 {
        allQuestionsScore := allQuestionsScore + correctSelected as real / allCorrect as real;
      }
    }
    assert questions[..|questions|] == questions;

    var questionsCount := |questions|;
    score := if questionsCount > 0 then (allQuestionsScore / questionsCount as real) * 100.0 else 0.0;
  }

  /** One more iteration of the accumulating loop adds the next question's points. */
  lemma AccumulateStep(questions: seq<Question>, choices: seq<Choice>, selected: seq<Choice>, k: nat)
    requires k < |questions|
    ensures var allCorrect := CountCorrect(ChoicesOf(choices, questions[k].id));
      SumScores(questions[..k + 1], choices, selected)
      == SumScores(questions[..k], choices, selected)
         + (if allCorrect > 0 then CountCorrect(ChoicesOf(selected, questions[k].id)) as real / allCorrect as real else 0.0)
  {
    assert questions[..k + 1][..k] == questions[..k];
  }

  // ---------------------------------------------------------------------
  // Counting correct choices
  // ---------------------------------------------------------------------

  /** The correct choices of one question among `cs`, as a set. */
  function CorrectSet(cs: seq<Choice>, questionId: nat): set<Choice> {
    set c | c in cs && c.question == questionId && c.isCorrect
  }

  lemma {:induction false} CountCorrectAppend(cs: seq<Choice>, c: Choice)
    ensures CountCorrect(cs + [c]) == CountCorrect(cs) + (if c.isCorrect then 1 else 0)
  {
    assert (cs + [c])[..|cs|] == cs;
  }

  /** One more choice adds one to its question's correct count when it is correct. */
  lemma CountCorrectSnoc(cs: seq<Choice>, c: Choice, questionId: nat)
    ensures CountCorrect(ChoicesOf(cs + [c], questionId))
         == CountCorrect(ChoicesOf(cs, questionId)) + (if c.question == questionId && c.isCorrect then 1 else 0)
  {
    ChoicesOfSnoc(cs, c, questionId);
    if c.question == questionId {
      CountCorrectAppend(ChoicesOf(cs, questionId), c);
    } else {
      assert ChoicesOf(cs, questionId) + [] == ChoicesOf(cs, questionId);
    }
  }

  lemma CorrectSetSnoc(cs: seq<Choice>, c: Choice, questionId: nat)
    ensures CorrectSet(cs + [c], questionId)
         == CorrectSet(cs, questionId) + (if c.question == questionId && c.isCorrect then {c} else {})
  {
  }

  /** Counting by list never undercounts the set of correct choices. */
  lemma {:induction false} CountCorrectCoversSet(cs: seq<Choice>, questionId: nat)
    ensures CountCorrect(ChoicesOf(cs, questionId)) >= |CorrectSet(cs, questionId)|
  {
    if cs == [] {
      assert CorrectSet(cs, questionId) == {};
    } else {
      var init := cs[..|cs| - 1];
      var last := cs[|cs| - 1];
      assert cs == init + [last];
      CountCorrectCoversSet(init, questionId);
      CountCorrectSnoc(init, last, questionId);
      CorrectSetSnoc(init, last, questionId);
    }
  }

  /** A list that repeats nothing counts exactly the set of its correct choices. */
  lemma {:induction false} CountCorrectIsSetSize(cs: seq<Choice>, questionId: nat)
    requires Distinct(cs)
    ensures CountCorrect(ChoicesOf(cs, questionId)) == |CorrectSet(cs, questionId)|
  {
    if cs == [] {
      assert CorrectSet(cs, questionId) == {};
    } else {
      var init := cs[..|cs| - 1];
      var last := cs[|cs| - 1];
      assert cs == init + [last];
      assert Distinct(init);
      CountCorrectIsSetSize(init, questionId);
      CountCorrectSnoc(init, last, questionId);
      CorrectSetSnoc(init, last, questionId);
      assert last !in CorrectSet(init, questionId);
    }
  }

  /** A selection that repeats no choice and takes its choices from the table
      selects at most all the correct choices of a question. */
  lemma CorrectSelectedAtMostAllCorrect(choices: seq<Choice>, selected: seq<Choice>, questionId: nat)
    requires Distinct(selected)
    requires forall c :: c in selected ==> c in choices
    ensures CountCorrect(ChoicesOf(selected, questionId)) <= CountCorrect(ChoicesOf(choices, questionId))
  {
    CountCorrectIsSetSize(selected, questionId);
    CountCorrectCoversSet(choices, questionId);
    var a := CorrectSet(selected, questionId);
    var b := CorrectSet(choices, questionId);
    assert a <= b;
    assert b == a + (b - a);
  }

  // ---------------------------------------------------------------------
  // Exact division
  // ---------------------------------------------------------------------

  lemma RatioBounds(part: nat, whole: nat)
    requires 0 < whole && part <= whole
    ensures 0.0 <= part as real / whole as real <= 1.0
  {
    var r := part as real / whole as real;
    assert r * whole as real == part as real;
  }

  lemma RatioMonotone(a: nat, b: nat, whole: nat)
    requires a <= b && 0 < whole
    ensures a as real / whole as real <= b as real / whole as real
  {
  }

  lemma RatioOne(whole: nat)
    requires 0 < whole
    ensures whole as real / whole as real == 1.0
  {
  }

  lemma PercentMonotone(a: real, b: real, n: real)
    requires a <= b && 0.0 < n
    ensures (a / n) * 100.0 <= (b / n) * 100.0
  {
  }

  lemma PercentOfWhole(n: real)
    requires 0.0 < n
    ensures (n / n) * 100.0 == 100.0
  {
  }

  lemma PercentBounds(s: real, n: real)
    requires 0.0 <= s <= n && 0.0 < n
    ensures 0.0 <= (s / n) * 100.0 <= 100.0
  {
  }

  // ---------------------------------------------------------------------
  // Bounds
  // ---------------------------------------------------------------------

  /** For a selection of distinct existing choices each question earns
      between 0 and 1. */
  lemma QuestionScoreInUnit(q: Question, choices: seq<Choice>, selected: seq<Choice>)
    requires Distinct(selected)
    requires forall c :: c in selected ==> c in choices
    ensures 0.0 <= QuestionScore(q, choices, selected) <= 1.0
  {
    var allCorrect := CountCorrect(ChoicesOf(choices, q.id));
    if allCorrect > 0 {
      CorrectSelectedAtMostAllCorrect(choices, selected, q.id);
      RatioBounds(CountCorrect(ChoicesOf(selected, q.id)), allCorrect);
    }
  }

  lemma {:induction false} SumScoresBounds(questions: seq<Question>, choices: seq<Choice>, selected: seq<Choice>)
    requires Distinct(selected)
    requires forall c :: c in selected ==> c in choices
    ensures 0.0 <= SumScores(questions, choices, selected) <= |questions| as real
  {
    if questions != [] {
      SumScoresBounds(questions[..|questions| - 1], choices, selected);
      QuestionScoreInUnit(questions[|questions| - 1], choices, selected);
    }
  }

  /** For a selection of distinct existing choices the score is a percentage. */
  lemma ScoreInRange(questions: seq<Question>, choices: seq<Choice>, selected: seq<Choice>)
    requires Distinct(selected)
    requires forall c :: c in selected ==> c in choices
    ensures 0.0 <= Score(questions, choices, selected) <= 100.0
  {
    if |questions| > 0 {
      SumScoresBounds(questions, choices, selected);
      PercentBounds(SumScores(questions, choices, selected), |questions| as real);
    }
  }

  // ---------------------------------------------------------------------
  // How the selection moves the score
  // ---------------------------------------------------------------------

  lemma QuestionScoreMonotone(q: Question, choices: seq<Choice>, fewer: seq<Choice>, more: seq<Choice>)
    requires CountCorrect(ChoicesOf(fewer, q.id)) <= CountCorrect(ChoicesOf(more, q.id))
    ensures QuestionScore(q, choices, fewer) <= QuestionScore(q, choices, more)
  {
    var allCorrect := CountCorrect(ChoicesOf(choices, q.id));
    if allCorrect > 0 {
      RatioMonotone(CountCorrect(ChoicesOf(fewer, q.id)), CountCorrect(ChoicesOf(more, q.id)), allCorrect);
    }
  }

  lemma {:induction false} SumScoresMonotone(questions: seq<Question>, choices: seq<Choice>, fewer: seq<Choice>, more: seq<Choice>)
    requires forall q :: q in questions ==>
      CountCorrect(ChoicesOf(fewer, q.id)) <= CountCorrect(ChoicesOf(more, q.id))
    ensures SumScores(questions, choices, fewer) <= SumScores(questions, choices, more)
  {
    if questions != [] {
      var init := questions[..|questions| - 1];
      var last := questions[|questions| - 1];
      assert forall q :: q in init ==> q in questions;
      SumScoresMonotone(init, choices, fewer, more);
      QuestionScoreMonotone(last, choices, fewer, more);
    }
  }

  lemma {:induction false} SumScoresCongruent(questions: seq<Question>, choices: seq<Choice>, s1: seq<Choice>, s2: seq<Choice>)
    requires forall q :: q in questions ==> ChoicesOf(s1, q.id) == ChoicesOf(s2, q.id)
    ensures SumScores(questions, choices, s1) == SumScores(questions, choices, s2)
  {
    if questions != [] {
      var init := questions[..|questions| - 1];
      assert forall q :: q in init ==> q in questions;
      SumScoresCongruent(init, choices, s1, s2);
    }
  }

  lemma SumScoresExtraChoice(questions: seq<Question>, choices: seq<Choice>, selected: seq<Choice>, c: Choice)
    ensures SumScores(questions, choices, selected) <= SumScores(questions, choices, selected + [c])
    ensures !c.isCorrect || (forall q :: q in questions ==> q.id != c.question) ==>
      SumScores(questions, choices, selected + [c]) == SumScores(questions, choices, selected)
  {
    forall q | q in questions
      ensures CountCorrect(ChoicesOf(selected, q.id)) <= CountCorrect(ChoicesOf(selected + [c], q.id))
    {
      CountCorrectSnoc(selected, c, q.id);
    }
    SumScoresMonotone(questions, choices, selected, selected + [c]);
    if !c.isCorrect || (forall q :: q in questions ==> q.id != c.question) {
      forall q | q in questions
        ensures CountCorrect(ChoicesOf(selected + [c], q.id)) <= CountCorrect(ChoicesOf(selected, q.id))
      {
        CountCorrectSnoc(selected, c, q.id);
      }
      SumScoresMonotone(questions, choices, selected + [c], selected);
    }
  }

  /** Selecting one more choice never lowers the score; an incorrect choice,
      or one whose question is not the quiz's, leaves it unchanged (there is
      no penalty for wrong selections). */
  lemma ExtraChoiceNeverLowers(questions: seq<Question>, choices: seq<Choice>, selected: seq<Choice>, c: Choice)
    ensures Score(questions, choices, selected) <= Score(questions, choices, selected + [c])
    ensures !c.isCorrect || (forall q :: q in questions ==> q.id != c.question) ==>
      Score(questions, choices, selected + [c]) == Score(questions, choices, selected)
  {
    SumScoresExtraChoice(questions, choices, selected, c);
    if |questions| > 0 {
      PercentMonotone(SumScores(questions, choices, selected), SumScores(questions, choices, selected + [c]), |questions| as real);
    }
  }

  /** `questionId` is the id of one of `questions`. */
  predicate Asked(questions: seq<Question>, questionId: nat) {
    exists q :: q in questions && q.id == questionId
  }

  /** The part of a selection that answers one of `questions`. */
  function AnswersTo(questions: seq<Question>, selected: seq<Choice>): (r: seq<Choice>)
    ensures forall c :: c in r <==> c in selected && Asked(questions, c.question)
  {
    if selected == [] then []
    else
      var last := selected[|selected| - 1];
      AnswersTo(questions, selected[..|selected| - 1]) + (if Asked(questions, last.question) then [last] else [])
  }

  lemma {:induction false} AnswersToKeepsOwnChoices(questions: seq<Question>, selected: seq<Choice>, q: Question)
    requires q in questions
    ensures ChoicesOf(AnswersTo(questions, selected), q.id) == ChoicesOf(selected, q.id)
  {
    if selected != [] {
      var init := selected[..|selected| - 1];
      var last := selected[|selected| - 1];
      assert selected == init + [last];
      AnswersToKeepsOwnChoices(questions, init, q);
      ChoicesOfSnoc(init, last, q.id);
      var kept := AnswersTo(questions, init);
      if Asked(questions, last.question) {
        assert AnswersTo(questions, selected) == kept + [last];
        ChoicesOfSnoc(kept, last, q.id);
      } else {
        assert AnswersTo(questions, selected) == kept + [];
        assert kept + [] == kept;
        assert last.question != q.id;
        assert ChoicesOf(init, q.id) + [] == ChoicesOf(init, q.id);
      }
    }
  }

  /** Selected choices whose question is not one of the quiz's do not
      affect the score. */
  lemma ForeignChoicesIgnored(questions: seq<Question>, choices: seq<Choice>, selected: seq<Choice>)
    ensures Score(questions, choices, selected) == Score(questions, choices, AnswersTo(questions, selected))
  {
    forall q | q in questions
      ensures ChoicesOf(selected, q.id) == ChoicesOf(AnswersTo(questions, selected), q.id)
    {
      AnswersToKeepsOwnChoices(questions, selected, q);
    }
    SumScoresCongruent(questions, choices, selected, AnswersTo(questions, selected));
  }

  // ---------------------------------------------------------------------
  // Fixed points of the scale
  // ---------------------------------------------------------------------

  lemma QuestionScoreOfNothing(q: Question, choices: seq<Choice>)
    ensures QuestionScore(q, choices, []) == 0.0
  {
    assert ChoicesOf([], q.id) == [];
  }

  lemma {:induction false} SumScoresOfNothing(questions: seq<Question>, choices: seq<Choice>)
    ensures SumScores(questions, choices, []) == 0.0
  {
    if questions != [] {
      SumScoresOfNothing(questions[..|questions| - 1], choices);
      QuestionScoreOfNothing(questions[|questions| - 1], choices);
    }
  }

  /** Selecting nothing scores 0, and so does a quiz without questions. */
  lemma NothingSelectedScoresZero(questions: seq<Question>, choices: seq<Choice>, selected: seq<Choice>)
    ensures Score(questions, choices, []) == 0.0
    ensures Score([], choices, selected) == 0.0
  {
    SumScoresOfNothing(questions, choices);
  }

  lemma {:induction false} SumScoresPositive(questions: seq<Question>, choices: seq<Choice>, selected: seq<Choice>)
    ensures SumScores(questions, choices, selected) > 0.0 <==>
      exists q :: q in questions && QuestionScore(q, choices, selected) > 0.0
  {
    if questions != [] {
      var init := questions[..|questions| - 1];
      var last := questions[|questions| - 1];
      SumScoresPositive(init, choices, selected);
      assert forall q :: q in questions <==> q in init || q == last;
    }
  }

  /** The score is positive exactly when some question of the quiz earns
      something, that is, has a correct choice and one of its correct
      choices was selected. */
  lemma ScorePositive(questions: seq<Question>, choices: seq<Choice>, selected: seq<Choice>)
    ensures Score(questions, choices, selected) > 0.0 <==>
      exists q :: q in questions && CountCorrect(ChoicesOf(choices, q.id)) > 0 && CountCorrect(ChoicesOf(selected, q.id)) > 0
  {
    SumScoresPositive(questions, choices, selected);
    if |questions| > 0 {
      var sum := SumScores(questions, choices, selected);
      PercentSign(sum, |questions| as real);
    }
  }

  lemma PercentSign(s: real, n: real)
    requires 0.0 <= s && 0.0 < n
    ensures 0.0 <= (s / n) * 100.0
    ensures (s / n) * 100.0 > 0.0 <==> s > 0.0
  {
    assert (s / n) * n == s;
  }

  /** A question without any correct choice earns nothing but still counts
      in the number of questions the sum is divided by. */
  lemma NoCorrectChoiceDilutes(questions: seq<Question>, q: Question, choices: seq<Choice>, selected: seq<Choice>)
    requires CountCorrect(ChoicesOf(choices, q.id)) == 0
    ensures SumScores(questions + [q], choices, selected) == SumScores(questions, choices, selected)
    ensures Score(questions + [q], choices, selected)
         == (SumScores(questions, choices, selected) / (|questions| + 1) as real) * 100.0
  {
    assert (questions + [q])[..|questions|] == questions;
  }

  /** Some choice of the table is a correct answer to question `q`. */
  predicate HasCorrectChoice(choices: seq<Choice>, q: Question) {
    exists c :: c in choices && c.question == q.id && c.isCorrect
  }

  lemma {:induction false} SumScoresAllFull(questions: seq<Question>, choices: seq<Choice>, selected: seq<Choice>)
    requires forall q :: q in questions ==> QuestionScore(q, choices, selected) == 1.0
    ensures SumScores(questions, choices, selected) == |questions| as real
  {
    if questions != [] {
      var init := questions[..|questions| - 1];
      assert forall q :: q in init ==> q in questions;
      SumScoresAllFull(init, choices, selected);
    }
  }

  lemma QuestionFullCredit(q: Question, choices: seq<Choice>, selected: seq<Choice>)
    requires Distinct(choices) && Distinct(selected)
    requires HasCorrectChoice(choices, q)
    requires CorrectSet(selected, q.id) == CorrectSet(choices, q.id)
    ensures QuestionScore(q, choices, selected) == 1.0
  {
    CountCorrectIsSetSize(selected, q.id);
    CountCorrectIsSetSize(choices, q.id);
    var c :| c in choices && c.question == q.id && c.isCorrect;
    assert c in CorrectSet(choices, q.id);
    RatioOne(CountCorrect(ChoicesOf(choices, q.id)));
  }

  /** Selecting exactly the correct choices of the quiz's questions, each of
      which has one, scores 100. */
  lemma FullCreditScoresHundred(questions: seq<Question>, choices: seq<Choice>, selected: seq<Choice>)
    requires |questions| > 0
    requires Distinct(choices) && Distinct(selected)
    requires forall q :: q in questions ==> HasCorrectChoice(choices, q)
    requires forall c :: c in selected <==> c in choices && c.isCorrect && Asked(questions, c.question)
    ensures Score(questions, choices, selected) == 100.0
  {
    forall q | q in questions
      ensures QuestionScore(q, choices, selected) == 1.0
    {
      assert CorrectSet(selected, q.id) == CorrectSet(choices, q.id);
      QuestionFullCredit(q, choices, selected);
    }
    SumScoresAllFull(questions, choices, selected);
    PercentOfWhole(|questions| as real);
  }

  // ---------------------------------------------------------------------
  // The two-question scenario: two questions of two choices each, one
  // correct apiece (the quiz the repository's tests create)
  // ---------------------------------------------------------------------

  const Q1 := Question(1, 1, "Sample Question 1")
  const Q2 := Question(2, 1, "Sample Question 2")
  const RIGHT1 := Choice(1, 1, "Choice 1", true)
  const WRONG1 := Choice(2, 1, "Choice 2", false)
  const WRONG2 := Choice(3, 2, "Choice A", false)
  const RIGHT2 := Choice(4, 2, "Choice B", true)
  const SCENARIO_CHOICES := [RIGHT1, WRONG1, WRONG2, RIGHT2]

  lemma ChoicesOfPair(a: Choice, b: Choice, questionId: nat)
    ensures ChoicesOf([a, b], questionId)
         == (if a.question == questionId then [a] else []) + (if b.question == questionId then [b] else [])
  {
    assert [a, b] == [a] + [b];
    assert [a] == [] + [a];
    ChoicesOfSnoc([], a, questionId);
    ChoicesOfSnoc([a], b, questionId);
  }

  lemma ScenarioChoicesOfFirst()
    ensures ChoicesOf(SCENARIO_CHOICES, 1) == [RIGHT1, WRONG1]
  {
    assert SCENARIO_CHOICES == [RIGHT1, WRONG1] + [WRONG2, RIGHT2];
    ChoicesOfAppend([RIGHT1, WRONG1], [WRONG2, RIGHT2], 1);
    ChoicesOfPair(RIGHT1, WRONG1, 1);
    ChoicesOfPair(WRONG2, RIGHT2, 1);
  }

  lemma ScenarioChoicesOfSecond()
    ensures ChoicesOf(SCENARIO_CHOICES, 2) == [WRONG2, RIGHT2]
  {
    assert SCENARIO_CHOICES == [RIGHT1, WRONG1] + [WRONG2, RIGHT2];
    ChoicesOfAppend([RIGHT1, WRONG1], [WRONG2, RIGHT2], 2);
    ChoicesOfPair(RIGHT1, WRONG1, 2);
    ChoicesOfPair(WRONG2, RIGHT2, 2);
  }

  lemma CountCorrectOfPair(a: Choice, b: Choice)
    ensures CountCorrect([a, b]) == (if a.isCorrect then 1 else 0) + (if b.isCorrect then 1 else 0)
  {
    assert [a, b][..1] == [a];
    assert [a][..0] == [];
  }

  lemma ScenarioHasOneCorrectPerQuestion()
    ensures CountCorrect(ChoicesOf(SCENARIO_CHOICES, 1)) == 1
    ensures CountCorrect(ChoicesOf(SCENARIO_CHOICES, 2)) == 1
  {
    ScenarioChoicesOfFirst();
    ScenarioChoicesOfSecond();
    CountCorrectOfPair(RIGHT1, WRONG1);
    CountCorrectOfPair(WRONG2, RIGHT2);
  }

  lemma SumScoresOfPair(a: Question, b: Question, choices: seq<Choice>, selected: seq<Choice>)
    ensures SumScores([a, b], choices, selected) == QuestionScore(a, choices, selected) + QuestionScore(b, choices, selected)
  {
    assert [a][..0] == [];
    assert SumScores([a], choices, selected) == QuestionScore(a, choices, selected);
    assert [a, b][..1] == [a];
  }

  lemma QuestionScoreOfOnlyChoice(q: Question, choices: seq<Choice>, selected: seq<Choice>, c: Choice)
    requires CountCorrect(ChoicesOf(choices, q.id)) == 1
    requires ChoicesOf(selected, q.id) == [c]
    ensures QuestionScore(q, choices, selected) == if c.isCorrect then 1.0 else 0.0
  {
    assert [c][..0] == [];
  }

  /** Selecting one choice of each question: the score counts the correct ones. */
  lemma ScenarioSums(first: Choice, second: Choice)
    requires first.question == 1 && second.question == 2
    ensures SumScores([Q1, Q2], SCENARIO_CHOICES, [first, second])
         == (if first.isCorrect then 1.0 else 0.0) + (if second.isCorrect then 1.0 else 0.0)
  {
    ScenarioHasOneCorrectPerQuestion();
    ChoicesOfPair(first, second, 1);
    ChoicesOfPair(first, second, 2);
    QuestionScoreOfOnlyChoice(Q1, SCENARIO_CHOICES, [first, second], first);
    QuestionScoreOfOnlyChoice(Q2, SCENARIO_CHOICES, [first, second], second);
    SumScoresOfPair(Q1, Q2, SCENARIO_CHOICES, [first, second]);
  }

  lemma PercentOfTwo(s: real)
    ensures (s / 2.0) * 100.0 == s * 50.0
  {
  }

  /** Each correct choice of the two-question scenario is worth 50 points. */
  lemma ScenarioScore(first: Choice, second: Choice)
    requires first.question == 1 && second.question == 2
    ensures Score([Q1, Q2], SCENARIO_CHOICES, [first, second])
         == ((if first.isCorrect then 1.0 else 0.0) + (if second.isCorrect then 1.0 else 0.0)) * 50.0
  {
    var sum := SumScores([Q1, Q2], SCENARIO_CHOICES, [first, second]);
    assert Score([Q1, Q2], SCENARIO_CHOICES, [first, second]) == (sum / 2.0) * 100.0;
    PercentOfTwo(sum);
    ScenarioSums(first, second);
  }

  /** Both correct choices score 100, both wrong ones 0, one of each 50. */
  lemma TwoQuestionScenario()
    ensures Score([Q1, Q2], SCENARIO_CHOICES, [RIGHT1, RIGHT2]) == 100.0
    ensures Score([Q1, Q2], SCENARIO_CHOICES, [WRONG1, WRONG2]) == 0.0
    ensures Score([Q1, Q2], SCENARIO_CHOICES, [RIGHT1, WRONG2]) == 50.0
  {
    ScenarioScore(RIGHT1, RIGHT2);
    ScenarioScore(WRONG1, WRONG2);
    ScenarioScore(RIGHT1, WRONG2);
  }
}
