/** `QuizResultsView.get` (quiz/views.py): the creator sees every
    participation and the choices of every question with their correctness;
    anyone else sees the participant count and their own score once they
    have participated, and a 403 otherwise. */
module ResultsView {
  import opened Models
  import opened Serializers
  import opened Responses
  import opened ParticipateView

  /** `ParticipationSerializer`: id, user, score and the selected choice ids
      (`created_at` is left out). */
  datatype ParticipationView = ParticipationView(id: nat, user: UserId, score: real, selectedChoices: seq<nat>)

  /** The two bodies the view answers with. */
  datatype Report =
    | ParticipantReport(participantsCount: nat, participantScore: real)
    | CreatorReport(participantsCount: nat, participations: seq<ParticipationView>,
                    choicesByQuestion: map<nat, seq<CreatorChoiceView>>)

  /** `ParticipationSerializer(participations, many=True)`: one entry per
      participation, in order, with the ids of exactly the choices linked to it. */
  function ParticipationViews(db: Db, ps: seq<Participation>): (r: seq<ParticipationView>)
    ensures |r| == |ps|
    ensures forall i :: 0 <= i < |ps| ==>
      && r[i].id == ps[i].id && r[i].user == ps[i].user && r[i].score == ps[i].score
      && (forall c :: c in r[i].selectedChoices <==>
            exists l :: l in db.participationChoices && l.participation == ps[i].id && l.selectedChoice == c)
  {
    seq(|ps|, i requires 0 <= i < |ps| =>
      ParticipationView(ps[i].id, ps[i].user, ps[i].score, SelectedChoiceIds(db.participationChoices, ps[i].id)))
  }

  /** `participations.filter(user=user).first()`: the earliest row of `user`. */
  function FirstBy(ps: seq<Participation>, user: UserId): (r: Option<Participation>)
    ensures r.Some? ==> r.value in ps && r.value.user == user
    ensures r.None? <==> forall p :: p in ps ==> p.user != user
    ensures r.Some? ==> exists i :: 0 <= i < |ps| && ps[i] == r.value && forall j :: 0 <= j < i ==> ps[j].user != user
  {
    if ps == [] then None
    else if ps[0].user == user then Some(ps[0])
    else FirstBy(ps[1..], user)
  }

  /** `choices_with_result_by_question` after the loop has visited `questions`. */
  function ChoicesByQuestion(questions: seq<Question>, choices: seq<Choice>): map<nat, seq<CreatorChoiceView>> {
    if questions == [] then map[]
    else
      var last := questions[|questions| - 1];
      ChoicesByQuestion(questions[..|questions| - 1], choices)[last.id := CreatorChoices(ChoicesOf(choices, last.id))]
  }

  /** The whole request: 404 for an unknown quiz; for anyone but the creator
      their own score if they participated, else 403 whose reason depends on
      whether the quiz is still open; for the creator the full report. */
  function ResultsSpec(db: Db, user: UserId, pk: int): Response<Report> {
    match FindQuiz(db.quizzes, pk)
    case None => NotFound
    case Some(quiz) =>
      var participations := ParticipationsOf(db.participations, quiz.id);
      if user != quiz.creator then
        match FirstBy(participations, user)
        case Some(p) => Ok(ParticipantReport(|participations|, p.score))
        case None => if quiz.isOpen then Forbidden(ParticipateFirst) else Forbidden(ResultsUnavailable)
      else
        Ok(CreatorReport(|participations|, ParticipationViews(db, participations),
                         ChoicesByQuestion(QuestionsOf(db.questions, quiz.id), db.choices)))
  }

  /** The view itself; it reads the store and changes nothing. */
  method Results(store: Database, user: UserId, pk: int) returns (r: Response<Report>)
    ensures r == ResultsSpec(store.State(), user, pk)
  {
    var found := FindQuiz(store.quizzes, pk);
    if found.None? {
      return NotFound;
    }
    var quiz := found.value;
    var participations := ParticipationsOf(store.participations, quiz.id);
    var participantsCount := |participations|;

    if user != quiz.creator {
      var participant := FirstBy(participations, user);
      if participant.Some? {
        return Ok(ParticipantReport(participantsCount, participant.value.score));
      }
      if quiz.isOpen {
        return Forbidden(ParticipateFirst);
      }
      return Forbidden(ResultsUnavailable);
    }

    var participationsData := ParticipationViews(store.State(), participations);
    var questions := QuestionsOf(store.questions, quiz.id);
    var byQuestion: map<nat, seq<CreatorChoiceView>> := map[];
    for k := 0 to |questions|
      invariant byQuestion == ChoicesByQuestion(questions[..k], store.choices)
    {
      var question := questions[k];
      byQuestion := byQuestion[question.id := CreatorChoices(ChoicesOf(store.choices, question.id))];
      assert questions[..k + 1][..k] == questions[..k];
    }
    assert questions[..|questions|] == questions;
    r := Ok(CreatorReport(participantsCount, participationsData, byQuestion));
  }

  // ---------------------------------------------------------------------
  // What the report holds
  // ---------------------------------------------------------------------

  /** The map has one key per question of the quiz, and under each the
      creator view (with is_correct) of that question's choices. */
  lemma {:induction false} ChoicesByQuestionContents(questions: seq<Question>, choices: seq<Choice>)
    ensures var m := ChoicesByQuestion(questions, choices);
      && (forall id :: id in m <==> exists q :: q in questions && q.id == id)
      && (forall q :: q in questions ==> q.id in m && m[q.id] == CreatorChoices(ChoicesOf(choices, q.id)))
  {
    if questions != [] {
      var init := questions[..|questions| - 1];
      var last := questions[|questions| - 1];
      ChoicesByQuestionContents(init, choices);
      assert forall q :: q in questions <==> q in init || q == last;
    }
  }

  /** Who gets what: 404 exactly for an unknown quiz, the full report
      exactly for the creator, a score exactly for a participant, and for
      anyone else a 403 that says whether the quiz is still open. */
  lemma ResultsDecision(db: Db, user: UserId, pk: int)
    ensures var r := ResultsSpec(db, user, pk);
      var found := FindQuiz(db.quizzes, pk);
      && (r == NotFound <==> found.None?)
      && (r.Ok? && r.value.CreatorReport? <==> found.Some? && user == found.value.creator)
      && (r.Ok? && r.value.ParticipantReport? <==>
            found.Some? && user != found.value.creator && HasParticipated(db.participations, user, pk))
      && (r == Forbidden(ParticipateFirst) <==>
            found.Some? && user != found.value.creator && !HasParticipated(db.participations, user, pk) && found.value.isOpen)
      && (r == Forbidden(ResultsUnavailable) <==>
            found.Some? && user != found.value.creator && !HasParticipated(db.participations, user, pk) && !found.value.isOpen)
  {
    var found := FindQuiz(db.quizzes, pk);
    if found.Some? {
      var participations := ParticipationsOf(db.participations, pk);
      var first := FirstBy(participations, user);
      if first.Some? {
        assert first.value in db.participations && first.value.quiz == pk;
      }
    }
  }

  /** The creator's report: the count and one entry per participation on
      the quiz with the choices it selected, and for every question of the
      quiz its choices with their correctness. */
  lemma CreatorReportContents(db: Db, pk: int)
    requires FindQuiz(db.quizzes, pk).Some?
    ensures var quiz := FindQuiz(db.quizzes, pk).value;
      var participations := ParticipationsOf(db.participations, pk);
      var questions := QuestionsOf(db.questions, pk);
      var r := ResultsSpec(db, quiz.creator, pk);
      && r.Ok? && r.value.CreatorReport?
      && r.value.participantsCount == |participations| == |r.value.participations|
      && (forall i :: 0 <= i < |participations| ==>
            var v := r.value.participations[i];
            && v.id == participations[i].id && v.user == participations[i].user && v.score == participations[i].score
            && v.selectedChoices == SelectedChoiceIds(db.participationChoices, participations[i].id))
      && (forall id :: id in r.value.choicesByQuestion <==> exists q :: q in questions && q.id == id)
      && (forall q :: q in questions ==>
            q.id in r.value.choicesByQuestion
            && r.value.choicesByQuestion[q.id] == CreatorChoices(ChoicesOf(db.choices, q.id)))
      && (forall q, i :: q in questions && 0 <= i < |ChoicesOf(db.choices, q.id)| ==>
            q.id in r.value.choicesByQuestion
            && |r.value.choicesByQuestion[q.id]| == |ChoicesOf(db.choices, q.id)|
            && r.value.choicesByQuestion[q.id][i]
               == CreatorChoiceView(ChoicesOf(db.choices, q.id)[i].id, ChoicesOf(db.choices, q.id)[i].text,
                                    ChoicesOf(db.choices, q.id)[i].isCorrect))
  {
    ChoicesByQuestionContents(QuestionsOf(db.questions, pk), db.choices);
  }

  /** A participant's score is the score of their own participation on the
      quiz, and under the consistency invariant it is the only one they have. */
  lemma ParticipantSeesOwnScore(db: Db, user: UserId, pk: int)
    requires Consistent(db)
    requires ResultsSpec(db, user, pk).Ok? && ResultsSpec(db, user, pk).value.ParticipantReport?
    ensures var report := ResultsSpec(db, user, pk).value;
      && report.participantsCount == |ParticipationsOf(db.participations, pk)|
      && (exists p :: p in db.participations && p.user == user && p.quiz == pk)
      && (forall p :: p in db.participations && p.user == user && p.quiz == pk ==> p.score == report.participantScore)
  {
    var participations := ParticipationsOf(db.participations, pk);
    var first := FirstBy(participations, user).value;
    assert first in db.participations && first.quiz == pk;
    forall p | p in db.participations && p.user == user && p.quiz == pk
      ensures p.score == first.score
    {
      var i :| 0 <= i < |db.participations| && db.participations[i] == p;
      var j :| 0 <= j < |db.participations| && db.participations[j] == first;
      assert i == j;
    }
  }

  /** Whatever the rows, a participant is shown the count of the quiz's
      participations and the score of their earliest participation on it. */
  lemma ParticipantSeesFirstScore(db: Db, user: UserId, pk: int)
    requires ResultsSpec(db, user, pk).Ok? && ResultsSpec(db, user, pk).value.ParticipantReport?
    ensures var report := ResultsSpec(db, user, pk).value;
      var participations := ParticipationsOf(db.participations, pk);
      && report.participantsCount == |participations|
      && exists i :: 0 <= i < |participations| && participations[i].user == user
           && participations[i].score == report.participantScore
           && forall j :: 0 <= j < i ==> participations[j].user != user
  {
    var quiz := FindQuiz(db.quizzes, pk).value;
    assert quiz.id == pk;
  }

  // ---------------------------------------------------------------------
  // Participation followed by results
  // ---------------------------------------------------------------------

  lemma FirstByAfterNone(ps: seq<Participation>, p: Participation, user: UserId)
    requires forall q :: q in ps ==> q.user != user
    requires p.user == user
    ensures FirstBy(ps + [p], user) == Some(p)
  {
    var all := ps + [p];
    assert p in all;
  }

  /** Right after an accepted participation, the participant's results are
      the count including them and the score they were just given. */
  lemma ResultsAfterParticipation(db: Db, user: UserId, pk: int, choiceIds: seq<int>)
    requires WellFormed(db)
    requires ParticipateSpec(db, user, pk, choiceIds).response.Ok?
    ensures var outcome := ParticipateSpec(db, user, pk, choiceIds);
      ResultsSpec(outcome.db, user, pk)
      == Ok(ParticipantReport(|ParticipationsOf(db.participations, pk)| + 1, outcome.response.value))
  {
    var outcome := ParticipateSpec(db, user, pk, choiceIds);
    AcceptedGuards(db, user, pk, choiceIds);
    SuccessfulParticipation(db, user, pk, choiceIds);
    var quiz := FindQuiz(db.quizzes, pk).value;
    var p := outcome.db.participations[|outcome.db.participations| - 1];
    var ps := db.participations + [p];
    assert ps[..|ps| - 1] == db.participations;
    assert ParticipationsOf(ps, pk) == ParticipationsOf(db.participations, pk) + [p];
    forall q | q in ParticipationsOf(db.participations, pk)
      ensures q.user != user
    {
      assert !(q in db.participations && q.user == user && q.quiz == quiz.id);
    }
    FirstByAfterNone(ParticipationsOf(db.participations, pk), p, user);
  }

  // ---------------------------------------------------------------------
  // The requests of test_quiz_results_view_participant and _creator
  // ---------------------------------------------------------------------

  /** Quiz 1 of user 1 with one question and one correct choice; user 2
      participated with score 100, selecting that choice. */
  const RESULTS_DB := Db([Quiz(1, 1, "Sample Quiz", true)], [Question(1, 1, "Sample Question")],
                         [Choice(1, 1, "Choice 1", true)], [Participation(1, 2, 1, 100.0)],
                         [ParticipationChoice(1, 1, 1)])

  lemma ParticipantResultsScenario()
    ensures ResultsSpec(RESULTS_DB, 2, 1) == Ok(ParticipantReport(1, 100.0))
  {
    var p := Participation(1, 2, 1, 100.0);
    assert ParticipationsOf([p], 1) == [p];
  }

  lemma CreatorResultsScenario()
    ensures ResultsSpec(RESULTS_DB, 1, 1)
      == Ok(CreatorReport(1, [ParticipationView(1, 2, 100.0, [1])], map[1 := [CreatorChoiceView(1, "Choice 1", true)]]))
  {
    var p := Participation(1, 2, 1, 100.0);
    var question := Question(1, 1, "Sample Question");
    var choice := Choice(1, 1, "Choice 1", true);
    assert ParticipationsOf([p], 1) == [p];
    assert SelectedChoiceIds([ParticipationChoice(1, 1, 1)], 1) == [1];
    assert ParticipationViews(RESULTS_DB, [p]) == [ParticipationView(1, 2, 100.0, [1])];
    assert QuestionsOf([question], 1) == [question];
    assert ChoicesOf([choice], 1) == [choice];
    assert CreatorChoices([choice]) == [CreatorChoiceView(1, "Choice 1", true)];
    assert [question][..0] == [];
  }
}
