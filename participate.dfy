/** `QuizParticipateView.post` (quiz/views.py): the ordered checks, the
    lookup of the posted choice ids, the score, and the writes of one
    participation with its selected choices. */
module ParticipateView {
  import opened Models
  import opened Scoring
  import opened Serializers
  import opened Responses

  /** One element of the posted `choices` list. Only `choice_id` is read;
      `question_id` travels along unused. */
  datatype ChoiceEntry = ChoiceEntry(questionId: int, choiceId: int)

  /** `[choice_data['choice_id'] for choice_data in request.data['choices']]`. */
  function ChoiceIdsOf(entries: seq<ChoiceEntry>): (r: seq<int>)
    ensures |r| == |entries|
    ensures forall i :: 0 <= i < |entries| ==> r[i] == entries[i].choiceId
  {
    seq(|entries|, i requires 0 <= i < |entries| => entries[i].choiceId)
  }

  /** A response together with the database it leaves behind. */
  datatype Outcome<T> = Outcome(response: Response<T>, db: Db)

  /** The ParticipationChoice rows linking `selected` to a participation, ids following `base`. */
  function Links(base: nat, participationId: nat, selected: seq<Choice>): (r: seq<ParticipationChoice>)
    ensures |r| == |selected|
  {
    seq(|selected|, i requires 0 <= i < |selected| => ParticipationChoice(base + i + 1, participationId, selected[i].id))
  }

  /** The database after the loop that links the selection to the participation. */
  function AddLinks(db: Db, participationId: nat, selected: seq<Choice>): Db {
    db.(participationChoices := db.participationChoices + Links(|db.participationChoices|, participationId, selected))
  }

  /** The ids of some choices, in order. */
  function IdsOf(cs: seq<Choice>): (r: seq<nat>)
    ensures |r| == |cs|
    ensures forall i :: 0 <= i < |cs| ==> r[i] == cs[i].id
  {
    seq(|cs|, i requires 0 <= i < |cs| => cs[i].id)
  }

  /** The whole request: 404 for an unknown quiz, then the three 403 checks
      in the order the view makes them, then 404 when none of the posted ids
      names a choice; otherwise one Participation row carrying the score and
      one ParticipationChoice row per resolved choice. */
  function ParticipateSpec(db: Db, user: UserId, pk: int, choiceIds: seq<int>): Outcome<real> {
    match FindQuiz(db.quizzes, pk)
    case None => Outcome(NotFound, db)
    case Some(quiz) =>
      if !quiz.isOpen then Outcome(Forbidden(QuizClosed), db)
      else if user == quiz.creator then Outcome(Forbidden(CreatorCannotParticipate), db)
      else if HasParticipated(db.participations, user, quiz.id) then Outcome(Forbidden(AlreadyParticipated), db)
      else
        var selected := Resolve(db.choices, choiceIds);
        if selected == [] then Outcome(NotFound, db)
        else
          var score := Score(QuestionsOf(db.questions, quiz.id), db.choices, selected);
          var participation := Participation(|db.participations| + 1, user, quiz.id, score);
          Outcome(Ok(score), AddLinks(db.(participations := db.participations + [participation]), participation.id, selected))
  }

  /** One more iteration of the linking loop writes one more row. */
  lemma AddLinksStep(db: Db, participationId: nat, selected: seq<Choice>, i: nat)
    requires i < |selected|
    ensures var before := AddLinks(db, participationId, selected[..i]);
      AddLinks(db, participationId, selected[..i + 1])
      == before.(participationChoices := before.participationChoices
                   + [ParticipationChoice(|before.participationChoices| + 1, participationId, selected[i].id)])
  {
    var base := |db.participationChoices|;
    assert Links(base, participationId, selected[..i + 1])
        == Links(base, participationId, selected[..i]) + [ParticipationChoice(base + i + 1, participationId, selected[i].id)];
  }

  /** The loop `for selected_choice in selected_choices`: one
      ParticipationChoice row per selected choice. */
  method WriteLinks(store: Database, participationId: nat, selected: seq<Choice>)
    requires store.Valid() && 1 <= participationId <= |store.participations|
    requires forall c :: c in selected ==> c in store.choices
    modifies store
    ensures store.Valid()
    ensures store.State() == AddLinks(old(store.State()), participationId, selected)
  {
    ghost var start := store.State();
    for i := 0 to |selected|
      invariant store.Valid() && store.participations == start.participations && store.choices == start.choices
      invariant store.State() == AddLinks(start, participationId, selected[..i])
    {
      ChoiceRowId(start, selected[i]);
      var _ := store.CreateParticipationChoice(participationId, selected[i].id);
      AddLinksStep(start, participationId, selected, i);
    }
    assert selected[..|selected|] == selected;
  }

  /** The view itself, on the store. */
  method Participate(store: Database, user: UserId, pk: int, entries: seq<ChoiceEntry>) returns (r: Response<real>)
    requires store.Valid()
    modifies store
    ensures store.Valid()
    ensures Outcome(r, store.State()) == ParticipateSpec(old(store.State()), user, pk, ChoiceIdsOf(entries))
  {
    var found := FindQuiz(store.quizzes, pk);
    if found.None? {
      return NotFound;
    }
    var quiz := found.value;
    if !quiz.isOpen {
      return Forbidden(QuizClosed);
    }
    if user == quiz.creator {
      return Forbidden(CreatorCannotParticipate);
    }
    if HasParticipated(store.participations, user, quiz.id) {
      return Forbidden(AlreadyParticipated);
    }

    var choiceIds := ChoiceIdsOf(entries);
    var selected := Resolve(store.choices, choiceIds);
    if selected == [] {
      return NotFound;
    }

    var score := CalculateScore(QuestionsOf(store.questions, quiz.id), store.choices, selected);

    QuizRowId(store.State(), quiz);
    var participation := store.CreateParticipation(user, quiz.id, score);
    WriteLinks(store, participation.id, selected);
    r := Ok(participation.score);
  }

  // ---------------------------------------------------------------------
  // The decision
  // ---------------------------------------------------------------------

  /** Which answer a request gets, check by check: each 403 needs every
      earlier check passed, a 404 after the checks means that not one
      posted id names a choice (ids that name nothing are otherwise dropped),
      and a request that passes every check with one id naming a choice is
      accepted. */
  lemma ParticipateDecision(db: Db, user: UserId, pk: int, choiceIds: seq<int>)
    ensures var r := ParticipateSpec(db, user, pk, choiceIds).response;
      var found := FindQuiz(db.quizzes, pk);
      && (r == Forbidden(QuizClosed) <==> found.Some? && !found.value.isOpen)
      && (r == Forbidden(CreatorCannotParticipate) <==>
            found.Some? && found.value.isOpen && user == found.value.creator)
      && (r == Forbidden(AlreadyParticipated) <==>
            found.Some? && found.value.isOpen && user != found.value.creator && HasParticipated(db.participations, user, pk))
      && (r == NotFound <==>
            found.None? ||
            (found.value.isOpen && user != found.value.creator && !HasParticipated(db.participations, user, pk)
             && forall c :: c in db.choices ==> c.id !in choiceIds))
      && (r.Ok? <==>
            found.Some? && found.value.isOpen && user != found.value.creator && !HasParticipated(db.participations, user, pk)
            && exists c :: c in db.choices && c.id in choiceIds)
  {
    var found := FindQuiz(db.quizzes, pk);
    if found.Some? {
      var selected := Resolve(db.choices, choiceIds);
      if selected != [] {
        assert selected[0] in db.choices && selected[0].id in choiceIds;
      }
    }
  }

  /** A refused request writes nothing. */
  lemma RejectionWritesNothing(db: Db, user: UserId, pk: int, choiceIds: seq<int>)
    ensures var outcome := ParticipateSpec(db, user, pk, choiceIds);
      !outcome.response.Ok? ==> outcome.db == db
  {
  }

  /** An accepted request passed every check. */
  lemma AcceptedGuards(db: Db, user: UserId, pk: int, choiceIds: seq<int>)
    requires ParticipateSpec(db, user, pk, choiceIds).response.Ok?
    ensures var found := FindQuiz(db.quizzes, pk);
      && found.Some? && found.value.id == pk && found.value.isOpen && user != found.value.creator
      && !HasParticipated(db.participations, user, pk)
      && Resolve(db.choices, choiceIds) != []
  {
  }

  /** The shape of an accepted request's outcome. */
  lemma AcceptedOutcome(db: Db, user: UserId, pk: int, choiceIds: seq<int>)
    requires ParticipateSpec(db, user, pk, choiceIds).response.Ok?
    ensures var selected := Resolve(db.choices, choiceIds);
      var score := Score(QuestionsOf(db.questions, pk), db.choices, selected);
      var participation := Participation(|db.participations| + 1, user, pk, score);
      ParticipateSpec(db, user, pk, choiceIds)
      == Outcome(Ok(score), AddLinks(db.(participations := db.participations + [participation]), participation.id, selected))
  {
    var quiz := FindQuiz(db.quizzes, pk).value;
    assert quiz.id == pk;
  }

  /** The links written for a new participation are the only ones under
      its id, and every older participation keeps its selection. */
  lemma LinksOfNewParticipation(db: Db, selected: seq<Choice>)
    requires WellFormed(db)
    ensures var id := |db.participations| + 1;
      var links := db.participationChoices + Links(|db.participationChoices|, id, selected);
      && SelectedChoiceIds(links, id) == IdsOf(selected)
      && (forall other :: 1 <= other < id ==>
            SelectedChoiceIds(links, other) == SelectedChoiceIds(db.participationChoices, other))
  {
    var id := |db.participations| + 1;
    var written := Links(|db.participationChoices|, id, selected);
    SelectedIdsOfOldLinks(db, id);
    SelectedIdsOfLinks(|db.participationChoices|, id, selected, id);
    SelectedChoiceIdsAppend(db.participationChoices, written, id);
    assert IdsOf(selected) == [] + IdsOf(selected);
    forall other | 1 <= other < id
      ensures SelectedChoiceIds(db.participationChoices + written, other) == SelectedChoiceIds(db.participationChoices, other)
    {
      SelectedIdsOfLinks(|db.participationChoices|, id, selected, other);
      SelectedChoiceIdsAppend(db.participationChoices, written, other);
      assert SelectedChoiceIds(db.participationChoices, other) + [] == SelectedChoiceIds(db.participationChoices, other);
    }
  }

  /** An accepted request adds one participation by `user` on quiz `pk`
      scored over the resolved choices, and links exactly those choices to
      it; nothing else changes and no earlier participation's selection moves. */
  lemma SuccessfulParticipation(db: Db, user: UserId, pk: int, choiceIds: seq<int>)
    requires WellFormed(db)
    requires ParticipateSpec(db, user, pk, choiceIds).response.Ok?
    ensures var outcome := ParticipateSpec(db, user, pk, choiceIds);
      var after := outcome.db;
      var selected := Resolve(db.choices, choiceIds);
      var id := |db.participations| + 1;
      && after.quizzes == db.quizzes && after.questions == db.questions && after.choices == db.choices
      && after.participations == db.participations + [Participation(id, user, pk, outcome.response.value)]
      && outcome.response.value == Score(QuestionsOf(db.questions, pk), db.choices, selected)
      && |after.participationChoices| == |db.participationChoices| + |selected|
      && SelectedChoiceIds(after.participationChoices, id) == IdsOf(selected)
      && (forall other :: 1 <= other < id ==>
            SelectedChoiceIds(after.participationChoices, other) == SelectedChoiceIds(db.participationChoices, other))
  {
    AcceptedOutcome(db, user, pk, choiceIds);
    LinksOfNewParticipation(db, Resolve(db.choices, choiceIds));
  }

  /** No stored link points at a participation that does not exist yet. */
  lemma SelectedIdsOfOldLinks(db: Db, id: nat)
    requires WellFormed(db) && id > |db.participations|
    ensures SelectedChoiceIds(db.participationChoices, id) == []
  {
    forall l | l in db.participationChoices
      ensures l.participation != id
    {
      var k :| 0 <= k < |db.participationChoices| && db.participationChoices[k] == l;
    }
    NoSelectedChoiceIds(db.participationChoices, id);
  }

  lemma {:induction false} NoSelectedChoiceIds(links: seq<ParticipationChoice>, id: nat)
    requires forall l :: l in links ==> l.participation != id
    ensures SelectedChoiceIds(links, id) == []
  {
    if links != [] {
      NoSelectedChoiceIds(links[..|links| - 1], id);
    }
  }

  /** The selected ids recorded under `id` in freshly written links. */
  lemma {:induction false} SelectedIdsOfLinks(base: nat, participationId: nat, selected: seq<Choice>, id: nat)
    ensures SelectedChoiceIds(Links(base, participationId, selected), id)
      == if id == participationId then IdsOf(selected) else []
  {
    if selected != [] {
      var init := selected[..|selected| - 1];
      var rows := Links(base, participationId, selected);
      assert rows[..|rows| - 1] == Links(base, participationId, init);
      SelectedIdsOfLinks(base, participationId, init, id);
      assert IdsOf(selected) == IdsOf(init) + [selected[|selected| - 1].id];
    }
  }

  lemma {:induction false} SelectedChoiceIdsAppend(a: seq<ParticipationChoice>, b: seq<ParticipationChoice>, id: nat)
    ensures SelectedChoiceIds(a + b, id) == SelectedChoiceIds(a, id) + SelectedChoiceIds(b, id)
  {
    if b == [] {
      assert a + b == a;
    } else {
      var init := b[..|b| - 1];
      assert (a + b)[..|a + b| - 1] == a + init;
      SelectedChoiceIdsAppend(a, init, id);
    }
  }

  /** Every stored score lies between 0 and 100. */
  lemma ParticipatedScoreInRange(db: Db, user: UserId, pk: int, choiceIds: seq<int>)
    requires WellFormed(db)
    ensures var r := ParticipateSpec(db, user, pk, choiceIds).response;
      r.Ok? ==> 0.0 <= r.value <= 100.0
  {
    if ParticipateSpec(db, user, pk, choiceIds).response.Ok? {
      AcceptedOutcome(db, user, pk, choiceIds);
      ChoicesDistinct(db);
      ResolveDistinct(db.choices, choiceIds);
      ScoreInRange(QuestionsOf(db.questions, pk), db.choices, Resolve(db.choices, choiceIds));
    }
  }

  /** Once a request of `user` on quiz `pk` has been accepted, every later
      one is refused as a repeat and writes nothing. */
  lemma SecondAttemptRefused(db: Db, user: UserId, pk: int, first: seq<int>, second: seq<int>)
    requires ParticipateSpec(db, user, pk, first).response.Ok?
    ensures var after := ParticipateSpec(db, user, pk, first).db;
      ParticipateSpec(after, user, pk, second) == Outcome(Forbidden(AlreadyParticipated), after)
  {
    var after := ParticipateSpec(db, user, pk, first).db;
    var p := after.participations[|after.participations| - 1];
    assert p in after.participations && p.user == user && p.quiz == pk;
  }

  // ---------------------------------------------------------------------
  // What the guards keep true of the stored participations
  // ---------------------------------------------------------------------

  /** At most one participation per user and quiz, and none by a quiz's own
      creator. The database does not enforce either (no unique constraint):
      only the view's checks do. */
  predicate Consistent(db: Db) {
    && WellFormed(db)
    && (forall i, j :: 0 <= i < j < |db.participations| ==>
          db.participations[i].user != db.participations[j].user || db.participations[i].quiz != db.participations[j].quiz)
    && (forall i :: 0 <= i < |db.participations| ==>
          db.participations[i].user != db.quizzes[db.participations[i].quiz - 1].creator)
  }

  lemma LinksWellFormed(db: Db, participationId: nat, selected: seq<Choice>)
    requires WellFormed(db) && 1 <= participationId <= |db.participations|
    requires forall c :: c in selected ==> c in db.choices
    ensures WellFormed(AddLinks(db, participationId, selected))
  {
    var after := AddLinks(db, participationId, selected);
    var written := Links(|db.participationChoices|, participationId, selected);
    assert after.participationChoices == db.participationChoices + written;
    forall i | |db.participationChoices| <= i < |after.participationChoices|
      ensures && after.participationChoices[i].id == i + 1
              && 1 <= after.participationChoices[i].participation <= |after.participations|
              && 1 <= after.participationChoices[i].selectedChoice <= |after.choices|
    {
      var k := i - |db.participationChoices|;
      assert after.participationChoices[i] == written[k];
      ChoiceRowId(db, selected[k]);
    }
  }

  /** Recording a participation that passed the guards keeps consistency. */
  lemma AddParticipationConsistent(db: Db, p: Participation)
    requires Consistent(db)
    requires p.id == |db.participations| + 1 && 1 <= p.quiz <= |db.quizzes|
    requires p.user != db.quizzes[p.quiz - 1].creator
    requires !HasParticipated(db.participations, p.user, p.quiz)
    ensures Consistent(db.(participations := db.participations + [p]))
  {
    var ps := db.participations + [p];
    forall i, j | 0 <= i < j < |ps|
      ensures ps[i].user != ps[j].user || ps[i].quiz != ps[j].quiz
    {
      if j == |ps| - 1 {
        assert ps[i] in db.participations;
      }
    }
  }

  /** Linking choices to an existing participation keeps consistency. */
  lemma AddLinksConsistent(db: Db, participationId: nat, selected: seq<Choice>)
    requires Consistent(db) && 1 <= participationId <= |db.participations|
    requires forall c :: c in selected ==> c in db.choices
    ensures Consistent(AddLinks(db, participationId, selected))
  {
    LinksWellFormed(db, participationId, selected);
  }

  /** The writes of a request that passed the checks keep consistency. */
  lemma AcceptedWritesKeepConsistency(db: Db, user: UserId, quiz: Quiz, selected: seq<Choice>, score: real)
    requires Consistent(db) && quiz in db.quizzes && user != quiz.creator
    requires !HasParticipated(db.participations, user, quiz.id)
    requires forall c :: c in selected ==> c in db.choices
    ensures var participation := Participation(|db.participations| + 1, user, quiz.id, score);
      Consistent(AddLinks(db.(participations := db.participations + [participation]), participation.id, selected))
  {
    QuizRowId(db, quiz);
    var participation := Participation(|db.participations| + 1, user, quiz.id, score);
    AddParticipationConsistent(db, participation);
    AddLinksConsistent(db.(participations := db.participations + [participation]), participation.id, selected);
  }

  /** An accepted or refused participation keeps the database consistent. */
  lemma ParticipatePreservesConsistency(db: Db, user: UserId, pk: int, choiceIds: seq<int>)
    requires Consistent(db)
    ensures Consistent(ParticipateSpec(db, user, pk, choiceIds).db)
  {
    if ParticipateSpec(db, user, pk, choiceIds).response.Ok? {
      AcceptedGuards(db, user, pk, choiceIds);
      AcceptedOutcome(db, user, pk, choiceIds);
      var selected := Resolve(db.choices, choiceIds);
      AcceptedWritesKeepConsistency(db, user, FindQuiz(db.quizzes, pk).value, selected,
                                    Score(QuestionsOf(db.questions, pk), db.choices, selected));
    }
  }

  /** Quiz creation keeps the database consistent. */
  lemma CreatePreservesConsistency(db: Db, creator: UserId, input: QuizInput)
    requires Consistent(db)
    ensures Consistent(CreateQuizSpec(db, creator, input))
  {
    var after := CreateQuizSpec(db, creator, input);
    var quiz := Quiz(|db.quizzes| + 1, creator, input.title, input.isOpen.GetOr(true));
    CreatePreservesWellFormed(db, creator, input);
    AddQuestionsAppends(db.(quizzes := db.quizzes + [quiz]), quiz.id, input.questions);
    assert after.quizzes == db.quizzes + [quiz];
  }

  // ---------------------------------------------------------------------
  // The request of test_participate_in_quiz
  // ---------------------------------------------------------------------

  const SCENARIO_QUIZ := Quiz(1, 1, "Sample Quiz", true)
  const SCENARIO_QUESTION := Question(1, 1, "Sample Question")
  const SCENARIO_CHOICE := Choice(1, 1, "Choice 1", true)

  /** Quiz 1 of user 1: one question with one correct choice, nobody has participated. */
  const PARTICIPATE_DB := Db([SCENARIO_QUIZ], [SCENARIO_QUESTION], [SCENARIO_CHOICE], [], [])

  /** Selecting the only choice, which is correct, scores 100. */
  lemma OnlyCorrectChoiceScoresHundred()
    ensures Score([SCENARIO_QUESTION], [SCENARIO_CHOICE], [SCENARIO_CHOICE]) == 100.0
  {
    assert ChoicesOf([SCENARIO_CHOICE], 1) == [SCENARIO_CHOICE];
    assert CountCorrect([SCENARIO_CHOICE]) == 1;
    assert QuestionScore(SCENARIO_QUESTION, [SCENARIO_CHOICE], [SCENARIO_CHOICE]) == 1.0;
    assert [SCENARIO_QUESTION][..0] == [];
    assert SumScores([SCENARIO_QUESTION], [SCENARIO_CHOICE], [SCENARIO_CHOICE]) == 1.0;
  }

  /** The lookups the view makes in the scenario. */
  lemma ScenarioLookups()
    ensures FindQuiz(PARTICIPATE_DB.quizzes, 1) == Some(SCENARIO_QUIZ)
    ensures !HasParticipated(PARTICIPATE_DB.participations, 2, 1)
    ensures Resolve([SCENARIO_CHOICE], [1]) == [SCENARIO_CHOICE]
    ensures QuestionsOf([SCENARIO_QUESTION], 1) == [SCENARIO_QUESTION]
  {
    assert [SCENARIO_CHOICE][..0] == [];
    assert [SCENARIO_QUESTION][..0] == [];
  }

  /** The participant selects the only choice: 100 points, one
      participation and one link. */
  lemma SingleCorrectChoiceScenario()
    ensures var outcome := ParticipateSpec(PARTICIPATE_DB, 2, 1, ChoiceIdsOf([ChoiceEntry(1, 1)]));
      && outcome.response == Ok(100.0)
      && |outcome.db.participations| == 1
      && |outcome.db.participationChoices| == 1
  {
    assert ChoiceIdsOf([ChoiceEntry(1, 1)]) == [1];
    ScenarioLookups();
    OnlyCorrectChoiceScoresHundred();
    var participation := Participation(1, 2, 1, 100.0);
    assert ParticipateSpec(PARTICIPATE_DB, 2, 1, [1])
        == Outcome(Ok(100.0), AddLinks(PARTICIPATE_DB.(participations := [participation]), 1, [SCENARIO_CHOICE]));
  }
}
