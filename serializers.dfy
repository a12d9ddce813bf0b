/** The serializers of quiz/serializers.py: which fields each representation
    exposes (only the creator's choice view carries `is_correct`), and the
    nested write of `CreatorQuizSerializer.create`, which stores one quiz,
    its questions and their choices. */
module Serializers {
  import opened Models

  // ---------------------------------------------------------------------
  // Representations (the `fields` lists; `created_at` is left out)
  // ---------------------------------------------------------------------

  /** `ChoiceSerializer`: id and text only. */
  datatype ChoiceView = ChoiceView(id: nat, text: string)

  /** `CreatorChoiceSerializer`: the fields of `ChoiceSerializer` plus is_correct. */
  datatype CreatorChoiceView = CreatorChoiceView(id: nat, text: string, isCorrect: bool)

  /** `QuestionSerializer` (C = ChoiceView) and `CreatorQuestionSerializer` (C = CreatorChoiceView). */
  datatype QuestionView<C> = QuestionView(id: nat, text: string, choices: seq<C>)

  /** `QuizSerializer` and `CreatorQuizSerializer`. */
  datatype QuizView<C> = QuizView(id: nat, title: string, isOpen: bool, creator: UserId, questions: seq<QuestionView<C>>)

  function PublicChoices(cs: seq<Choice>): (r: seq<ChoiceView>)
    ensures |r| == |cs|
    ensures forall i :: 0 <= i < |cs| ==> r[i].id == cs[i].id && r[i].text == cs[i].text
  {
    seq(|cs|, i requires 0 <= i < |cs| => ChoiceView(cs[i].id, cs[i].text))
  }

  function CreatorChoices(cs: seq<Choice>): (r: seq<CreatorChoiceView>)
    ensures |r| == |cs|
    ensures forall i :: 0 <= i < |cs| ==> r[i] == CreatorChoiceView(cs[i].id, cs[i].text, cs[i].isCorrect)
  {
    seq(|cs|, i requires 0 <= i < |cs| => CreatorChoiceView(cs[i].id, cs[i].text, cs[i].isCorrect))
  }

  /** The public view of one choice is its creator view without is_correct. */
  function Redact(v: CreatorChoiceView): ChoiceView {
    ChoiceView(v.id, v.text)
  }

  function PublicQuestions(questions: seq<Question>, choices: seq<Choice>): (r: seq<QuestionView<ChoiceView>>)
    ensures |r| == |questions|
    ensures forall i :: 0 <= i < |questions| ==>
      r[i].id == questions[i].id && r[i].text == questions[i].text
      && r[i].choices == PublicChoices(ChoicesOf(choices, questions[i].id))
  {
    seq(|questions|, i requires 0 <= i < |questions| =>
      QuestionView(questions[i].id, questions[i].text, PublicChoices(ChoicesOf(choices, questions[i].id))))
  }

  function CreatorQuestions(questions: seq<Question>, choices: seq<Choice>): (r: seq<QuestionView<CreatorChoiceView>>)
    ensures |r| == |questions|
    ensures forall i :: 0 <= i < |questions| ==>
      r[i].id == questions[i].id && r[i].text == questions[i].text
      && r[i].choices == CreatorChoices(ChoicesOf(choices, questions[i].id))
  {
    seq(|questions|, i requires 0 <= i < |questions| =>
      QuestionView(questions[i].id, questions[i].text, CreatorChoices(ChoicesOf(choices, questions[i].id))))
  }

  /** `QuizSerializer(quiz).data`, the quiz detail every requester gets: the
      quiz's own fields, every question of the quiz with all of its choices,
      and nothing else; each choice as id and text. */
  function QuizRepresentation(db: Db, quiz: Quiz): (r: QuizView<ChoiceView>)
    ensures r.id == quiz.id && r.title == quiz.title && r.isOpen == quiz.isOpen && r.creator == quiz.creator
    ensures |r.questions| == |QuestionsOf(db.questions, quiz.id)|
    ensures forall v :: v in r.questions ==>
      exists q :: q in db.questions && q.quiz == quiz.id && v.id == q.id && v.text == q.text
    ensures forall v, c :: v in r.questions && c in v.choices ==>
      exists ch :: ch in db.choices && ch.question == v.id && c == ChoiceView(ch.id, ch.text)
    ensures forall q :: q in QuestionsOf(db.questions, quiz.id) ==>
      exists v :: v in r.questions && v.id == q.id && v.text == q.text && v.choices == PublicChoices(ChoicesOf(db.choices, q.id))
  {
    var questions := QuestionsOf(db.questions, quiz.id);
    PublicQuestionsBelong(questions, db.choices);
    QuizView(quiz.id, quiz.title, quiz.isOpen, quiz.creator, PublicQuestions(questions, db.choices))
  }

  /** `CreatorQuizSerializer(quiz).data`, what quiz creation answers with:
      the same questions and choices, each choice with its true is_correct. */
  function CreatorQuizRepresentation(db: Db, quiz: Quiz): (r: QuizView<CreatorChoiceView>)
    ensures r.id == quiz.id && r.title == quiz.title && r.isOpen == quiz.isOpen && r.creator == quiz.creator
    ensures |r.questions| == |QuestionsOf(db.questions, quiz.id)|
    ensures forall v :: v in r.questions ==>
      exists q :: q in db.questions && q.quiz == quiz.id && v.id == q.id && v.text == q.text
    ensures forall v, c :: v in r.questions && c in v.choices ==>
      exists ch :: ch in db.choices && ch.question == v.id && c == CreatorChoiceView(ch.id, ch.text, ch.isCorrect)
    ensures forall q :: q in QuestionsOf(db.questions, quiz.id) ==>
      exists v :: v in r.questions && v.id == q.id && v.text == q.text && v.choices == CreatorChoices(ChoicesOf(db.choices, q.id))
  {
    var questions := QuestionsOf(db.questions, quiz.id);
    CreatorQuestionsBelong(questions, db.choices);
    QuizView(quiz.id, quiz.title, quiz.isOpen, quiz.creator, CreatorQuestions(questions, db.choices))
  }

  /** Every question view comes from one of `questions`, and every choice in
      it from a choice of that question; every question is listed with all
      of its choices. */
  lemma PublicQuestionsBelong(questions: seq<Question>, choices: seq<Choice>)
    ensures forall v :: v in PublicQuestions(questions, choices) ==>
      exists q :: q in questions && v.id == q.id && v.text == q.text
    ensures forall v, c :: v in PublicQuestions(questions, choices) && c in v.choices ==>
      exists ch :: ch in choices && ch.question == v.id && c == ChoiceView(ch.id, ch.text)
    ensures forall q :: q in questions ==>
      exists v :: v in PublicQuestions(questions, choices) && v.id == q.id && v.text == q.text
        && v.choices == PublicChoices(ChoicesOf(choices, q.id))
  {
    var r := PublicQuestions(questions, choices);
    forall q | q in questions
      ensures exists v :: v in r && v.id == q.id && v.text == q.text && v.choices == PublicChoices(ChoicesOf(choices, q.id))
    {
      var i :| 0 <= i < |questions| && questions[i] == q;
      assert r[i] in r;
    }
    forall v | v in r ensures exists q :: q in questions && v.id == q.id && v.text == q.text {
      var i :| 0 <= i < |r| && r[i] == v;
      assert questions[i] in questions;
    }
    forall v, c | v in r && c in v.choices
      ensures exists ch :: ch in choices && ch.question == v.id && c == ChoiceView(ch.id, ch.text)
    {
      var i :| 0 <= i < |r| && r[i] == v;
      var own := ChoicesOf(choices, questions[i].id);
      var j :| 0 <= j < |v.choices| && v.choices[j] == c;
      assert own[j] in own;
    }
  }

  /** Every creator question view comes from one of `questions`, and every
      choice in it from a choice of that question, with its is_correct;
      every question is listed with all of its choices. */
  lemma CreatorQuestionsBelong(questions: seq<Question>, choices: seq<Choice>)
    ensures forall v :: v in CreatorQuestions(questions, choices) ==>
      exists q :: q in questions && v.id == q.id && v.text == q.text
    ensures forall v, c :: v in CreatorQuestions(questions, choices) && c in v.choices ==>
      exists ch :: ch in choices && ch.question == v.id && c == CreatorChoiceView(ch.id, ch.text, ch.isCorrect)
    ensures forall q :: q in questions ==>
      exists v :: v in CreatorQuestions(questions, choices) && v.id == q.id && v.text == q.text
        && v.choices == CreatorChoices(ChoicesOf(choices, q.id))
  {
    var r := CreatorQuestions(questions, choices);
    forall q | q in questions
      ensures exists v :: v in r && v.id == q.id && v.text == q.text && v.choices == CreatorChoices(ChoicesOf(choices, q.id))
    {
      var i :| 0 <= i < |questions| && questions[i] == q;
      assert r[i] in r;
    }
    forall v | v in r ensures exists q :: q in questions && v.id == q.id && v.text == q.text {
      var i :| 0 <= i < |r| && r[i] == v;
      assert questions[i] in questions;
    }
    forall v, c | v in r && c in v.choices
      ensures exists ch :: ch in choices && ch.question == v.id && c == CreatorChoiceView(ch.id, ch.text, ch.isCorrect)
    {
      var i :| 0 <= i < |r| && r[i] == v;
      var own := ChoicesOf(choices, questions[i].id);
      var j :| 0 <= j < |v.choices| && v.choices[j] == c;
      assert own[j] in own;
    }
  }

  function RedactQuiz(v: QuizView<CreatorChoiceView>): QuizView<ChoiceView> {
    QuizView(v.id, v.title, v.isOpen, v.creator,
      seq(|v.questions|, i requires 0 <= i < |v.questions| =>
        QuestionView(v.questions[i].id, v.questions[i].text,
          seq(|v.questions[i].choices|, j requires 0 <= j < |v.questions[i].choices| => Redact(v.questions[i].choices[j])))))
  }

  /** The creator's choice view extends the public one by exactly is_correct. */
  lemma CreatorViewExtendsPublicView(cs: seq<Choice>)
    ensures |CreatorChoices(cs)| == |PublicChoices(cs)|
    ensures forall i :: 0 <= i < |cs| ==>
      Redact(CreatorChoices(cs)[i]) == PublicChoices(cs)[i] && CreatorChoices(cs)[i].isCorrect == cs[i].isCorrect
  {
  }

  /** The detail representation is the creator's with is_correct removed
      from every choice: nothing else is hidden, and is_correct never shows. */
  lemma DetailIsRedactedCreatorView(db: Db, quiz: Quiz)
    ensures QuizRepresentation(db, quiz) == RedactQuiz(CreatorQuizRepresentation(db, quiz))
  {
    var detail := QuizRepresentation(db, quiz);
    var redacted := RedactQuiz(CreatorQuizRepresentation(db, quiz));
    assert |detail.questions| == |redacted.questions|;
    forall i | 0 <= i < |detail.questions|
      ensures detail.questions[i] == redacted.questions[i]
    {
      assert detail.questions[i].choices == redacted.questions[i].choices;
    }
  }

  // ---------------------------------------------------------------------
  // Nested creation (`CreatorQuizSerializer.create`)
  // ---------------------------------------------------------------------

  /** A choice as posted; is_correct may be omitted (model default False). */
  datatype ChoiceInput = ChoiceInput(text: string, isCorrect: Option<bool>)
  datatype QuestionInput = QuestionInput(text: string, choices: seq<ChoiceInput>)
  /** The validated quiz payload; is_open may be omitted (model default True).
      There is no creator field: `creator` is read-only. */
  datatype QuizInput = QuizInput(title: string, isOpen: Option<bool>, questions: seq<QuestionInput>)

  /** The choice rows written for `inputs`, ids following `base`. */
  function NewChoices(base: nat, questionId: nat, inputs: seq<ChoiceInput>): (r: seq<Choice>)
    ensures |r| == |inputs|
  {
    seq(|inputs|, i requires 0 <= i < |inputs| =>
      Choice(base + i + 1, questionId, inputs[i].text, inputs[i].isCorrect.GetOr(false)))
  }

  /** The database after the choice loop of one question. */
  function AddChoices(db: Db, questionId: nat, inputs: seq<ChoiceInput>): Db {
    db.(choices := db.choices + NewChoices(|db.choices|, questionId, inputs))
  }

  /** The database after one iteration of the question loop: the question row, then its choices. */
  function AddQuestion(db: Db, quizId: nat, input: QuestionInput): Db {
    var question := Question(|db.questions| + 1, quizId, input.text);
    AddChoices(db.(questions := db.questions + [question]), question.id, input.choices)
  }

  /** How many choices the payload holds, over all questions. */
  function TotalChoices(inputs: seq<QuestionInput>): nat {
    if inputs == [] then 0
    else TotalChoices(inputs[..|inputs| - 1]) + |inputs[|inputs| - 1].choices|
  }

  /** The database after the question loop: one Question row per input
      question and one Choice row per input choice, appended; the other
      tables are untouched. */
  function AddQuestions(db: Db, quizId: nat, inputs: seq<QuestionInput>): Db {
    if inputs == [] then db
    else AddQuestion(AddQuestions(db, quizId, inputs[..|inputs| - 1]), quizId, inputs[|inputs| - 1])
  }

  /** The question loop only appends questions and choices. */
  lemma {:induction false} AddQuestionsAppends(db: Db, quizId: nat, inputs: seq<QuestionInput>)
    ensures var r := AddQuestions(db, quizId, inputs);
      && r.quizzes == db.quizzes
      && r.participations == db.participations && r.participationChoices == db.participationChoices
      && |r.questions| == |db.questions| + |inputs| && r.questions[..|db.questions|] == db.questions
      && |r.choices| == |db.choices| + TotalChoices(inputs) && r.choices[..|db.choices|] == db.choices
  {
    if inputs != [] {
      var init := inputs[..|inputs| - 1];
      AddQuestionsAppends(db, quizId, init);
      var mid := AddQuestions(db, quizId, init);
      var r := AddQuestion(mid, quizId, inputs[|inputs| - 1]);
      assert r.questions[..|db.questions|] == mid.questions[..|db.questions|];
      assert r.choices[..|db.choices|] == mid.choices[..|db.choices|];
    }
  }

  /** The whole write: the quiz row (creator from the requester), then the
      question loop. */
  function CreateQuizSpec(db: Db, creator: UserId, input: QuizInput): Db {
    var quiz := Quiz(|db.quizzes| + 1, creator, input.title, input.isOpen.GetOr(true));
    AddQuestions(db.(quizzes := db.quizzes + [quiz]), quiz.id, input.questions)
  }

  /** One more choice input writes one more choice row. */
  lemma AddChoicesStep(db: Db, questionId: nat, inputs: seq<ChoiceInput>, j: nat)
    requires j < |inputs|
    ensures var before := AddChoices(db, questionId, inputs[..j]);
      AddChoices(db, questionId, inputs[..j + 1])
      == before.(choices := before.choices + [Choice(|before.choices| + 1, questionId, inputs[j].text, inputs[j].isCorrect.GetOr(false))])
  {
    var base := |db.choices|;
    var row := Choice(base + j + 1, questionId, inputs[j].text, inputs[j].isCorrect.GetOr(false));
    assert NewChoices(base, questionId, inputs[..j + 1]) == NewChoices(base, questionId, inputs[..j]) + [row];
  }

  /** One more question input runs one more iteration of the question loop. */
  lemma AddQuestionsStep(db: Db, quizId: nat, inputs: seq<QuestionInput>, i: nat)
    requires i < |inputs|
    ensures AddQuestions(db, quizId, inputs[..i + 1]) == AddQuestion(AddQuestions(db, quizId, inputs[..i]), quizId, inputs[i])
  {
    assert inputs[..i + 1][..i] == inputs[..i];
  }

  /** The inner loop of `CreatorQuizSerializer.create`: one Choice row per
      choice input, linked to question `questionId`. */
  method WriteChoices(store: Database, questionId: nat, inputs: seq<ChoiceInput>)
    requires store.Valid() && 1 <= questionId <= |store.questions|
    modifies store
    ensures store.Valid()
    ensures store.State() == AddChoices(old(store.State()), questionId, inputs)
  {
    ghost var start := store.State();
    for j := 0 to |inputs|
      invariant store.Valid() && |store.questions| == |start.questions|
      invariant store.State() == AddChoices(start, questionId, inputs[..j])
    {
      var choiceData := inputs[j];
      var _ := store.CreateChoice(questionId, choiceData.text, choiceData.isCorrect.GetOr(false));
      AddChoicesStep(start, questionId, inputs, j);
    }
    assert inputs[..|inputs|] == inputs;
  }

  /** `CreatorQuizSerializer.create`, with the requester as creator
      (`perform_create` in quiz/views.py): the quiz row, then for each
      question its row followed by its choices. */
  method Create(store: Database, creator: UserId, input: QuizInput) returns (quiz: Quiz)
    requires store.Valid()
    modifies store
    ensures store.Valid()
    ensures quiz == Quiz(|old(store.quizzes)| + 1, creator, input.title, input.isOpen.GetOr(true))
    ensures store.State() == CreateQuizSpec(old(store.State()), creator, input)
  {
    quiz := store.CreateQuiz(creator, input.title, input.isOpen.GetOr(true));
    ghost var afterQuiz := store.State();
    for i := 0 to |input.questions|
      invariant store.Valid() && |store.quizzes| == quiz.id
      invariant store.State() == AddQuestions(afterQuiz, quiz.id, input.questions[..i])
    {
      var questionData := input.questions[i];
      ghost var before := store.State();
      var question := store.CreateQuestion(quiz.id, questionData.text);
      ghost var withQuestion := store.State();
      assert withQuestion == before.(questions := before.questions + [question]);
      WriteChoices(store, question.id, questionData.choices);
      assert store.State() == AddQuestion(before, quiz.id, questionData);
      AddQuestionsStep(afterQuiz, quiz.id, input.questions, i);
    }
    assert input.questions[..|input.questions|] == input.questions;
  }

  // ---------------------------------------------------------------------
  // What creation promises
  // ---------------------------------------------------------------------

  /** Creation adds exactly one quiz, one question per input question and one
      choice per input choice, and no participation. */
  lemma CreateQuizCounts(db: Db, creator: UserId, input: QuizInput)
    ensures var after := CreateQuizSpec(db, creator, input);
      && |after.quizzes| == |db.quizzes| + 1
      && |after.questions| == |db.questions| + |input.questions|
      && |after.choices| == |db.choices| + TotalChoices(input.questions)
      && after.participations == db.participations
      && after.participationChoices == db.participationChoices
  {
    var quiz := Quiz(|db.quizzes| + 1, creator, input.title, input.isOpen.GetOr(true));
    AddQuestionsAppends(db.(quizzes := db.quizzes + [quiz]), quiz.id, input.questions);
  }

  /** The posted quiz of two questions with two choices each writes 1 quiz,
      2 questions and 4 choices into an empty database. */
  lemma CreationScenario(creator: UserId)
    ensures var input := QuizInput("Sample Quiz", None, [
              QuestionInput("Sample Question 1", [ChoiceInput("Choice 1", Some(true)), ChoiceInput("Choice 2", Some(false))]),
              QuestionInput("Sample Question 2", [ChoiceInput("Choice A", Some(false)), ChoiceInput("Choice B", Some(true))])]);
            var after := CreateQuizSpec(Db([], [], [], [], []), creator, input);
            |after.quizzes| == 1 && |after.questions| == 2 && |after.choices| == 4
  {
    var input := QuizInput("Sample Quiz", None, [
      QuestionInput("Sample Question 1", [ChoiceInput("Choice 1", Some(true)), ChoiceInput("Choice 2", Some(false))]),
      QuestionInput("Sample Question 2", [ChoiceInput("Choice A", Some(false)), ChoiceInput("Choice B", Some(true))])]);
    assert input.questions[..1][..0] == [];
    assert TotalChoices(input.questions) == 4;
    CreateQuizCounts(Db([], [], [], [], []), creator, input);
  }

  lemma AddQuestionWellFormed(db: Db, quizId: nat, input: QuestionInput)
    requires WellFormed(db) && 1 <= quizId <= |db.quizzes|
    ensures WellFormed(AddQuestion(db, quizId, input))
  {
    var after := AddQuestion(db, quizId, input);
    var written := NewChoices(|db.choices|, |db.questions| + 1, input.choices);
    assert after.choices == db.choices + written;
    forall i | 0 <= i < |after.choices|
      ensures after.choices[i].id == i + 1 && 1 <= after.choices[i].question <= |after.questions|
    {
      if i >= |db.choices| {
        assert after.choices[i] == written[i - |db.choices|];
      }
    }
  }

  lemma {:induction false} AddQuestionsWellFormed(db: Db, quizId: nat, inputs: seq<QuestionInput>)
    requires WellFormed(db) && 1 <= quizId <= |db.quizzes|
    ensures WellFormed(AddQuestions(db, quizId, inputs))
  {
    if inputs != [] {
      AddQuestionsWellFormed(db, quizId, inputs[..|inputs| - 1]);
      AddQuestionsAppends(db, quizId, inputs[..|inputs| - 1]);
      AddQuestionWellFormed(AddQuestions(db, quizId, inputs[..|inputs| - 1]), quizId, inputs[|inputs| - 1]);
    }
  }

  /** Creation keeps the database well formed. */
  lemma CreatePreservesWellFormed(db: Db, creator: UserId, input: QuizInput)
    requires WellFormed(db)
    ensures WellFormed(CreateQuizSpec(db, creator, input))
  {
    var quiz := Quiz(|db.quizzes| + 1, creator, input.title, input.isOpen.GetOr(true));
    var withQuiz := db.(quizzes := db.quizzes + [quiz]);
    assert WellFormed(withQuiz);
    AddQuestionsWellFormed(withQuiz, quiz.id, input.questions);
  }

  // ---------------------------------------------------------------------
  // Reading a created quiz back
  // ---------------------------------------------------------------------

  /** A choice as it is stored: the default for is_correct filled in. */
  function StoredChoice(input: ChoiceInput): ChoiceInput {
    ChoiceInput(input.text, Some(input.isCorrect.GetOr(false)))
  }

  function StoredQuestion(input: QuestionInput): QuestionInput {
    QuestionInput(input.text, seq(|input.choices|, i requires 0 <= i < |input.choices| => StoredChoice(input.choices[i])))
  }

  function StoredQuestions(inputs: seq<QuestionInput>): (r: seq<QuestionInput>)
    ensures |r| == |inputs|
  {
    seq(|inputs|, i requires 0 <= i < |inputs| => StoredQuestion(inputs[i]))
  }

  lemma StoredQuestionsSnoc(init: seq<QuestionInput>, last: QuestionInput)
    ensures StoredQuestions(init + [last]) == StoredQuestions(init) + [StoredQuestion(last)]
  {
    var all := init + [last];
    forall k | 0 <= k < |all|
      ensures StoredQuestions(all)[k] == (StoredQuestions(init) + [StoredQuestion(last)])[k]
    {
      if k < |init| {
        assert all[k] == init[k];
      }
    }
  }

  /** The payload with every model default filled in. */
  function Normalized(input: QuizInput): QuizInput {
    QuizInput(input.title, Some(input.isOpen.GetOr(true)), StoredQuestions(input.questions))
  }

  function EchoChoices(views: seq<CreatorChoiceView>): seq<ChoiceInput> {
    seq(|views|, i requires 0 <= i < |views| => ChoiceInput(views[i].text, Some(views[i].isCorrect)))
  }

  function EchoQuestions(views: seq<QuestionView<CreatorChoiceView>>): (r: seq<QuestionInput>)
    ensures |r| == |views|
  {
    seq(|views|, i requires 0 <= i < |views| => QuestionInput(views[i].text, EchoChoices(views[i].choices)))
  }

  /** A creator representation turned back into a payload (ids dropped). */
  function Echo(view: QuizView<CreatorChoiceView>): QuizInput {
    QuizInput(view.title, Some(view.isOpen), EchoQuestions(view.questions))
  }

  /** The payload form of the questions of quiz `quizId` as stored in `db`. */
  function ReadBack(db: Db, quizId: nat): seq<QuestionInput> {
    EchoQuestions(CreatorQuestions(QuestionsOf(db.questions, quizId), db.choices))
  }

  lemma {:induction false} ChoicesOfNewChoices(base: nat, questionId: nat, inputs: seq<ChoiceInput>, id: nat)
    ensures ChoicesOf(NewChoices(base, questionId, inputs), id) == if id == questionId then NewChoices(base, questionId, inputs) else []
  {
    if inputs != [] {
      var init := inputs[..|inputs| - 1];
      var rows := NewChoices(base, questionId, inputs);
      assert rows == NewChoices(base, questionId, init) + [rows[|inputs| - 1]];
      ChoicesOfNewChoices(base, questionId, init, id);
      ChoicesOfSnoc(NewChoices(base, questionId, init), rows[|inputs| - 1], id);
    }
  }

  lemma CreatorQuestionsSnoc(questions: seq<Question>, q: Question, choices: seq<Choice>)
    ensures CreatorQuestions(questions + [q], choices)
      == CreatorQuestions(questions, choices) + [QuestionView(q.id, q.text, CreatorChoices(ChoicesOf(choices, q.id)))]
  {
    var all := questions + [q];
    forall k | 0 <= k < |questions|
      ensures CreatorQuestions(all, choices)[k] == CreatorQuestions(questions, choices)[k]
    {
      assert all[k] == questions[k];
    }
  }

  /** The views of questions depend only on the choices of those questions. */
  lemma CreatorQuestionsCongruent(questions: seq<Question>, before: seq<Choice>, after: seq<Choice>)
    requires forall q :: q in questions ==> ChoicesOf(after, q.id) == ChoicesOf(before, q.id)
    ensures CreatorQuestions(questions, after) == CreatorQuestions(questions, before)
  {
    forall k | 0 <= k < |questions|
      ensures CreatorQuestions(questions, after)[k] == CreatorQuestions(questions, before)[k]
    {
      assert questions[k] in questions;
    }
  }

  lemma EchoQuestionsSnoc(views: seq<QuestionView<CreatorChoiceView>>, v: QuestionView<CreatorChoiceView>)
    ensures EchoQuestions(views + [v]) == EchoQuestions(views) + [QuestionInput(v.text, EchoChoices(v.choices))]
  {
    var all := views + [v];
    forall k | 0 <= k < |views|
      ensures EchoQuestions(all)[k] == EchoQuestions(views)[k]
    {
      assert all[k] == views[k];
    }
  }

  /** Written choices read back as their inputs with the default filled in. */
  lemma EchoNewChoices(base: nat, questionId: nat, input: QuestionInput)
    ensures EchoChoices(CreatorChoices(NewChoices(base, questionId, input.choices))) == StoredQuestion(input).choices
  {
  }

  /** Adding a question leaves the choices of every earlier question alone
      and gives the new question exactly the written rows. */
  lemma ChoicesAfterAddQuestion(db: Db, quizId: nat, input: QuestionInput, questionId: nat)
    requires WellFormed(db)
    ensures var written := NewChoices(|db.choices|, |db.questions| + 1, input.choices);
      ChoicesOf(AddQuestion(db, quizId, input).choices, questionId)
      == if questionId == |db.questions| + 1 then written else ChoicesOf(db.choices, questionId)
  {
    var id := |db.questions| + 1;
    var written := NewChoices(|db.choices|, id, input.choices);
    ChoicesOfAppend(db.choices, written, questionId);
    ChoicesOfNewChoices(|db.choices|, id, input.choices, questionId);
    if questionId == id {
      ChoicesOfFresh(db, id);
    } else {
      assert ChoicesOf(db.choices, questionId) + [] == ChoicesOf(db.choices, questionId);
    }
  }

  /** Reading back the questions after one more question was written. */
  lemma ReadBackAfterAddQuestion(db: Db, quizId: nat, input: QuestionInput)
    requires WellFormed(db)
    ensures ReadBack(AddQuestion(db, quizId, input), quizId) == ReadBack(db, quizId) + [StoredQuestion(input)]
  {
    var after := AddQuestion(db, quizId, input);
    var question := Question(|db.questions| + 1, quizId, input.text);
    var before := QuestionsOf(db.questions, quizId);
    assert after.questions == db.questions + [question];
    assert (db.questions + [question])[..|db.questions|] == db.questions;
    assert QuestionsOf(after.questions, quizId) == before + [question];

    forall q | q in before
      ensures ChoicesOf(after.choices, q.id) == ChoicesOf(db.choices, q.id)
    {
      ChoicesAfterAddQuestion(db, quizId, input, q.id);
    }
    CreatorQuestionsCongruent(before, db.choices, after.choices);
    ChoicesAfterAddQuestion(db, quizId, input, question.id);
    CreatorQuestionsSnoc(before, question, after.choices);
    var written := NewChoices(|db.choices|, question.id, input.choices);
    var view := QuestionView(question.id, input.text, CreatorChoices(written));
    EchoQuestionsSnoc(CreatorQuestions(before, db.choices), view);
    EchoNewChoices(|db.choices|, question.id, input);
  }

  lemma {:induction false} ReadBackAfterAddQuestions(db: Db, quizId: nat, inputs: seq<QuestionInput>)
    requires WellFormed(db) && 1 <= quizId <= |db.quizzes|
    ensures ReadBack(AddQuestions(db, quizId, inputs), quizId) == ReadBack(db, quizId) + StoredQuestions(inputs)
  {
    if inputs == [] {
      assert StoredQuestions(inputs) == [];
    } else {
      var init := inputs[..|inputs| - 1];
      var last := inputs[|inputs| - 1];
      assert init + [last] == inputs;
      ReadBackAfterAddQuestions(db, quizId, init);
      AddQuestionsWellFormed(db, quizId, init);
      ReadBackAfterAddQuestion(AddQuestions(db, quizId, init), quizId, last);
      StoredQuestionsSnoc(init, last);
    }
  }

  /** Round trip: the creator representation of the quiz just created gives
      back the posted payload (defaults filled in), and the quiz belongs to
      the requester. */
  lemma CreateThenRead(db: Db, creator: UserId, input: QuizInput)
    requires WellFormed(db)
    ensures var after := CreateQuizSpec(db, creator, input);
      var found := FindQuiz(after.quizzes, |db.quizzes| + 1);
      && found.Some?
      && found.value.creator == creator
      && Echo(CreatorQuizRepresentation(after, found.value)) == Normalized(input)
  {
    var quiz := Quiz(|db.quizzes| + 1, creator, input.title, input.isOpen.GetOr(true));
    var withQuiz := db.(quizzes := db.quizzes + [quiz]);
    var after := CreateQuizSpec(db, creator, input);
    assert after == AddQuestions(withQuiz, quiz.id, input.questions);
    CreatedQuizFound(db, creator, input);
    CreatedQuizReadsBack(db, creator, input);
    assert Echo(CreatorQuizRepresentation(after, quiz)) == QuizInput(quiz.title, Some(quiz.isOpen), ReadBack(after, quiz.id));
  }

  lemma CreatedQuizFound(db: Db, creator: UserId, input: QuizInput)
    requires WellFormed(db)
    ensures FindQuiz(CreateQuizSpec(db, creator, input).quizzes, |db.quizzes| + 1)
      == Some(Quiz(|db.quizzes| + 1, creator, input.title, input.isOpen.GetOr(true)))
  {
    var quiz := Quiz(|db.quizzes| + 1, creator, input.title, input.isOpen.GetOr(true));
    var withQuiz := db.(quizzes := db.quizzes + [quiz]);
    CreatePreservesWellFormed(db, creator, input);
    AddQuestionsAppends(withQuiz, quiz.id, input.questions);
    FindQuizById(CreateQuizSpec(db, creator, input), quiz.id);
  }

  lemma CreatedQuizReadsBack(db: Db, creator: UserId, input: QuizInput)
    requires WellFormed(db)
    ensures ReadBack(CreateQuizSpec(db, creator, input), |db.quizzes| + 1) == StoredQuestions(input.questions)
  {
    var quiz := Quiz(|db.quizzes| + 1, creator, input.title, input.isOpen.GetOr(true));
    var withQuiz := db.(quizzes := db.quizzes + [quiz]);
    assert WellFormed(withQuiz);
    QuestionsOfFresh(db, quiz.id);
    assert ReadBack(withQuiz, quiz.id) == [];
    ReadBackAfterAddQuestions(withQuiz, quiz.id, input.questions);
  }
}
