/** The relational schema of the quiz app (quiz/models.py) and an in-memory
    database that plays the ORM: one table per model, rows in primary-key
    order, `objects.create` appending a row with the next auto-increment id. */
module Models {

  datatype Option<T> = None | Some(value: T) {
    /** The value, or `default` when there is none. */
    function GetOr(default: T): T {
      if Some? then value else default
    }
  }

  /** Opaque handle of an authenticated user. */
  type UserId = nat

  datatype Quiz = Quiz(id: nat, creator: UserId, title: string, isOpen: bool)
  datatype Question = Question(id: nat, quiz: nat, text: string)
  datatype Choice = Choice(id: nat, question: nat, text: string, isCorrect: bool)
  datatype Participation = Participation(id: nat, user: UserId, quiz: nat, score: real)
  datatype ParticipationChoice = ParticipationChoice(id: nat, participation: nat, selectedChoice: nat)

  /** The contents of all five tables at one moment. */
  datatype Db = Db(
    quizzes: seq<Quiz>,
    questions: seq<Question>,
    choices: seq<Choice>,
    participations: seq<Participation>,
    participationChoices: seq<ParticipationChoice>)

  /** What the database itself guarantees: auto-increment ids (nothing is
      deleted, so row i has id i + 1) and every foreign key names an
      existing row. */
  predicate WellFormed(db: Db) {
    && (forall i :: 0 <= i < |db.quizzes| ==> db.quizzes[i].id == i + 1)
    && (forall i :: 0 <= i < |db.questions| ==>
          db.questions[i].id == i + 1 && 1 <= db.questions[i].quiz <= |db.quizzes|)
    && (forall i :: 0 <= i < |db.choices| ==>
          db.choices[i].id == i + 1 && 1 <= db.choices[i].question <= |db.questions|)
    && (forall i :: 0 <= i < |db.participations| ==>
          db.participations[i].id == i + 1 && 1 <= db.participations[i].quiz <= |db.quizzes|)
    && (forall i :: 0 <= i < |db.participationChoices| ==>
          && db.participationChoices[i].id == i + 1
          && 1 <= db.participationChoices[i].participation <= |db.participations|
          && 1 <= db.participationChoices[i].selectedChoice <= |db.choices|)
  }

  /** No two elements of `s` are equal. */
  predicate Distinct<T(==)>(s: seq<T>) {
    forall i, j :: 0 <= i < j < |s| ==> s[i] != s[j]
  }

  // ---------------------------------------------------------------------
  // Queries (the ORM's `get` and `filter`)
  // ---------------------------------------------------------------------

  /** `Quiz.objects.get(id=pk)`, None when no row has that id. */
  function FindQuiz(quizzes: seq<Quiz>, pk: int): (r: Option<Quiz>)
    ensures r.Some? ==> r.value in quizzes && r.value.id == pk
    ensures r.None? <==> forall q :: q in quizzes ==> q.id != pk
  {
    if quizzes == [] then None
    else if quizzes[0].id == pk then Some(quizzes[0])
    else FindQuiz(quizzes[1..], pk)
  }

  /** `quiz.questions.all()`: the questions whose foreign key is `quizId`, in primary-key order (the queryset has no ordering of its own). */
  function QuestionsOf(questions: seq<Question>, quizId: nat): (r: seq<Question>)
    ensures |r| <= |questions|
    ensures forall q :: q in r <==> q in questions && q.quiz == quizId
  {
    if questions == [] then []
    else
      var last := questions[|questions| - 1];
      QuestionsOf(questions[..|questions| - 1], quizId) + (if last.quiz == quizId then [last] else [])
  }

  /** `question.choices.all()`: the choices whose foreign key is `questionId`, in primary-key order (the queryset has no ordering of its own). */
  function ChoicesOf(choices: seq<Choice>, questionId: nat): (r: seq<Choice>)
    ensures |r| <= |choices|
    ensures forall c :: c in r <==> c in choices && c.question == questionId
  {
    if choices == [] then []
    else
      var last := choices[|choices| - 1];
      ChoicesOf(choices[..|choices| - 1], questionId) + (if last.question == questionId then [last] else [])
  }

  /** `Participation.objects.filter(quiz=quiz)`, in primary-key order (the queryset has no ordering of its own). */
  function ParticipationsOf(participations: seq<Participation>, quizId: nat): (r: seq<Participation>)
    ensures |r| <= |participations|
    ensures forall p :: p in r <==> p in participations && p.quiz == quizId
  {
    if participations == [] then []
    else
      var last := participations[|participations| - 1];
      ParticipationsOf(participations[..|participations| - 1], quizId) + (if last.quiz == quizId then [last] else [])
  }

  /** `participation.selected_choices.all()`, as the selected choice ids, in primary-key order (the queryset has no ordering of its own). */
  function SelectedChoiceIds(links: seq<ParticipationChoice>, participationId: nat): (r: seq<nat>)
    ensures |r| <= |links|
    ensures forall id :: id in r <==> exists l :: l in links && l.participation == participationId && l.selectedChoice == id
  {
    if links == [] then []
    else
      var last := links[|links| - 1];
      var rest := SelectedChoiceIds(links[..|links| - 1], participationId);
      assert forall l :: l in links <==> l in links[..|links| - 1] || l == last;
      rest + (if last.participation == participationId then [last.selectedChoice] else [])
  }

  /** `Participation.objects.filter(user=user, quiz=quiz).exists()`: the
      user is among the participants of the quiz. */
  predicate HasParticipated(participations: seq<Participation>, user: UserId, quizId: nat)
    ensures HasParticipated(participations, user, quizId) <==>
      exists p :: p in ParticipationsOf(participations, quizId) && p.user == user
  {
    exists p :: p in participations && p.user == user && p.quiz == quizId
  }

  /** `Choice.objects.filter(id__in=ids)`: every row whose id is listed, once, in primary-key order (the queryset has no ordering of its own). */
  function Resolve(choices: seq<Choice>, ids: seq<int>): (r: seq<Choice>)
    ensures |r| <= |choices|
    ensures forall c :: c in r <==> c in choices && c.id in ids
  {
    if choices == [] then []
    else
      var last := choices[|choices| - 1];
      Resolve(choices[..|choices| - 1], ids) + (if last.id in ids then [last] else [])
  }

  // ---------------------------------------------------------------------
  // Facts about the queries
  // ---------------------------------------------------------------------

  /** Under auto-increment ids, looking a quiz up by id is indexing. */
  lemma FindQuizById(db: Db, pk: int)
    requires WellFormed(db)
    ensures FindQuiz(db.quizzes, pk) == if 1 <= pk <= |db.quizzes| then Some(db.quizzes[pk - 1]) else None
  {
    if 1 <= pk <= |db.quizzes| {
      var r := FindQuiz(db.quizzes, pk);
      assert db.quizzes[pk - 1] in db.quizzes;
      assert r.Some?;
      var i :| 0 <= i < |db.quizzes| && db.quizzes[i] == r.value;
    } else {
      forall q | q in db.quizzes ensures q.id != pk {
        var i :| 0 <= i < |db.quizzes| && db.quizzes[i] == q;
      }
    }
  }

  /** No choice of a well-formed database points at a question id beyond the table. */
  lemma ChoicesOfFresh(db: Db, questionId: nat)
    requires WellFormed(db) && questionId > |db.questions|
    ensures ChoicesOf(db.choices, questionId) == []
  {
    forall c | c in db.choices ensures c.question != questionId {
      var i :| 0 <= i < |db.choices| && db.choices[i] == c;
    }
    NoChoicesOf(db.choices, questionId);
  }

  lemma {:induction false} NoChoicesOf(choices: seq<Choice>, questionId: nat)
    requires forall c :: c in choices ==> c.question != questionId
    ensures ChoicesOf(choices, questionId) == []
  {
    if choices != [] {
      NoChoicesOf(choices[..|choices| - 1], questionId);
    }
  }

  /** No question of a well-formed database points at a quiz id beyond the table. */
  lemma QuestionsOfFresh(db: Db, quizId: nat)
    requires WellFormed(db) && quizId > |db.quizzes|
    ensures QuestionsOf(db.questions, quizId) == []
  {
    forall q | q in db.questions ensures q.quiz != quizId {
      var i :| 0 <= i < |db.questions| && db.questions[i] == q;
    }
    NoQuestionsOf(db.questions, quizId);
  }

  lemma {:induction false} NoQuestionsOf(questions: seq<Question>, quizId: nat)
    requires forall q :: q in questions ==> q.quiz != quizId
    ensures QuestionsOf(questions, quizId) == []
  {
    if questions != [] {
      NoQuestionsOf(questions[..|questions| - 1], quizId);
    }
  }

  /** A filter of a table without repeated rows has no repeated rows. */
  lemma {:induction false} ResolveDistinct(choices: seq<Choice>, ids: seq<int>)
    requires Distinct(choices)
    ensures Distinct(Resolve(choices, ids))
  {
    if choices != [] {
      var init := choices[..|choices| - 1];
      var last := choices[|choices| - 1];
      assert Distinct(init);
      ResolveDistinct(init, ids);
      assert last !in init;
      assert last !in Resolve(init, ids);
    }
  }

  /** A filter of a table without repeated rows has no repeated rows. */
  lemma {:induction false} QuestionsOfDistinct(questions: seq<Question>, quizId: nat)
    requires Distinct(questions)
    ensures Distinct(QuestionsOf(questions, quizId))
  {
    if questions != [] {
      var init := questions[..|questions| - 1];
      var last := questions[|questions| - 1];
      assert Distinct(init);
      QuestionsOfDistinct(init, quizId);
      assert last !in init;
      assert last !in QuestionsOf(init, quizId);
    }
  }

  /** A filter of a table without repeated rows has no repeated rows. */
  lemma {:induction false} ParticipationsOfDistinct(participations: seq<Participation>, quizId: nat)
    requires Distinct(participations)
    ensures Distinct(ParticipationsOf(participations, quizId))
  {
    if participations != [] {
      var init := participations[..|participations| - 1];
      var last := participations[|participations| - 1];
      assert Distinct(init);
      ParticipationsOfDistinct(init, quizId);
      assert last !in init;
      assert last !in ParticipationsOf(init, quizId);
    }
  }

  /** A sequence without repeats has as many elements as it has members. */
  lemma {:induction false} DistinctCardinality<T>(s: seq<T>)
    requires Distinct(s)
    ensures |set x | x in s| == |s|
  {
    if s != [] {
      var init := s[..|s| - 1];
      var last := s[|s| - 1];
      assert Distinct(init);
      DistinctCardinality(init);
      assert last !in init;
      assert (set x | x in s) == (set x | x in init) + {last};
    }
  }

  /** `quiz.questions.count()` is the number of question rows of the quiz,
      each counted once. */
  lemma QuestionCount(db: Db, quizId: nat)
    requires WellFormed(db)
    ensures Distinct(QuestionsOf(db.questions, quizId))
    ensures |QuestionsOf(db.questions, quizId)| == |set q | q in db.questions && q.quiz == quizId|
  {
    var r := QuestionsOf(db.questions, quizId);
    QuestionsOfDistinct(db.questions, quizId);
    DistinctCardinality(r);
    assert (set x | x in r) == (set q | q in db.questions && q.quiz == quizId);
  }

  /** `participations.count()` is the number of participation rows of the
      quiz, each counted once. */
  lemma ParticipantCount(db: Db, quizId: nat)
    requires WellFormed(db)
    ensures Distinct(ParticipationsOf(db.participations, quizId))
    ensures |ParticipationsOf(db.participations, quizId)| == |set p | p in db.participations && p.quiz == quizId|
  {
    var r := ParticipationsOf(db.participations, quizId);
    ParticipationsOfDistinct(db.participations, quizId);
    DistinctCardinality(r);
    assert (set x | x in r) == (set p | p in db.participations && p.quiz == quizId);
  }

  /** A quiz row of a well-formed database sits at index id - 1. */
  lemma QuizRowId(db: Db, quiz: Quiz)
    requires WellFormed(db) && quiz in db.quizzes
    ensures 1 <= quiz.id <= |db.quizzes| && db.quizzes[quiz.id - 1] == quiz
  {
    var k :| 0 <= k < |db.quizzes| && db.quizzes[k] == quiz;
  }

  /** A choice row of a well-formed database sits at index id - 1. */
  lemma ChoiceRowId(db: Db, choice: Choice)
    requires WellFormed(db) && choice in db.choices
    ensures 1 <= choice.id <= |db.choices| && db.choices[choice.id - 1] == choice
  {
    var k :| 0 <= k < |db.choices| && db.choices[k] == choice;
  }

  /** Rows of a well-formed table are pairwise different, since their ids are. */
  lemma ChoicesDistinct(db: Db)
    requires WellFormed(db)
    ensures Distinct(db.choices)
  {
  }

  /** Filtering a table one row longer. */
  lemma {:induction false} ChoicesOfSnoc(cs: seq<Choice>, c: Choice, questionId: nat)
    ensures ChoicesOf(cs + [c], questionId) == ChoicesOf(cs, questionId) + (if c.question == questionId then [c] else [])
  {
    assert (cs + [c])[..|cs|] == cs;
  }

  /** Filtering distributes over concatenation. */
  lemma {:induction false} ChoicesOfAppend(a: seq<Choice>, b: seq<Choice>, questionId: nat)
    ensures ChoicesOf(a + b, questionId) == ChoicesOf(a, questionId) + ChoicesOf(b, questionId)
  {
    if b != [] {
      var init := b[..|b| - 1];
      assert (a + b)[..|a + b| - 1] == a + init;
      ChoicesOfAppend(a, init, questionId);
    } else {
      assert a + b == a;
    }
  }

  // ---------------------------------------------------------------------
  // The database
  // ---------------------------------------------------------------------

  /** The shared datastore. Each `Create…` method is one `Model.objects.create`:
      it appends one row whose id is the next auto-increment value and leaves
      every other table alone. Its `requires` is the foreign-key constraint. */
  class Database {
    var quizzes: seq<Quiz>
    var questions: seq<Question>
    var choices: seq<Choice>
    var participations: seq<Participation>
    var participationChoices: seq<ParticipationChoice>

    function State(): Db
      reads this
    {
      Db(quizzes, questions, choices, participations, participationChoices)
    }

    predicate Valid()
      reads this
    {
      WellFormed(State())
    }

    constructor ()
      ensures Valid()
      ensures State() == Db([], [], [], [], [])
    {
      quizzes, questions, choices := [], [], [];
      participations, participationChoices := [], [];
    }

    method CreateQuiz(creator: UserId, title: string, isOpen: bool) returns (quiz: Quiz)
      requires Valid()
      modifies this
      ensures Valid()
      ensures quiz == Quiz(|old(quizzes)| + 1, creator, title, isOpen)
      ensures State() == old(State()).(quizzes := old(quizzes) + [quiz])
    {
      quiz := Quiz(|quizzes| + 1, creator, title, isOpen);
      quizzes := quizzes + [quiz];
    }

    method CreateQuestion(quizId: nat, text: string) returns (question: Question)
      requires Valid()
      requires 1 <= quizId <= |quizzes|
      modifies this
      ensures Valid()
      ensures question == Question(|old(questions)| + 1, quizId, text)
      ensures State() == old(State()).(questions := old(questions) + [question])
    {
      question := Question(|questions| + 1, quizId, text);
      questions := questions + [question];
    }

    method CreateChoice(questionId: nat, text: string, isCorrect: bool) returns (choice: Choice)
      requires Valid()
      requires 1 <= questionId <= |questions|
      modifies this
      ensures Valid()
      ensures choice == Choice(|old(choices)| + 1, questionId, text, isCorrect)
      ensures State() == old(State()).(choices := old(choices) + [choice])
    {
      choice := Choice(|choices| + 1, questionId, text, isCorrect);
      choices := choices + [choice];
    }

    method CreateParticipation(user: UserId, quizId: nat, score: real) returns (participation: Participation)
      requires Valid()
      requires 1 <= quizId <= |quizzes|
      modifies this
      ensures Valid()
      ensures participation == Participation(|old(participations)| + 1, user, quizId, score)
      ensures State() == old(State()).(participations := old(participations) + [participation])
    {
      participation := Participation(|participations| + 1, user, quizId, score);
      participations := participations + [participation];
    }

    method CreateParticipationChoice(participationId: nat, choiceId: nat) returns (link: ParticipationChoice)
      requires Valid()
      requires 1 <= participationId <= |participations|
      requires 1 <= choiceId <= |choices|
      modifies this
      ensures Valid()
      ensures link == ParticipationChoice(|old(participationChoices)| + 1, participationId, choiceId)
      ensures State() == old(State()).(participationChoices := old(participationChoices) + [link])
    {
      link := ParticipationChoice(|participationChoices| + 1, participationId, choiceId);
      participationChoices := participationChoices + [link];
    }
  }
}
