/** `QuizDetailView` (quiz/views.py): any authenticated user may read any
    quiz by id through `QuizSerializer`, whose choices omit is_correct. The
    view has no requester-dependent branch, so the requester is not a
    parameter: everyone, the creator included, gets the same body. */
module DetailView {
  import opened Models
  import opened Serializers
  import opened Responses

  /** `RetrieveAPIView.get` with `queryset = Quiz.objects.all()`. */
  function QuizDetail(db: Db, pk: int): (r: Response<QuizView<ChoiceView>>)
    ensures r.NotFound? <==> forall q :: q in db.quizzes ==> q.id != pk
    ensures r.Ok? || r.NotFound?
  {
    match FindQuiz(db.quizzes, pk)
    case None => NotFound
    case Some(quiz) => Ok(QuizRepresentation(db, quiz))
  }

  /** The detail of a quiz is its creator representation with is_correct
      removed from every choice, and it is the quiz asked for. */
  lemma DetailHidesCorrectness(db: Db, pk: int)
    requires QuizDetail(db, pk).Ok?
    ensures var quiz := FindQuiz(db.quizzes, pk).value;
      && quiz in db.quizzes && quiz.id == pk
      && QuizDetail(db, pk).value == RedactQuiz(CreatorQuizRepresentation(db, quiz))
  {
    DetailIsRedactedCreatorView(db, FindQuiz(db.quizzes, pk).value);
  }

  /** A quiz just created can be read back by id, with the title, openness
      and creator it was created with, and without is_correct. */
  lemma DetailAfterCreate(db: Db, creator: UserId, input: QuizInput)
    requires WellFormed(db)
    ensures var after := CreateQuizSpec(db, creator, input);
      var r := QuizDetail(after, |db.quizzes| + 1);
      && r.Ok?
      && r.value.id == |db.quizzes| + 1
      && r.value.title == input.title
      && r.value.isOpen == input.isOpen.GetOr(true)
      && r.value.creator == creator
      && |r.value.questions| == |input.questions|
  {
    var after := CreateQuizSpec(db, creator, input);
    CreatedQuizFound(db, creator, input);
    CreatedQuizReadsBack(db, creator, input);
  }
}
