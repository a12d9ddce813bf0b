# Quiz participation, scoring and results — a Dafny model

This project models the core of a small Django REST quiz service. Users
create quizzes made of questions with choices. Other users participate once
in a quiz by posting the ids of the choices they pick and receive a
percentage score. The creator sees everyone's results; a participant sees
only the number of participants and their own score.

The model keeps the five tables of the service (Quiz, Question, Choice,
Participation, ParticipationChoice) in an in-memory store and follows the
code of each view and serializer:

- `models.dfy` (module `Models`): the rows as datatypes, the database as a
  value `Db` and as a class `Database` whose `Create…` methods append one
  row with the next auto-increment id, and the ORM queries the views use
  (`filter`, `get_object_or_404`, `filter(id__in=…)`) as functions.
- `scoring.dfy` (module `Scoring`): `_calculate_score` as an imperative
  method (group the selection by question, then accumulate the per-question
  ratios), proved equal to the specification function `Score`, and the
  properties of `Score`.
- `serializers.dfy` (module `Serializers`): the field projections of the
  choice, question and quiz serializers (with and without `is_correct`) and
  the nested write of `CreatorQuizSerializer.create` as a method with two
  loops, proved equal to `CreateQuizSpec`.
- `responses.dfy` (module `Responses`): a response is `Ok(value)`,
  `NotFound` (HTTP 404) or `Forbidden(reason)` (HTTP 403).
- `participate.dfy` (module `ParticipateView`): `QuizParticipateView.post`
  as a method over the store, proved equal to `ParticipateSpec`, with the
  order of its checks, the rows it writes and the consistency invariant
  (one participation per user and quiz, none by the quiz's creator) that
  the view maintains.
- `results.dfy` (module `ResultsView`): `QuizResultsView.get`, its four-way
  decision and the creator's report.
- `relevant.dfy` (module `RelevantView`): `QuizRelevantToUserListView.get`.
- `detail.dfy` (module `DetailView`): `QuizDetailView`, which always
  answers with the redacted representation.

Row ids are auto-increment keys: in a well-formed database the row at
index `i` of a table has id `i + 1`. Scores are exact rationals (`real`).

Where an easy reading of the service differs from its code, the model
follows the code:

- `get_list_or_404(Choice, id__in=…)` answers 404 only when no posted id
  names a choice. Unknown ids are dropped. An empty `choices` list is a 404,
  not a score of 0.
- Posted choices need not belong to the quiz. They are stored as
  ParticipationChoice rows, but scoring ignores them.
- The `question_id` of a posted entry is never read.
- The one-participation-per-user rule is a check in the view; the tables
  have no unique constraint. It holds as an invariant (`Consistent`) of the
  two writing operations, not of every database.
- The "participated" list is a join, so a quiz is listed once per
  participation of the user on it. Under the invariant that is at most once.

## Model

| member | source | states |
|---|---|---|
| Models.FindQuiz | quiz/views.py:56 | `get_object_or_404(Quiz, id=pk)`: a found quiz is in the table with that id; nothing is found exactly when no row has the id |
| Models.FindQuizById | quiz/views.py:100 | in a well-formed database, the quiz with id `pk` is the row at index `pk - 1` when `1 <= pk <= count`, and there is none otherwise |
| Models.QuestionsOf | quiz/views.py:134 | `quiz.questions.all()`: exactly the questions whose quiz is the given one |
| Models.ChoicesOf | quiz/views.py:138 | `question.choices.all()`: exactly the choices whose question is the given one |
| Models.QuestionsOfDistinct | quiz/views.py:134 | filtering a table without repeated rows lists each matching question once |
| Models.QuestionCount | quiz/views.py:143 | `quiz.questions.count()`, the score's divisor, is the number of question rows of the quiz |
| Models.ParticipationsOf | quiz/views.py:57 | `Participation.objects.filter(quiz=quiz)`: exactly the participations on the quiz |
| Models.ParticipationsOfDistinct | quiz/views.py:57 | filtering a table without repeated rows lists each matching participation once |
| Models.ParticipantCount | quiz/views.py:57-59 | `participants_count` is the number of participation rows of the quiz |
| Models.HasParticipated | quiz/views.py:110 | `filter(user=user, quiz=quiz).exists()`: the user is among the quiz's participations |
| Models.SelectedChoiceIds | quiz/serializers.py:64-75 | the `selected_choices` of a participation: exactly the choice ids linked to it |
| Models.Resolve | quiz/views.py:115 | `Choice.objects.filter(id__in=ids)`: exactly the existing choices whose id was posted, no more rows than the table |
| Models.ResolveDistinct | quiz/views.py:115 | the resolved selection has no repeated choice, however often an id is posted |
| Models.QuizRowId | quiz/models.py:5-11 | a quiz row of a well-formed database sits at index `id - 1` |
| Models.ChoiceRowId | quiz/models.py:23-27 | a choice row of a well-formed database sits at index `id - 1` |
| Models.ChoicesDistinct | quiz/models.py:23-27 | the choice table of a well-formed database has no repeated row |
| Models.ChoicesOfFresh | quiz/serializers.py:40-43 | a question id not yet issued has no choices |
| Models.QuestionsOfFresh | quiz/serializers.py:35-40 | a quiz id not yet issued has no questions |
| Models.Database.CreateQuiz | quiz/serializers.py:35 | `Quiz.objects.create`: appends exactly one quiz with the next id and keeps the store well formed |
| Models.Database.CreateQuestion | quiz/serializers.py:40 | `Question.objects.create`: appends exactly one question with the next id, linked to the quiz |
| Models.Database.CreateChoice | quiz/serializers.py:43 | `Choice.objects.create`: appends exactly one choice with the next id, linked to the question, with its `is_correct` |
| Models.Database.CreateParticipation | quiz/views.py:119 | `Participation.objects.create`: appends exactly one participation with the next id |
| Models.Database.CreateParticipationChoice | quiz/views.py:121 | `ParticipationChoice.objects.create`: appends exactly one link with the next id |
| Scoring.CountCorrect | quiz/views.py:135-138 | the number of correct choices in a list, at most its length, and 0 exactly when none is correct |
| Scoring.QuestionScore | quiz/views.py:135-141 | what one question earns is never negative, and positive exactly when the question has a correct choice and a correct choice of it was selected |
| Scoring.Score | quiz/views.py:133-146 | the score of a participation is never negative |
| Scoring.GroupByQuestion | quiz/views.py:129-131 | after the grouping loop, the group of every question id is the selected choices of that question, in selection order, and the empty list for other ids |
| Scoring.CalculateScore | quiz/views.py:126-146 | the imperative scorer returns exactly `Score`: per question the correct selected over all correct choices (0 without a correct choice), averaged over all questions, times 100, and 0 without questions |
| Scoring.CorrectSelectedAtMostAllCorrect | quiz/views.py:135-138 | for a selection of distinct existing choices, a question's correct selected choices never outnumber its correct choices |
| Scoring.QuestionScoreInUnit | quiz/views.py:140-141 | one question earns between 0 and 1 for a selection of distinct existing choices |
| Scoring.ScoreInRange | quiz/views.py:133-146 | the score of a selection of distinct existing choices lies in [0, 100] |
| Scoring.ExtraChoiceNeverLowers | quiz/views.py:135-141 | selecting one more choice never lowers the score; an incorrect choice, or one of a question outside the quiz, leaves it unchanged |
| Scoring.AnswersTo | quiz/views.py:129-136 | the selected choices that answer a question of the quiz, exactly |
| Scoring.ForeignChoicesIgnored | quiz/views.py:129-136 | the score of a selection equals the score of its choices that answer a question of the quiz |
| Scoring.ScorePositive | quiz/views.py:133-146 | the score is positive exactly when some question of the quiz has a correct choice of which one was selected |
| Scoring.NothingSelectedScoresZero | quiz/views.py:143-144 | an empty selection scores 0, and a quiz without questions scores 0 |
| Scoring.NoCorrectChoiceDilutes | quiz/views.py:140-144 | a question without a correct choice earns nothing yet counts in the divisor |
| Scoring.QuestionFullCredit | quiz/views.py:135-141 | selecting exactly the correct choices of a question that has one earns 1 |
| Scoring.FullCreditScoresHundred | quiz/views.py:133-146 | selecting exactly the correct choices of every question, when each has one, scores 100 |
| Scoring.TwoQuestionScenario | quiz/tests.py:15-33 | on the two-question quiz of the tests: both right 100, both wrong 0, one right 50 |
| Serializers.PublicChoices | quiz/serializers.py:5-8 | `ChoiceSerializer`: one view per choice, in order, carrying only id and text |
| Serializers.CreatorChoices | quiz/serializers.py:11-13 | `CreatorChoiceSerializer`: one view per choice, in order, carrying id, text and is_correct |
| Serializers.QuizRepresentation | quiz/serializers.py:48-53 | `QuizSerializer`: the quiz's id, title, openness and creator; every question of the quiz is listed with all of its choices as id and text, and nothing from another quiz or question is listed |
| Serializers.CreatorQuizRepresentation | quiz/serializers.py:11-29 | `CreatorQuizSerializer`: the same fields; every question of the quiz is listed with all of its choices, each with its true `is_correct`, and nothing else is listed |
| Serializers.CreatorViewExtendsPublicView | quiz/serializers.py:5-13 | the creator view of a choice is its public view plus its true `is_correct` |
| Serializers.DetailIsRedactedCreatorView | quiz/serializers.py:48-53 | `QuizSerializer` gives the creator representation with `is_correct` removed from every choice of every question |
| Serializers.WriteChoices | quiz/serializers.py:42-43 | the inner loop writes one choice per input, in order, linked to the question, and nothing else |
| Serializers.Create | quiz/serializers.py:32-45 | the nested write leaves exactly `CreateQuizSpec` and returns the new quiz, whose creator comes from the requester and whose `is_open` defaults to true |
| Serializers.AddQuestionsAppends | quiz/serializers.py:37-43 | the question loop only appends questions and choices: one question per input and as many choices as the inputs hold |
| Serializers.CreateQuizCounts | quiz/serializers.py:33-43 | creation adds one quiz, one question per input question and one choice per input choice, and touches no participation |
| Serializers.CreationScenario | quiz/tests.py:45-47 | the input of the tests creates 1 quiz, 2 questions and 4 choices |
| Serializers.CreatePreservesWellFormed | quiz/serializers.py:32-45 | creation keeps ids sequential and every question and choice linked to an existing row |
| Serializers.ReadBackAfterAddQuestions | quiz/serializers.py:37-43 | reading the quiz's questions back after the loop gives the earlier ones followed by the inputs, each with its choices and their `is_correct` |
| Serializers.CreateThenRead | quiz/serializers.py:24-45 | the created quiz is found under the new id, has the requester as creator, and its creator representation echoes the input with defaults filled in |
| Serializers.CreatedQuizFound | quiz/views.py:19-20 | the created quiz is stored under the new id with the requester as creator, the input title and `is_open` defaulting to true |
| ParticipateView.ChoiceIdsOf | quiz/views.py:114 | the posted `choice_id`s, in order; `question_id` is not read |
| ParticipateView.WriteLinks | quiz/views.py:120-121 | the loop writes one ParticipationChoice per resolved choice, in order, linked to the participation |
| ParticipateView.Participate | quiz/views.py:98-123 | the view leaves exactly the response and database of `ParticipateSpec` |
| ParticipateView.ParticipateDecision | quiz/views.py:100-123 | each rejection happens exactly under its condition, in the order 404, closed, creator, already participated, no choice resolved; the request is accepted exactly when it passes every check and at least one posted id names a choice |
| ParticipateView.RejectionWritesNothing | quiz/views.py:100-115 | a refused request leaves the database unchanged |
| ParticipateView.AcceptedGuards | quiz/views.py:100-115 | an accepted request names an open quiz of another user, with no earlier participation by the requester and at least one resolved choice |
| ParticipateView.SuccessfulParticipation | quiz/views.py:114-123 | an accepted request adds exactly one participation, carrying the computed score, and exactly one link per resolved choice, and changes no other row |
| ParticipateView.ParticipatedScoreInRange | quiz/views.py:115-117 | an accepted participation's score lies in [0, 100] |
| ParticipateView.SecondAttemptRefused | quiz/views.py:110-111 | after an accepted participation, the same user's next attempt on the quiz is refused and writes nothing |
| ParticipateView.ParticipatePreservesConsistency | quiz/views.py:103-121 | participating keeps at most one participation per user and quiz and none by the quiz's creator |
| ParticipateView.CreatePreservesConsistency | quiz/serializers.py:32-45 | creating a quiz keeps that invariant |
| ParticipateView.SingleCorrectChoiceScenario | quiz/tests.py:58-77 | the test's participation scores 100 and writes one participation and one link |
| ResultsView.FirstBy | quiz/views.py:63 | `.filter(user=user).first()`: the earliest row of that user, with no row of the user before it, and none exactly when the user has no row |
| ResultsView.Results | quiz/views.py:48-91 | the view answers exactly `ResultsSpec` and changes nothing |
| ResultsView.ParticipationViews | quiz/serializers.py:70-75 | `ParticipationSerializer`: one entry per participation, in order, with its id, user and score and the ids of exactly the choices linked to it |
| ResultsView.ChoicesByQuestionContents | quiz/views.py:80-83 | the map's keys are exactly the quiz's question ids and each maps to that question's choices with `is_correct` |
| ResultsView.ResultsDecision | quiz/views.py:56-78 | 404 exactly for an unknown quiz; the creator report exactly for the creator; the participant report exactly for a participant; 403 "participate first" or "unavailable" for anyone else, depending on whether the quiz is open |
| ResultsView.CreatorReportContents | quiz/views.py:57-91 | the creator's count equals the quiz's participations, every participation is listed with its user, score and selected choice ids, and every question of the quiz maps to exactly its choices with `is_correct`, an empty list for a question without choices |
| ResultsView.ParticipantSeesFirstScore | quiz/views.py:62-66 | on any database, a participant's report carries the quiz's participation count and the score of the user's earliest participation on the quiz |
| ResultsView.ParticipantSeesOwnScore | quiz/views.py:62-66 | a participant's report carries the quiz's participation count and that participant's own score |
| ResultsView.ResultsAfterParticipation | quiz/views.py:62-66 | right after an accepted participation, the user's results show one more participant and the score the participation stored |
| ResultsView.ParticipantResultsScenario | quiz/tests.py:93-108 | the test's participant sees count 1 and score 100 |
| ResultsView.CreatorResultsScenario | quiz/tests.py:110-126 | the test's creator sees count 1, the participation with choice 1 selected, and choice 1 marked correct |
| RelevantView.Summaries | quiz/serializers.py:56-61 | `QuizRelevantToMeSerializer`: one `{id, title}` per quiz, in order |
| RelevantView.CreatedBy | quiz/views.py:34 | `filter(creator=user)`: exactly the user's quizzes |
| RelevantView.CreatedByDistinct | quiz/views.py:34 | filtering a table without repeated rows lists each of the user's quizzes once |
| RelevantView.CreatedCount | quiz/views.py:34-38 | the `created` list is as long as the number of quiz rows the user created |
| RelevantView.ParticipatedIn | quiz/views.py:35 | `filter(participation__user=user)`: every quiz listed is one the user has a participation on |
| RelevantView.ParticipatedMembership | quiz/views.py:35 | `filter(participation__user=user)`: a quiz is listed exactly when the user has a participation on it |
| RelevantView.Relevant | quiz/views.py:33-42 | the body: every `created` summary is of a quiz the user created, every `participated` summary of a quiz the user took part in |
| RelevantView.RelevantListsExact | quiz/views.py:33-42 | `created` lists exactly the user's own quizzes and `participated` exactly the quizzes the user took part in |
| RelevantView.ParticipatedListHasNoRepeats | quiz/views.py:35 | under the one-participation invariant the participated list has no repeats |
| RelevantView.RelevantScenario | quiz/tests.py:79-91 | the test's participant has no created quiz and one participated quiz titled "Sample Quiz" |
| DetailView.QuizDetail | quiz/views.py:23-25 | 404 exactly when no quiz has the id; otherwise the quiz |
| DetailView.DetailHidesCorrectness | quiz/views.py:23-25 | the detail is the quiz asked for, in the creator representation with `is_correct` removed, for every requester |
| DetailView.DetailAfterCreate | quiz/tests.py:49-56 | a quiz just created is read back with its title, openness, creator and number of questions |

## Left out

- Authentication, HTTP status codes and response bodies: outcomes are `Ok`, `NotFound` and `Forbidden(reason)`. URL routing and the admin registration have no behaviour to model.
- The `created_at` timestamps: the quiz representations (quiz/serializers.py:29) and the participation entries of the creator's report (quiz/serializers.py:75) carry one, but the model leaves it out of every representation. No decision depends on a timestamp.
- Cascade deletes: no view deletes a row.
- ParticipateView.Participate: the score is stored as an exact `real`. The integer column of quiz/models.py:34 and floating-point division are not modelled.
- ResultsView.ResultsAfterParticipation: the model's stored score and returned score are the same exact value. In the program they agree only for whole-number scores: quiz/views.py:123 returns the unrounded in-memory score (33.33… for one of three questions right), while the integer column keeps 33, which quiz/views.py:66 later reads.
- The race between the duplicate check (quiz/views.py:110) and the insert (quiz/views.py:119), and transactions: each request is one sequential step.
- Malformed participation payloads: a body without a `choices` key and an entry without `choice_id` (quiz/views.py:114), or a `choice_id` the `id__in` lookup cannot convert (quiz/views.py:115), raise a server error after the three 403 checks and before any write. The model always receives a list of entries with integer choice ids.
- DRF validation of the creation payload: the model takes already-validated input, with `is_open` and `is_correct` optional.
- Order of unordered querysets: no model declares an ordering, so `quiz.questions.all()`, `question.choices.all()`, `Participation.objects.filter(quiz=quiz)`, `Choice.objects.filter(id__in=…)`, `Quiz.objects.filter(creator=user)` and the participated join come back from the database in an unspecified order. The model returns each in primary-key order, and every claim about order holds for that order only: the echo in Serializers.CreateThenRead and Serializers.ReadBackAfterAddQuestions, the entries of ResultsView.ParticipationViews, the lists of RelevantView.Relevant, and the ids of the links written by ParticipateView.WriteLinks, which follow the order of the selection. Only `.first()` (quiz/views.py:63) orders by primary key in the program.
- DetailView.QuizDetail: takes no requester, because the view's answer does not depend on who asks.
- Models.SelectedChoiceIds: `ParticipationChoiceSerializer` renders each link as `{'selected_choice': id}`; the model keeps only the id.
