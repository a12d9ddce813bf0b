/** `QuizRelevantToUserListView.get` (quiz/views.py): the quizzes a user
    created and the quizzes a user participated in, as `{id, title}` pairs
    (`QuizRelevantToMeSerializer`). */
module RelevantView {
  import opened Models
  import opened ParticipateView

  /** `QuizRelevantToMeSerializer`: id and title. */
  datatype QuizSummary = QuizSummary(id: nat, title: string)

  /** The body `{'created': ..., 'participated': ...}`. */
  datatype RelevantLists = RelevantLists(created: seq<QuizSummary>, participated: seq<QuizSummary>)

  function Summaries(quizzes: seq<Quiz>): (r: seq<QuizSummary>)
    ensures |r| == |quizzes|
    ensures forall i :: 0 <= i < |quizzes| ==> r[i] == QuizSummary(quizzes[i].id, quizzes[i].title)
  {
    seq(|quizzes|, i requires 0 <= i < |quizzes| => QuizSummary(quizzes[i].id, quizzes[i].title))
  }

  /** `Quiz.objects.filter(creator=user)`, in primary-key order. */
  function CreatedBy(quizzes: seq<Quiz>, user: UserId): (r: seq<Quiz>)
    ensures forall q :: q in r <==> q in quizzes && q.creator == user
  {
    if quizzes == [] then []
    else
      var last := quizzes[|quizzes| - 1];
      CreatedBy(quizzes[..|quizzes| - 1], user) + (if last.creator == user then [last] else [])
  }

  /** How many participations `user` has on quiz `quizId`. */
  function ParticipationCount(participations: seq<Participation>, user: UserId, quizId: nat): nat {
    if participations == [] then 0
    else
      var last := participations[|participations| - 1];
      ParticipationCount(participations[..|participations| - 1], user, quizId)
        + (if last.user == user && last.quiz == quizId then 1 else 0)
  }

  /** `Quiz.objects.filter(participation__user=user)`: a join, so each quiz
      comes once per participation of `user` on it; quizzes in primary-key order. */
  function ParticipatedIn(quizzes: seq<Quiz>, participations: seq<Participation>, user: UserId): (r: seq<Quiz>)
    ensures forall q :: q in r ==> q in quizzes && HasParticipated(participations, user, q.id)
  {
    if quizzes == [] then []
    else
      var last := quizzes[|quizzes| - 1];
      var block := seq(ParticipationCount(participations, user, last.id), _ => last);
      CountZeroIffAbsent(participations, user, last.id);
      assert forall q :: q in block ==> q == last && HasParticipated(participations, user, last.id);
      ParticipatedIn(quizzes[..|quizzes| - 1], participations, user) + block
  }

  /** The view's body. Every summary it lists is that of a quiz the user
      created, or of a quiz the user participated in, respectively. */
  function Relevant(db: Db, user: UserId): (r: RelevantLists)
    ensures forall s :: s in r.created ==>
      exists q :: q in db.quizzes && q.creator == user && s == QuizSummary(q.id, q.title)
    ensures forall s :: s in r.participated ==>
      exists q :: q in db.quizzes && HasParticipated(db.participations, user, q.id) && s == QuizSummary(q.id, q.title)
  {
    var created := CreatedBy(db.quizzes, user);
    var participated := ParticipatedIn(db.quizzes, db.participations, user);
    assert forall i :: 0 <= i < |created| ==> created[i] in created;
    assert forall i :: 0 <= i < |participated| ==> participated[i] in participated;
    RelevantLists(Summaries(created), Summaries(participated))
  }

  // ---------------------------------------------------------------------
  // What the lists hold
  // ---------------------------------------------------------------------

  lemma {:induction false} CountZeroIffAbsent(participations: seq<Participation>, user: UserId, quizId: nat)
    ensures ParticipationCount(participations, user, quizId) == 0 <==> !HasParticipated(participations, user, quizId)
  {
    if participations != [] {
      var init := participations[..|participations| - 1];
      var last := participations[|participations| - 1];
      CountZeroIffAbsent(init, user, quizId);
      assert forall p :: p in participations <==> p in init || p == last;
    }
  }

  /** A quiz is in the participated list exactly when the user has a
      participation on it. */
  lemma {:induction false} ParticipatedMembership(quizzes: seq<Quiz>, participations: seq<Participation>, user: UserId)
    ensures forall q :: q in ParticipatedIn(quizzes, participations, user) <==>
      q in quizzes && HasParticipated(participations, user, q.id)
  {
    if quizzes != [] {
      var init := quizzes[..|quizzes| - 1];
      var last := quizzes[|quizzes| - 1];
      ParticipatedMembership(init, participations, user);
      CountZeroIffAbsent(participations, user, last.id);
      var block := seq(ParticipationCount(participations, user, last.id), _ => last);
      assert forall q :: q in block <==> q == last && HasParticipated(participations, user, last.id) by {
        if HasParticipated(participations, user, last.id) {
          assert block[0] == last;
        }
      }
      assert forall q :: q in quizzes <==> q in init || q == last;
    }
  }

  /** Both lists are exact: a summary is listed as created exactly for the
      user's own quizzes, and as participated exactly for quizzes the user
      has a participation on. */
  lemma RelevantListsExact(db: Db, user: UserId)
    ensures var lists := Relevant(db, user);
      && (forall q :: q in db.quizzes && q.creator == user ==> QuizSummary(q.id, q.title) in lists.created)
      && (forall s :: s in lists.created ==> exists q :: q in db.quizzes && q.creator == user && s == QuizSummary(q.id, q.title))
      && (forall q :: q in db.quizzes && HasParticipated(db.participations, user, q.id) ==>
            QuizSummary(q.id, q.title) in lists.participated)
      && (forall s :: s in lists.participated ==>
            exists q :: q in db.quizzes && HasParticipated(db.participations, user, q.id) && s == QuizSummary(q.id, q.title))
  {
    var lists := Relevant(db, user);
    var created := CreatedBy(db.quizzes, user);
    var participated := ParticipatedIn(db.quizzes, db.participations, user);
    ParticipatedMembership(db.quizzes, db.participations, user);
    forall q | q in db.quizzes && q.creator == user
      ensures QuizSummary(q.id, q.title) in lists.created
    {
      var i :| 0 <= i < |created| && created[i] == q;
      assert lists.created[i] == QuizSummary(q.id, q.title);
    }
    forall s | s in lists.created
      ensures exists q :: q in db.quizzes && q.creator == user && s == QuizSummary(q.id, q.title)
    {
      var i :| 0 <= i < |lists.created| && lists.created[i] == s;
      assert created[i] in created;
    }
    forall q | q in db.quizzes && HasParticipated(db.participations, user, q.id)
      ensures QuizSummary(q.id, q.title) in lists.participated
    {
      var i :| 0 <= i < |participated| && participated[i] == q;
      assert lists.participated[i] == QuizSummary(q.id, q.title);
    }
    forall s | s in lists.participated
      ensures exists q :: q in db.quizzes && HasParticipated(db.participations, user, q.id) && s == QuizSummary(q.id, q.title)
    {
      var i :| 0 <= i < |lists.participated| && lists.participated[i] == s;
      assert participated[i] in participated;
    }
  }

  // ---------------------------------------------------------------------
  // No repeats under the consistency invariant
  // ---------------------------------------------------------------------

  lemma {:induction false} CountAtMostOne(participations: seq<Participation>, user: UserId, quizId: nat)
    requires forall i, j :: 0 <= i < j < |participations| ==>
      participations[i].user != participations[j].user || participations[i].quiz != participations[j].quiz
    ensures ParticipationCount(participations, user, quizId) <= 1
  {
    if participations != [] {
      var init := participations[..|participations| - 1];
      var last := participations[|participations| - 1];
      CountAtMostOne(init, user, quizId);
      if last.user == user && last.quiz == quizId {
        CountZeroIffAbsent(init, user, quizId);
      }
    }
  }

  lemma {:induction false} ParticipatedDistinct(quizzes: seq<Quiz>, participations: seq<Participation>, user: UserId)
    requires Distinct(quizzes)
    requires forall q :: q in quizzes ==> ParticipationCount(participations, user, q.id) <= 1
    ensures Distinct(ParticipatedIn(quizzes, participations, user))
  {
    if quizzes != [] {
      var init := quizzes[..|quizzes| - 1];
      var last := quizzes[|quizzes| - 1];
      assert Distinct(init);
      ParticipatedDistinct(init, participations, user);
      ParticipatedMembership(init, participations, user);
      var rest := ParticipatedIn(init, participations, user);
      var block := seq(ParticipationCount(participations, user, last.id), _ => last);
      assert last !in init;
      assert last !in rest;
      assert |block| <= 1;
      var all := rest + block;
      forall i, j | 0 <= i < j < |all|
        ensures all[i] != all[j]
      {
        if j >= |rest| {
          assert all[j] == last;
          assert i < |rest|;
          assert all[i] in rest;
        }
      }
    }
  }

  /** While each user has at most one participation per quiz, which the
      participation view guarantees, the participated list has no repeats. */
  lemma ParticipatedListHasNoRepeats(db: Db, user: UserId)
    requires Consistent(db)
    ensures Distinct(Relevant(db, user).participated)
  {
    var participated := ParticipatedIn(db.quizzes, db.participations, user);
    forall q | q in db.quizzes
      ensures ParticipationCount(db.participations, user, q.id) <= 1
    {
      CountAtMostOne(db.participations, user, q.id);
    }
    assert Distinct(db.quizzes);
    ParticipatedDistinct(db.quizzes, db.participations, user);
    ParticipatedMembership(db.quizzes, db.participations, user);
    var lists := Relevant(db, user);
    forall i, j | 0 <= i < j < |participated|
      ensures lists.participated[i] != lists.participated[j]
    {
      assert participated[i] in participated && participated[j] in participated;
      assert participated[i].id != participated[j].id by {
        QuizIdsDistinct(db, participated[i], participated[j]);
      }
    }
  }

  /** A filter of a table without repeated rows has no repeated rows. */
  lemma {:induction false} CreatedByDistinct(quizzes: seq<Quiz>, user: UserId)
    requires Distinct(quizzes)
    ensures Distinct(CreatedBy(quizzes, user))
  {
    if quizzes != [] {
      var init := quizzes[..|quizzes| - 1];
      var last := quizzes[|quizzes| - 1];
      assert Distinct(init);
      CreatedByDistinct(init, user);
      assert last !in init;
      assert last !in CreatedBy(init, user);
    }
  }

  /** The created list names each of the user's quizzes exactly once: its
      length is the number of quiz rows the user created. */
  lemma CreatedCount(db: Db, user: UserId)
    requires WellFormed(db)
    ensures Distinct(CreatedBy(db.quizzes, user))
    ensures |Relevant(db, user).created| == |set q | q in db.quizzes && q.creator == user|
  {
    var created := CreatedBy(db.quizzes, user);
    assert Distinct(db.quizzes);
    CreatedByDistinct(db.quizzes, user);
    DistinctCardinality(created);
    assert (set x | x in created) == (set q | q in db.quizzes && q.creator == user);
  }

  /** Different quiz rows of a well-formed database have different ids. */
  lemma QuizIdsDistinct(db: Db, a: Quiz, b: Quiz)
    requires WellFormed(db) && a in db.quizzes && b in db.quizzes && a != b
    ensures a.id != b.id
  {
    QuizRowId(db, a);
    QuizRowId(db, b);
  }

  // ---------------------------------------------------------------------
  // The request of test_retrieve_relevant_quizzes
  // ---------------------------------------------------------------------

  /** User 2 participated once in quiz 1, created by user 1. */
  lemma RelevantScenario()
    ensures Relevant(Db([Quiz(1, 1, "Sample Quiz", true)], [], [], [Participation(1, 2, 1, 1.0)], []), 2)
      == RelevantLists([], [QuizSummary(1, "Sample Quiz")])
  {
    var quiz := Quiz(1, 1, "Sample Quiz", true);
    var p := Participation(1, 2, 1, 1.0);
    assert [quiz][..0] == [];
    assert [p][..0] == [];
    assert ParticipationCount([p], 2, 1) == 1;
    assert CreatedBy([quiz], 2) == [];
    assert ParticipatedIn([quiz], [p], 2) == [quiz];
  }
}
