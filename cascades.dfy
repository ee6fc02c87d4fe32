/** Deleting a class row: the ORM's `on_delete=CASCADE` on every table that
    points at `Clase`, followed by the `post_delete` signal that recounts the
    subject's `numero_clases` (subjectsApp/models.py:175-179). */
module Cascades {
  import opened Model
  import opened Queries

  // ----- numero_clases bookkeeping -----

  /** Removing a class lowers its own subject's count by one and no other. */
  lemma CountAfterRemove(lessons: map<LessonId, Lesson>, c: LessonId, sj: SubjectId)
    requires c in lessons
    ensures ClassCount(lessons - {c}, sj)
         == if lessons[c].subject == sj then ClassCount(lessons, sj) - 1 else ClassCount(lessons, sj)
  {
    if lessons[c].subject == sj {
      assert LessonsOf(lessons - {c}, sj) == LessonsOf(lessons, sj) - {c};
    } else {
      assert LessonsOf(lessons - {c}, sj) == LessonsOf(lessons, sj);
    }
  }

  /** Adding a class raises its own subject's count by one and no other. */
  lemma CountAfterInsert(lessons: map<LessonId, Lesson>, c: LessonId, l: Lesson, sj: SubjectId)
    requires c !in lessons
    ensures ClassCount(lessons[c := l], sj)
         == if l.subject == sj then ClassCount(lessons, sj) + 1 else ClassCount(lessons, sj)
  {
    if l.subject == sj {
      assert LessonsOf(lessons[c := l], sj) == LessonsOf(lessons, sj) + {c};
    } else {
      assert LessonsOf(lessons[c := l], sj) == LessonsOf(lessons, sj);
    }
  }

  /** Saving a class without moving it to another subject leaves every count
      as it was, so the `post_save` recount stores the same number. */
  lemma CountAfterSave(lessons: map<LessonId, Lesson>, c: LessonId, l: Lesson, sj: SubjectId)
    requires c in lessons && l.subject == lessons[c].subject
    ensures ClassCount(lessons[c := l], sj) == ClassCount(lessons, sj)
  {
    assert LessonsOf(lessons[c := l], sj) == LessonsOf(lessons, sj);
  }

  /** Saving a class keeps the database invariant. */
  lemma SaveLessonValid(st: DbState, c: LessonId, l: Lesson)
    requires Valid(st) && c in st.lessons && l.subject == st.lessons[c].subject
    ensures Valid(st.(lessons := st.lessons[c := l]))
  {
    forall sj | sj in st.subjects {
      CountAfterSave(st.lessons, c, l, sj);
    }
  }

  // ----- unique_together survives deleting rows -----

  lemma SharesNotOfUnique(d: seq<Share>, c: LessonId)
    requires UniqueShareKeys(d)
    ensures UniqueShareKeys(SharesNotOf(d, c))
  {
    if d != [] {
      SharesNotOfUnique(d[1..], c);
      if d[0].key.lesson != c {
        var r := SharesNotOf(d[1..], c);
        forall j | 0 <= j < |r| ensures d[0].key != r[j].key {
          assert r[j] in d[1..];
        }
      }
    }
  }

  lemma ParticipationsNotOfUnique(p: seq<Participation>, c: LessonId)
    requires UniqueParticipations(p)
    ensures UniqueParticipations(ParticipationsNotOf(p, c))
  {
    if p != [] {
      ParticipationsNotOfUnique(p[1..], c);
      if p[0].lesson != c {
        var r := ParticipationsNotOf(p[1..], c);
        forall j | 0 <= j < |r| ensures p[0] != r[j] {
          assert r[j] in p[1..];
        }
      }
    }
  }

  lemma RequestsNotOfUnique(r: seq<SupplyRequest>, c: LessonId)
    requires UniqueRequestIds(r)
    ensures UniqueRequestIds(RequestsNotOf(r, c))
  {
    if r != [] {
      RequestsNotOfUnique(r[1..], c);
      if r[0].lesson != c {
        var t := RequestsNotOf(r[1..], c);
        forall j | 0 <= j < |t| ensures r[0].id != t[j].id {
          assert t[j] in r[1..];
        }
      }
    }
  }

  // ----- Clase.objects.create() -----

  /** `Clase.objects.create(...)`: the row takes the next primary key, and the
      `post_save` signal stores the new count in its subject's `numero_clases`
      (subjectsApp/models.py:167-171). */
  function InsertLesson(st: DbState, l: Lesson): (st': DbState)
    ensures st'.lessons == st.lessons[st.nextLessonId := l]
    ensures st'.nextLessonId == st.nextLessonId + 1
    ensures st'.subjects.Keys == st.subjects.Keys
  {
    var c := st.nextLessonId;
    var lessons := st.lessons[c := l];
    st.(lessons := lessons,
        nextLessonId := c + 1,
        subjects := if l.subject in st.subjects
                    then st.subjects[l.subject := st.subjects[l.subject].(numClasses := ClassCount(lessons, l.subject))]
                    else st.subjects)
  }

  /** A created class raises its own subject's count by one and no other. */
  lemma InsertLessonTally(st: DbState, l: Lesson)
    requires st.nextLessonId !in st.lessons
    ensures forall x :: ClassCount(InsertLesson(st, l).lessons, x) == ClassCount(st.lessons, x) + (if x == l.subject then 1 else 0)
  {
    forall x ensures ClassCount(st.lessons[st.nextLessonId := l], x) == ClassCount(st.lessons, x) + (if x == l.subject then 1 else 0) {
      CountAfterInsert(st.lessons, st.nextLessonId, l, x);
    }
  }

  /** A class created for an existing subject keeps every class linked to a
      subject and below the key counter. */
  lemma InsertLessonLinked(st: DbState, l: Lesson)
    requires 0 <= st.nextLessonId && l.subject in st.subjects
    requires LessonsLinked(st.lessons, st.subjects.Keys, st.nextLessonId)
    ensures var r := InsertLesson(st, l); LessonsLinked(r.lessons, r.subjects.Keys, r.nextLessonId)
  {
  }

  // ----- Clase.delete() -----

  /** `clase.delete()`: the class goes, every row pointing at it goes with it
      (allocations, shares, participations, requests, both histories), and
      the subject's `numero_clases` is recounted. Supply stock is untouched:
      returning allocations is the handler's job, before it deletes. */
  function DeleteLesson(st: DbState, c: LessonId): (st': DbState)
    requires c in st.lessons
    ensures c !in st'.lessons && st'.lessons.Keys == st.lessons.Keys - {c}
    ensures forall x :: x in st'.lessons ==> st'.lessons[x] == st.lessons[x]
    ensures forall a :: a in st'.allocations <==> a in st.allocations && a.lesson != c
    ensures forall x :: x in st'.shares <==> x in st.shares && x.key.lesson != c
    ensures forall x :: x in st'.participations <==> x in st.participations && x.lesson != c
    ensures forall x :: x in st'.requests <==> x in st.requests && x.lesson != c
    ensures forall x :: x in st'.supplyHistory <==> x in st.supplyHistory && x.lesson != c
    ensures forall x :: x in st'.studentHistory <==> x in st.studentHistory && x.lesson != c
    ensures st'.subjects.Keys == st.subjects.Keys
    ensures st'.supplies == st.supplies && st'.notifications == st.notifications && st'.roles == st.roles
    ensures st'.nextSubjectId == st.nextSubjectId && st'.nextLessonId == st.nextLessonId
    ensures st'.nextRequestId == st.nextRequestId
  {
    var sj := st.lessons[c].subject;
    var lessons := st.lessons - {c};
    st.(lessons := lessons,
        subjects := if sj in st.subjects
                    then st.subjects[sj := st.subjects[sj].(numClasses := ClassCount(lessons, sj))]
                    else st.subjects,
        allocations := RowsNotOf(st.allocations, c),
        shares := SharesNotOf(st.shares, c),
        participations := ParticipationsNotOf(st.participations, c),
        requests := RequestsNotOf(st.requests, c),
        supplyHistory := SupplyHistoryNotOf(st.supplyHistory, c),
        studentHistory := StudentHistoryNotOf(st.studentHistory, c))
  }

  /** Deleting a class keeps the database invariant; in particular the
      subject's `numero_clases` is again the number of its classes. */
  lemma DeleteLessonValid(st: DbState, c: LessonId)
    requires Valid(st) && c in st.lessons
    ensures Valid(DeleteLesson(st, c))
    ensures var sj := st.lessons[c].subject;
            DeleteLesson(st, c).subjects[sj].numClasses == st.subjects[sj].numClasses - 1
  {
    var st' := DeleteLesson(st, c);
    forall sj | sj in st'.subjects
      ensures st'.subjects[sj].numClasses == ClassCount(st'.lessons, sj)
    {
      CountAfterRemove(st.lessons, c, sj);
    }
    CountAfterRemove(st.lessons, c, st.lessons[c].subject);
    SharesNotOfUnique(st.shares, c);
    ParticipationsNotOfUnique(st.participations, c);
    RequestsNotOfUnique(st.requests, c);
  }
}
