/** Subjects (`AsignaturaView`, subjectsApp/views.py): creating a subject
    creates its classes through the `crear_clases` signal and adds a first
    class if there is none; deleting one gives back the balances of its
    classes that have not started and deletes every class. */
module Subjects {
  import opened Model
  import opened Queries
  import opened Permissions
  import opened Cascades
  import ClassStock

  // ===== class names =====

  function DigitChar(d: nat): char
    requires d < 10
  {
    ('0' as int + d) as char
  }

  /** The decimal numeral of n, as Python's `f"{n}"` writes it. */
  function NatToString(n: nat): string
    decreases n
  {
    if n < 10 then [DigitChar(n)] else NatToString(n / 10) + [DigitChar(n % 10)]
  }

  lemma {:induction false} NatToStringLength(n: nat)
    ensures 1 <= |NatToString(n)|
    ensures n < 10 <==> |NatToString(n)| == 1
    decreases n
  {
    if n >= 10 {
      NatToStringLength(n / 10);
    }
  }

  /** `f"Clase {i + 1}"`. */
  function ClassName(k: nat): string {
    "Clase " + NatToString(k)
  }

  /** Distinct numbers have distinct numerals. */
  lemma {:induction false} NatToStringInjective(n: nat, m: nat)
    requires NatToString(n) == NatToString(m)
    ensures n == m
    decreases n
  {
    NatToStringLength(n);
    NatToStringLength(m);
    if n >= 10 && m >= 10 {
      var sn, sm := NatToString(n), NatToString(m);
      assert sn[..|sn| - 1] == NatToString(n / 10);
      assert sm[..|sm| - 1] == NatToString(m / 10);
      NatToStringInjective(n / 10, m / 10);
      assert DigitChar(n % 10) == sn[|sn| - 1] == sm[|sm| - 1] == DigitChar(m % 10);
    }
  }

  /** The classes `crear_clases` names are pairwise distinct, and the
      class `perform_create` adds is the first of them. */
  lemma ClassNames(j: nat, k: nat)
    ensures ClassName(j) == ClassName(k) <==> j == k
    ensures ClassName(1) == "Clase 1"
  {
    if ClassName(j) == ClassName(k) {
      assert NatToString(j) == ClassName(j)[6..];
      assert NatToString(k) == ClassName(k)[6..];
      NatToStringInjective(j, k);
    }
    assert NatToString(1) == "1";
  }

  // ===== perform_create and crear_clases =====

  /** Lesson keys `a`, …, `a + k - 1`. */
  function NewIds(a: int, k: nat): (r: set<LessonId>)
    ensures forall j :: j in r <==> a <= j < a + k
    decreases k
  {
    if k == 0 then {} else NewIds(a, k - 1) + {a + k - 1}
  }

  lemma {:induction false} NewIdsCount(a: int, k: nat)
    ensures |NewIds(a, k)| == k
    decreases k
  {
    if k > 0 {
      NewIdsCount(a, k - 1);
      var s := NewIds(a, k - 1);
      assert a + k - 1 !in s;
      assert NewIds(a, k) == s + {a + k - 1};
      assert |s + {a + k - 1}| == |s| + 1;
    }
  }

  /** The loop of `crear_clases`: classes "Clase 1" … "Clase k" for subject
      sj and teacher t, each creation followed by the recount. */
  function CreateClasses(st: DbState, sj: SubjectId, t: UserId, k: nat): DbState
    decreases k
  {
    if k == 0 then st else InsertLesson(CreateClasses(st, sj, t, k - 1), NewLesson(sj, t, ClassName(k)))
  }

  /** The loop only touches the classes, the subjects' counts and the key
      sequence. */
  lemma {:induction false} CreateClassesFrame(st: DbState, sj: SubjectId, t: UserId, k: nat)
    ensures var r := CreateClasses(st, sj, t, k);
            && r == st.(lessons := r.lessons, subjects := r.subjects, nextLessonId := st.nextLessonId + k)
            && r.subjects.Keys == st.subjects.Keys
    decreases k
  {
    if k > 0 {
      CreateClassesFrame(st, sj, t, k - 1);
    }
  }

  /** The loop adds exactly the next k keys and keeps every existing class. */
  lemma {:induction false} CreateClassesKeys(st: DbState, sj: SubjectId, t: UserId, k: nat)
    requires forall c :: c in st.lessons ==> c < st.nextLessonId
    ensures var r := CreateClasses(st, sj, t, k);
            && r.lessons.Keys == st.lessons.Keys + NewIds(st.nextLessonId, k)
            && (forall c :: c in st.lessons ==> r.lessons[c] == st.lessons[c])
    decreases k
  {
    if k > 0 {
      CreateClassesKeys(st, sj, t, k - 1);
      CreateClassesFrame(st, sj, t, k - 1);
      var r' := CreateClasses(st, sj, t, k - 1);
      var c := st.nextLessonId + k - 1;
      assert r'.nextLessonId == c;
      var l := NewLesson(sj, t, ClassName(k));
      var m := r'.lessons[c := l];
      assert CreateClasses(st, sj, t, k).lessons == m;
      KeysAfterInsert(r'.lessons, st.lessons, NewIds(st.nextLessonId, k - 1), c, l);
    }
  }

  lemma KeysAfterInsert(m: map<LessonId, Lesson>, base: map<LessonId, Lesson>, ids: set<LessonId>, c: LessonId, l: Lesson)
    requires m.Keys == base.Keys + ids
    requires forall x :: x in base ==> x < c && m[x] == base[x]
    ensures m[c := l].Keys == base.Keys + (ids + {c})
    ensures forall x :: x in base ==> m[c := l][x] == base[x]
  {
  }

  /** From key `from` on, the classes are "Clase 1", "Clase 2", … of subject
      sj and teacher t, in key order. */
  predicate NamedFrom(lessons: map<LessonId, Lesson>, from: int, sj: SubjectId, t: UserId) {
    forall c :: c in lessons && from <= c ==> lessons[c] == NewLesson(sj, t, ClassName(c - from + 1))
  }

  /** The loop adds classes "Clase 1" … "Clase k" of subject sj under the
      next k keys, in key order. */
  lemma {:induction false} CreateClassesLessons(st: DbState, sj: SubjectId, t: UserId, k: nat)
    requires forall c :: c in st.lessons ==> c < st.nextLessonId
    ensures NamedFrom(CreateClasses(st, sj, t, k).lessons, st.nextLessonId, sj, t)
    decreases k
  {
    if k > 0 {
      CreateClassesLessons(st, sj, t, k - 1);
      CreateClassesFrame(st, sj, t, k - 1);
      var r' := CreateClasses(st, sj, t, k - 1);
      var c := st.nextLessonId + k - 1;
      assert r'.nextLessonId == c;
      var lessons := CreateClasses(st, sj, t, k).lessons;
      assert lessons == r'.lessons[c := NewLesson(sj, t, ClassName(k))];
      forall x | x in lessons && st.nextLessonId <= x
        ensures lessons[x] == NewLesson(sj, t, ClassName(x - st.nextLessonId + 1))
      {
        if x != c {
          assert x in r'.lessons;
        }
      }
      assert NamedFrom(lessons, st.nextLessonId, sj, t);
    }
  }

  /** Every class key is below the key counter. */
  predicate KeysBelowCounter(st: DbState) {
    forall c :: c in st.lessons ==> c < st.nextLessonId
  }

  lemma {:induction false} CreateClassesFresh(st: DbState, sj: SubjectId, t: UserId, k: nat)
    requires KeysBelowCounter(st)
    ensures KeysBelowCounter(CreateClasses(st, sj, t, k))
    decreases k
  {
    if k > 0 {
      CreateClassesFresh(st, sj, t, k - 1);
      var r' := CreateClasses(st, sj, t, k - 1);
      var r := InsertLesson(r', NewLesson(sj, t, ClassName(k)));
      assert CreateClasses(st, sj, t, k) == r;
      forall c | c in r.lessons ensures c < r.nextLessonId {
        if c != r'.nextLessonId { assert c in r'.lessons; }
      }
    }
  }

  /** With fresh keys the loop raises sj's class count by k and leaves every
      other subject's count alone. */
  lemma {:induction false} CreateClassesTally(st: DbState, sj: SubjectId, t: UserId, k: nat)
    requires forall c :: c in st.lessons ==> c < st.nextLessonId
    ensures var r := CreateClasses(st, sj, t, k);
            forall x :: ClassCount(r.lessons, x) == ClassCount(st.lessons, x) + (if x == sj then k else 0)
    decreases k
  {
    if k > 0 {
      CreateClassesTally(st, sj, t, k - 1);
      CreateClassesFresh(st, sj, t, k - 1);
      var r' := CreateClasses(st, sj, t, k - 1);
      assert KeysBelowCounter(r');
      assert r'.nextLessonId !in r'.lessons;
      InsertLessonTally(r', NewLesson(sj, t, ClassName(k)));
    }
  }

  /** Each creation stores the recount in sj's `numero_clases`; every other
      subject row stays as it was. */
  lemma {:induction false} CreateClassesCounts(st: DbState, sj: SubjectId, t: UserId, k: nat)
    requires sj in st.subjects
    ensures var r := CreateClasses(st, sj, t, k);
            && r.subjects.Keys == st.subjects.Keys
            && (forall x :: x in st.subjects && x != sj ==> r.subjects[x] == st.subjects[x])
            && (k > 0 ==> r.subjects[sj] == st.subjects[sj].(numClasses := ClassCount(r.lessons, sj)))
    decreases k
  {
    if k > 0 {
      CreateClassesCounts(st, sj, t, k - 1);
      var r' := CreateClasses(st, sj, t, k - 1);
      var r := InsertLesson(r', NewLesson(sj, t, ClassName(k)));
      assert CreateClasses(st, sj, t, k) == r;
      assert r.subjects == r'.subjects[sj := r'.subjects[sj].(numClasses := ClassCount(r.lessons, sj))];
    }
  }

  /** The request body passes the serializer: a teacher ('2') as `profesor`
      and only students ('3') in `alumnos`. */
  predicate AcceptedInput(st: DbState, teacher: Option<UserId>, students: set<UserId>) {
    && teacher.Some? && teacher.value in st.roles && st.roles[teacher.value] == TeacherRole
    && forall u :: u in students ==> u in st.roles && st.roles[u] == StudentRole
  }

  /** The classes the subject ends with: n of them, or the single default
      class when n is not positive. */
  function InitialClasses(n: int): nat {
    if n > 0 then n else 1
  }

  /** `serializer.save()`: the subject row under the next key. */
  function Registered(st: DbState, name: string, n: int, t: UserId, students: set<UserId>): DbState {
    st.(subjects := st.subjects[st.nextSubjectId := Subject(name, n, t, students)], nextSubjectId := st.nextSubjectId + 1)
  }

  /** Creating a subject (`serializer.save()` and `perform_create`): the row
      with `numero_clases` n, the n classes of `crear_clases`, then "Clase 1"
      when the subject still has no class. */
  function AfterCreateSubject(st: DbState, caller: User, name: string, n: int, teacher: Option<UserId>, students: set<UserId>): Step {
    if !IsAuthenticated(caller) then Step(Err(Forbidden), st)
    else if !AcceptedInput(st, teacher, students) then Step(Err(InvalidInput), st)
    else
      var sj := st.nextSubjectId;
      var st2 := CreateClasses(Registered(st, name, n, teacher.value, students), sj, teacher.value, if n > 0 then n else 0);
      if ClassCount(st2.lessons, sj) == 0 then Step(Ok, InsertLesson(st2, NewLesson(sj, teacher.value, "Clase 1")))
      else Step(Ok, st2)
  }

  /** The part of the invariant subject creation relies on: every class
      belongs to an existing subject, and every key is below its counter. */
  predicate KeysIssued(st: DbState) {
    && (forall c :: c in st.lessons ==> st.lessons[c].subject in st.subjects && c < st.nextLessonId)
    && (forall sj :: sj in st.subjects ==> sj < st.nextSubjectId)
  }

  /** Both paths of `perform_create` come to the same thing: max(n, 1)
      classes named by `crear_clases`. */
  lemma CreateSubjectClasses(st: DbState, caller: User, name: string, n: int, teacher: Option<UserId>, students: set<UserId>)
    requires KeysIssued(st)
    requires AfterCreateSubject(st, caller, name, n, teacher, students).out == Ok
    ensures var st1 := Registered(st, name, n, teacher.value, students);
            && st.nextSubjectId !in st.subjects
            && LessonsOf(st1.lessons, st.nextSubjectId) == {}
            && AfterCreateSubject(st, caller, name, n, teacher, students).st
               == CreateClasses(st1, st.nextSubjectId, teacher.value, InitialClasses(n))
  {
    var sj := st.nextSubjectId;
    var st1 := Registered(st, name, n, teacher.value, students);
    assert sj !in st.subjects;
    forall c | c in st1.lessons ensures st1.lessons[c].subject != sj {
      assert st.lessons[c].subject in st.subjects;
    }
    assert LessonsOf(st1.lessons, sj) == {};
    CreateClassesCounts(st1, sj, teacher.value, if n > 0 then n else 0);
    CreateClassesTally(st1, sj, teacher.value, if n > 0 then n else 0);
    if n <= 0 {
      ClassNames(1, 1);
      assert CreateClasses(st1, sj, teacher.value, 0) == st1;
    }
  }

  /** A created subject takes the next subject key, with `numero_clases`
      max(n, 1), and consumes max(n, 1) class keys; only the subjects, the
      classes and the key sequences change. A refused request changes
      nothing. */
  lemma CreateSubjectEffect(st: DbState, caller: User, name: string, n: int, teacher: Option<UserId>, students: set<UserId>)
    requires KeysIssued(st)
    ensures var r := AfterCreateSubject(st, caller, name, n, teacher, students);
            var sj := st.nextSubjectId;
            && (r.out == Ok <==> IsAuthenticated(caller) && AcceptedInput(st, teacher, students))
            && (r.out != Ok ==> r.st == st)
            && (r.out == Ok ==>
                  && sj !in st.subjects
                  && r.st.subjects == st.subjects[sj := Subject(name, InitialClasses(n), teacher.value, students)]
                  && r.st == st.(subjects := r.st.subjects, lessons := r.st.lessons,
                                 nextSubjectId := sj + 1, nextLessonId := st.nextLessonId + InitialClasses(n)))
  {
    var r := AfterCreateSubject(st, caller, name, n, teacher, students);
    if r.out == Ok {
      var sj := st.nextSubjectId;
      var m := InitialClasses(n);
      var t := teacher.value;
      var st1 := Registered(st, name, n, t, students);
      CreateSubjectClasses(st, caller, name, n, teacher, students);
      assert r.st == CreateClasses(st1, sj, t, m);
      CreateClassesFrame(st1, sj, t, m);
      CreateClassesCounts(st1, sj, t, m);
      CreateClassesTally(st1, sj, t, m);
      assert ClassCount(st1.lessons, sj) == 0;
      assert r.st.subjects[sj] == Subject(name, m, t, students);
      forall x | x in st.subjects ensures r.st.subjects[x] == st.subjects[x] {
        assert x != sj;
      }
      assert r.st.subjects == st.subjects[sj := Subject(name, m, t, students)];
    }
  }

  /** The subject's classes are exactly the max(n, 1) classes created
      under the next class keys. */
  lemma CreateSubjectLessons(st: DbState, caller: User, name: string, n: int, teacher: Option<UserId>, students: set<UserId>)
    requires KeysIssued(st)
    requires AfterCreateSubject(st, caller, name, n, teacher, students).out == Ok
    ensures var r := AfterCreateSubject(st, caller, name, n, teacher, students).st;
            var sj := st.nextSubjectId;
            var m := InitialClasses(n);
            && r.lessons.Keys == st.lessons.Keys + NewIds(st.nextLessonId, m)
            && LessonsOf(r.lessons, sj) == NewIds(st.nextLessonId, m)
            && ClassCount(r.lessons, sj) == m
  {
    CreateSubjectClasses(st, caller, name, n, teacher, students);
    CreatedLessons(st, name, n, teacher.value, students);
  }

  lemma CreatedLessons(st: DbState, name: string, n: int, t: UserId, students: set<UserId>)
    requires KeysIssued(st)
    ensures var sj := st.nextSubjectId;
            var m := InitialClasses(n);
            var r := CreateClasses(Registered(st, name, n, t, students), sj, t, m);
            && r.lessons.Keys == st.lessons.Keys + NewIds(st.nextLessonId, m)
            && LessonsOf(r.lessons, sj) == NewIds(st.nextLessonId, m)
            && ClassCount(r.lessons, sj) == m
  {
    var sj := st.nextSubjectId;
    var m := InitialClasses(n);
    var st1 := Registered(st, name, n, t, students);
    var r := CreateClasses(st1, sj, t, m);
    assert st1.lessons == st.lessons && st1.nextLessonId == st.nextLessonId;
    assert r.lessons.Keys == st.lessons.Keys + NewIds(st.nextLessonId, m)
        && (forall c :: c in st.lessons ==> r.lessons[c] == st.lessons[c]) by {
      CreateClassesKeys(st1, sj, t, m);
    }
    assert NamedFrom(r.lessons, st.nextLessonId, sj, t) by {
      CreateClassesLessons(st1, sj, t, m);
    }
    forall c | c in st.lessons ensures st.lessons[c].subject != sj && c < st.nextLessonId {
      assert st.lessons[c].subject in st.subjects;
    }
    LessonsOfGrown(st.lessons, r.lessons, sj, t, st.nextLessonId, m);
  }

  /** Classes added under the keys lo … lo+k-1, all of subject sj, to a table
      where sj had none: sj's classes are exactly the new keys. */
  lemma LessonsOfGrown(base: map<LessonId, Lesson>, grown: map<LessonId, Lesson>, sj: SubjectId, t: UserId, lo: int, k: nat)
    requires grown.Keys == base.Keys + NewIds(lo, k)
    requires forall c :: c in base ==> grown[c] == base[c]
    requires forall c :: c in base ==> base[c].subject != sj && c < lo
    requires NamedFrom(grown, lo, sj, t)
    ensures LessonsOf(grown, sj) == NewIds(lo, k)
    ensures ClassCount(grown, sj) == k
  {
    forall c | c in grown && lo <= c ensures grown[c].subject == sj {
      assert grown[c] == NewLesson(sj, t, ClassName(c - lo + 1));
    }
    assert LessonsOf(grown, sj) == NewIds(lo, k);
    NewIdsCount(lo, k);
  }

  /** The new classes are "Clase 1" … in key order, pending and taught by
      the subject's teacher; every existing class is kept as it was. */
  lemma CreateSubjectNames(st: DbState, caller: User, name: string, n: int, teacher: Option<UserId>, students: set<UserId>)
    requires KeysIssued(st)
    requires AfterCreateSubject(st, caller, name, n, teacher, students).out == Ok
    ensures var r := AfterCreateSubject(st, caller, name, n, teacher, students).st;
            && (forall c :: c in r.lessons && st.nextLessonId <= c ==>
                  r.lessons[c] == NewLesson(st.nextSubjectId, teacher.value, ClassName(c - st.nextLessonId + 1)))
            && (forall c :: c in st.lessons ==> c in r.lessons && r.lessons[c] == st.lessons[c])
  {
    var st1 := Registered(st, name, n, teacher.value, students);
    CreateSubjectClasses(st, caller, name, n, teacher, students);
    CreatedNames(st1, st.nextSubjectId, teacher.value, InitialClasses(n));
  }

  lemma CreatedNames(st1: DbState, sj: SubjectId, t: UserId, m: nat)
    requires forall c :: c in st1.lessons ==> c < st1.nextLessonId
    ensures var r := CreateClasses(st1, sj, t, m);
            && (forall c :: c in r.lessons && st1.nextLessonId <= c ==>
                  r.lessons[c] == NewLesson(sj, t, ClassName(c - st1.nextLessonId + 1)))
            && (forall c :: c in st1.lessons ==> c in r.lessons && r.lessons[c] == st1.lessons[c])
  {
    CreateClassesLessons(st1, sj, t, m);
    CreateClassesKeys(st1, sj, t, m);
  }

  lemma AfterCreateSubjectValid(st: DbState, caller: User, name: string, n: int, teacher: Option<UserId>, students: set<UserId>)
    requires Valid(st)
    ensures Valid(AfterCreateSubject(st, caller, name, n, teacher, students).st)
  {
    if AfterCreateSubject(st, caller, name, n, teacher, students).out == Ok {
      CreateSubjectClasses(st, caller, name, n, teacher, students);
      CreatedSubjectValid(st, name, n, teacher.value, students);
    }
  }

  /** The subject row followed by its max(n, 1) classes keeps the invariant. */
  lemma CreatedSubjectValid(st: DbState, name: string, n: int, t: UserId, students: set<UserId>)
    requires Valid(st)
    ensures Valid(CreateClasses(Registered(st, name, n, t, students), st.nextSubjectId, t, InitialClasses(n)))
  {
    var sj := st.nextSubjectId;
    var m := InitialClasses(n);
    var st1 := Registered(st, name, n, t, students);
    var r := CreateClasses(st1, sj, t, m);
    CreateClassesFrame(st1, sj, t, m);
    CreateClassesKeys(st1, sj, t, m);
    RowsOkWider(st, r.lessons.Keys);
    CreatedSubjectLinked(st, name, n, t, students);
    CreatedSubjectCounts(st, name, n, t, students);
  }

  /** The classes the loop creates belong to an existing subject, under
      keys below the counter. */
  lemma {:induction false} CreateClassesLinked(st: DbState, sj: SubjectId, t: UserId, k: nat)
    requires 0 <= st.nextLessonId && sj in st.subjects
    requires LessonsLinked(st.lessons, st.subjects.Keys, st.nextLessonId)
    ensures var r := CreateClasses(st, sj, t, k); LessonsLinked(r.lessons, r.subjects.Keys, r.nextLessonId)
    decreases k
  {
    if k > 0 {
      CreateClassesLinked(st, sj, t, k - 1);
      CreateClassesFrame(st, sj, t, k - 1);
      InsertLessonLinked(CreateClasses(st, sj, t, k - 1), NewLesson(sj, t, ClassName(k)));
    }
  }

  /** After the creation every class still has its subject and a key below
      the counter. */
  lemma CreatedSubjectLinked(st: DbState, name: string, n: int, t: UserId, students: set<UserId>)
    requires 0 <= st.nextLessonId
    requires LessonsLinked(st.lessons, st.subjects.Keys, st.nextLessonId)
    ensures var r := CreateClasses(Registered(st, name, n, t, students), st.nextSubjectId, t, InitialClasses(n));
            LessonsLinked(r.lessons, r.subjects.Keys, r.nextLessonId)
  {
    var st1 := Registered(st, name, n, t, students);
    assert LessonsLinked(st1.lessons, st1.subjects.Keys, st1.nextLessonId);
    CreateClassesLinked(st1, st.nextSubjectId, t, InitialClasses(n));
  }

  /** After the creation every subject's `numero_clases` is its number of
      classes. */
  lemma CreatedSubjectCounts(st: DbState, name: string, n: int, t: UserId, students: set<UserId>)
    requires 0 <= st.nextSubjectId
    requires LessonsLinked(st.lessons, st.subjects.Keys, st.nextLessonId)
    requires CountsCurrent(st.subjects, st.lessons, st.nextSubjectId)
    ensures var r := CreateClasses(Registered(st, name, n, t, students), st.nextSubjectId, t, InitialClasses(n));
            CountsCurrent(r.subjects, r.lessons, r.nextSubjectId)
  {
    var sj := st.nextSubjectId;
    var m := InitialClasses(n);
    var st1 := Registered(st, name, n, t, students);
    var r := CreateClasses(st1, sj, t, m);
    assert sj !in st.subjects;
    forall c | c in st1.lessons ensures st1.lessons[c].subject != sj {
      assert st.lessons[c].subject in st.subjects;
    }
    assert LessonsOf(st1.lessons, sj) == {};
    CreateClassesFrame(st1, sj, t, m);
    CreateClassesCounts(st1, sj, t, m);
    CreateClassesTally(st1, sj, t, m);
    forall x | x in r.subjects ensures 0 <= x < r.nextSubjectId && r.subjects[x].numClasses == ClassCount(r.lessons, x) {
      if x != sj {
        assert r.subjects[x] == st.subjects[x];
      }
    }
  }

  /** The handler, with the loop of `crear_clases`. */
  method CreateSubject(db: Db, caller: User, name: string, n: int, teacher: Option<UserId>, students: set<UserId>) returns (r: Outcome)
    requires Valid(db.tables)
    modifies db
    ensures Step(r, db.tables) == AfterCreateSubject(old(db.tables), caller, name, n, teacher, students)
    ensures Valid(db.tables)
  {
    AfterCreateSubjectValid(db.tables, caller, name, n, teacher, students);
    if !IsAuthenticated(caller) {
      return Err(Forbidden);
    }
    if !AcceptedInput(db.tables, teacher, students) {
      return Err(InvalidInput);
    }
    var sj := db.tables.nextSubjectId;
    var t := teacher.value;
    db.tables := Registered(db.tables, name, n, t, students);
    ghost var st1 := db.tables;
    var k := if n > 0 then n else 0;
    for i := 0 to k
      invariant db.tables == CreateClasses(st1, sj, t, i)
    {
      db.tables := InsertLesson(db.tables, NewLesson(sj, t, ClassName(i + 1)));
    }
    if ClassCount(db.tables.lessons, sj) == 0 {
      db.tables := InsertLesson(db.tables, NewLesson(sj, t, "Clase 1"));
    }
    r := Ok;
  }

  // ===== destroy =====

  /** `get_object` through `get_queryset`: an administrator sees every
      subject, a teacher the subjects they teach, a student the subjects they
      are enrolled in, any other role none. */
  predicate Visible(s: Subject, caller: User, callerId: UserId) {
    || caller.rol == AdminRole
    || (caller.rol == TeacherRole && s.teacher == callerId)
    || (caller.rol == StudentRole && callerId in s.students)
  }

  /** The classes of subject sj with keys below k, in key order
      (`Clase.objects.filter(asignatura=…)`). */
  function ClassesInOrder(lessons: map<LessonId, Lesson>, sj: SubjectId, k: int): (r: seq<LessonId>)
    ensures forall c :: c in r <==> 0 <= c < k && c in lessons && lessons[c].subject == sj
    ensures forall i :: 0 <= i < |r| ==> r[i] < k
    ensures forall i, j :: 0 <= i < j < |r| ==> r[i] < r[j]
    decreases k
  {
    if k <= 0 then []
    else ClassesInOrder(lessons, sj, k - 1) + (if k - 1 in lessons && lessons[k - 1].subject == sj then [k - 1] else [])
  }

  /** One pass of the loop: a class not yet started or finished gives each
      of its balances back to its supply; then the class is deleted with
      everything that points at it. */
  function DropClass(st: DbState, c: LessonId): DbState {
    if c !in st.lessons then st
    else if st.lessons[c].state == Started || st.lessons[c].state == Finished then DeleteLesson(st, c)
    else DeleteLesson(st.(supplies := ClassStock.CreditRows(st.supplies, st.allocations, c)), c)
  }

  function DropClasses(st: DbState, cs: seq<LessonId>): DbState
    decreases |cs|
  {
    if cs == [] then st else DropClasses(DropClass(st, cs[0]), cs[1..])
  }

  /** The classes among cs whose balances go back to stock. */
  function Refundable(lessons: map<LessonId, Lesson>, cs: set<LessonId>): set<LessonId> {
    set c | c in cs && c in lessons && lessons[c].state != Started && lessons[c].state != Finished
  }

  /** The balance of supply t held by the classes in cs. */
  function AllocatedTo(rows: seq<Allocation>, cs: set<LessonId>, t: SupplyId): real {
    if rows == [] then 0.0
    else (if rows[0].lesson in cs && rows[0].supply == t then rows[0].qty else 0.0) + AllocatedTo(rows[1..], cs, t)
  }

  lemma {:induction false} AllocatedToNone(rows: seq<Allocation>, t: SupplyId)
    ensures AllocatedTo(rows, {}, t) == 0.0
  {
    if rows != [] {
      AllocatedToNone(rows[1..], t);
    }
  }

  /** Deleting a class outside cs leaves the balance of cs as it was. */
  lemma {:induction false} AllocatedToWithout(rows: seq<Allocation>, c: LessonId, cs: set<LessonId>, t: SupplyId)
    requires c !in cs
    ensures AllocatedTo(RowsNotOf(rows, c), cs, t) == AllocatedTo(rows, cs, t)
  {
    if rows != [] {
      AllocatedToWithout(rows[1..], c, cs, t);
    }
  }

  /** The balance of a set of classes splits over a subset and the rest. */
  lemma {:induction false} AllocatedToSplit(rows: seq<Allocation>, a: set<LessonId>, b: set<LessonId>, t: SupplyId)
    requires b <= a
    ensures AllocatedTo(rows, a, t) == AllocatedTo(rows, b, t) + AllocatedTo(rows, a - b, t)
  {
    if rows != [] {
      AllocatedToSplit(rows[1..], a, b, t);
    }
  }

  /** Adding one class adds its balance. */
  lemma {:induction false} AllocatedToAdd(rows: seq<Allocation>, c: LessonId, cs: set<LessonId>, t: SupplyId)
    requires c !in cs
    ensures AllocatedTo(rows, cs + {c}, t) == AllocatedTo(rows, cs, t) + Allocated(rows, c, t)
  {
    if rows != [] {
      AllocatedToAdd(rows[1..], c, cs, t);
    }
  }

  lemma DropClassValid(st: DbState, c: LessonId)
    requires Valid(st)
    ensures Valid(DropClass(st, c))
  {
    if c in st.lessons {
      if st.lessons[c].state == Started || st.lessons[c].state == Finished {
        DeleteLessonValid(st, c);
      } else {
        ClassStock.AfterDestroyLessonValid(st, c);
      }
    }
  }

  lemma {:induction false} DropClassesValid(st: DbState, cs: seq<LessonId>)
    requires Valid(st)
    ensures Valid(DropClasses(st, cs))
    decreases |cs|
  {
    if cs != [] {
      DropClassValid(st, cs[0]);
      DropClassesValid(DropClass(st, cs[0]), cs[1..]);
    }
  }

  /** The classes listed in cs. */
  function Listed(cs: seq<LessonId>): set<LessonId> {
    set c | c in cs
  }

  /** Facts about a list of distinct classes split into its head and tail. */
  lemma ListedSplit(cs: seq<LessonId>)
    requires cs != []
    requires forall i, j :: 0 <= i < j < |cs| ==> cs[i] != cs[j]
    ensures cs[0] !in Listed(cs[1..])
    ensures Listed(cs) == Listed(cs[1..]) + {cs[0]}
    ensures forall i, j :: 0 <= i < j < |cs[1..]| ==> cs[1..][i] != cs[1..][j]
  {
    forall j | 0 <= j < |cs| - 1 ensures cs[1..][j] != cs[0] {
      assert cs[1..][j] == cs[j + 1];
    }
  }

  /** Dropping distinct existing classes removes exactly those classes and
      keeps the other classes, the supplies and the subjects. */
  lemma {:induction false} DropClassesFrame(st: DbState, cs: seq<LessonId>)
    requires forall i, j :: 0 <= i < j < |cs| ==> cs[i] != cs[j]
    requires forall c :: c in cs ==> c in st.lessons
    ensures var r := DropClasses(st, cs);
            && r.supplies.Keys == st.supplies.Keys
            && r.lessons.Keys == st.lessons.Keys - Listed(cs)
            && (forall c :: c in r.lessons ==> r.lessons[c] == st.lessons[c])
            && r.subjects.Keys == st.subjects.Keys
    decreases |cs|
  {
    if cs != [] {
      ListedSplit(cs);
      DropClassesFrame(DropClass(st, cs[0]), cs[1..]);
    }
  }

  /** Each supply's stock rises by the balances of the dropped classes that
      had not started. */
  lemma {:induction false} DropClassesStock(st: DbState, cs: seq<LessonId>, t: SupplyId)
    requires forall i, j :: 0 <= i < j < |cs| ==> cs[i] != cs[j]
    requires forall c :: c in cs ==> c in st.lessons
    requires t in st.supplies
    ensures DropClasses(st, cs).supplies.Keys == st.supplies.Keys
    ensures DropClasses(st, cs).supplies[t]
         == st.supplies[t].(total := st.supplies[t].total + AllocatedTo(st.allocations, Refundable(st.lessons, Listed(cs)), t))
    decreases |cs|
  {
    if cs == [] {
      AllocatedToNone(st.allocations, t);
      assert Refundable(st.lessons, Listed(cs)) == {};
    } else {
      var c := cs[0];
      var st1 := DropClass(st, c);
      var rest := Listed(cs[1..]);
      ListedSplit(cs);
      var refundable := st.lessons[c].state != Started && st.lessons[c].state != Finished;
      DropClassStock(st, c, t);
      DropClassesStock(st1, cs[1..], t);
      assert Refundable(st1.lessons, rest) == Refundable(st.lessons, rest);
      assert Refundable(st.lessons, Listed(cs)) == if refundable then Refundable(st.lessons, rest) + {c} else Refundable(st.lessons, rest);
      AllocatedToWithout(st.allocations, c, Refundable(st.lessons, rest), t);
      if refundable {
        AllocatedToAdd(st.allocations, c, Refundable(st.lessons, rest), t);
      }
    }
  }

  /** Deleting one class credits its balance of t when it had not started,
      and takes its rows with it. */
  lemma DropClassStock(st: DbState, c: LessonId, t: SupplyId)
    requires c in st.lessons && t in st.supplies
    ensures var st1 := DropClass(st, c);
            && st1.supplies.Keys == st.supplies.Keys
            && st1.supplies[t] == st.supplies[t].(total := st.supplies[t].total +
                 (if st.lessons[c].state != Started && st.lessons[c].state != Finished then Allocated(st.allocations, c, t) else 0.0))
            && st1.allocations == RowsNotOf(st.allocations, c)
            && st1.lessons == st.lessons - {c}
  {
    if st.lessons[c].state != Started && st.lessons[c].state != Finished {
      ClassStock.CreditRowsSum(st.supplies, st.allocations, c);
    } else {
      assert st.supplies[t] == st.supplies[t].(total := st.supplies[t].total + 0.0);
    }
  }

  /** The earmarked balance of each supply falls by the balances of all
      dropped classes. */
  lemma {:induction false} DropClassesEarmarked(st: DbState, cs: seq<LessonId>, t: SupplyId)
    requires forall i, j :: 0 <= i < j < |cs| ==> cs[i] != cs[j]
    requires forall c :: c in cs ==> c in st.lessons
    ensures Earmarked(DropClasses(st, cs).allocations, t) == Earmarked(st.allocations, t) - AllocatedTo(st.allocations, Listed(cs), t)
    decreases |cs|
  {
    if cs == [] {
      AllocatedToNone(st.allocations, t);
      assert Listed(cs) == {};
    } else {
      var c := cs[0];
      var st1 := DropClass(st, c);
      ListedSplit(cs);
      DropClassesEarmarked(st1, cs[1..], t);
      ClassStock.EarmarkedWithoutLesson(st.allocations, c, t);
      AllocatedToWithout(st.allocations, c, Listed(cs[1..]), t);
      AllocatedToAdd(st.allocations, c, Listed(cs[1..]), t);
    }
  }

  /** `AsignaturaView.destroy`: any signed-in user who can see the subject;
      every class is handled in key order, then the subject row goes. */
  function AfterDestroySubject(st: DbState, caller: User, callerId: UserId, sj: SubjectId): Step {
    if !IsAuthenticated(caller) then Step(Err(Forbidden), st)
    else if sj !in st.subjects || !Visible(st.subjects[sj], caller, callerId) then Step(Err(NotFound), st)
    else
      var st1 := DropClasses(st, ClassesInOrder(st.lessons, sj, st.nextLessonId));
      Step(Ok, st1.(subjects := st1.subjects - {sj}))
  }

  /** The classes the handler walks through are exactly the subject's. */
  lemma ClassesOfSubject(st: DbState, sj: SubjectId)
    requires Valid(st)
    ensures Listed(ClassesInOrder(st.lessons, sj, st.nextLessonId)) == LessonsOf(st.lessons, sj)
  {
    var cs := ClassesInOrder(st.lessons, sj, st.nextLessonId);
    forall c | c in LessonsOf(st.lessons, sj) ensures c in Listed(cs) {
      assert 0 <= c < st.nextLessonId;
    }
  }

  /** Deleting a subject removes it and exactly its classes. Each supply gets
      back the balances of the subject's classes that had not started, while
      the balances of its started and finished classes leave the earmarked
      total without returning to stock. A refused request changes nothing. */
  lemma DestroySubjectEffect(st: DbState, caller: User, callerId: UserId, sj: SubjectId)
    requires Valid(st)
    ensures var r := AfterDestroySubject(st, caller, callerId, sj);
            && (r.out == Ok <==> IsAuthenticated(caller) && sj in st.subjects && Visible(st.subjects[sj], caller, callerId))
            && (r.out != Ok ==> r.st == st)
            && (r.out == Ok ==>
                  var own := LessonsOf(st.lessons, sj);
                  var back := Refundable(st.lessons, own);
                  && r.st.subjects.Keys == st.subjects.Keys - {sj}
                  && r.st.lessons.Keys == st.lessons.Keys - own
                  && r.st.supplies.Keys == st.supplies.Keys
                  && (forall t :: t in st.supplies ==>
                        && r.st.supplies[t].total == st.supplies[t].total + AllocatedTo(st.allocations, back, t)
                        && r.st.supplies[t].total + Earmarked(r.st.allocations, t)
                           == st.supplies[t].total + Earmarked(st.allocations, t) - AllocatedTo(st.allocations, own - back, t)))
  {
    var r := AfterDestroySubject(st, caller, callerId, sj);
    if r.out == Ok {
      var cs := ClassesInOrder(st.lessons, sj, st.nextLessonId);
      var own := LessonsOf(st.lessons, sj);
      ClassesOfSubject(st, sj);
      DropClassesFrame(st, cs);
      forall t | t in st.supplies
        ensures r.st.supplies[t].total == st.supplies[t].total + AllocatedTo(st.allocations, Refundable(st.lessons, own), t)
        ensures r.st.supplies[t].total + Earmarked(r.st.allocations, t)
             == st.supplies[t].total + Earmarked(st.allocations, t) - AllocatedTo(st.allocations, own - Refundable(st.lessons, own), t)
      {
        DropClassesStock(st, cs, t);
        DropClassesEarmarked(st, cs, t);
        AllocatedToSplit(st.allocations, own, Refundable(st.lessons, own), t);
      }
    }
  }

  lemma AfterDestroySubjectValid(st: DbState, caller: User, callerId: UserId, sj: SubjectId)
    requires Valid(st)
    ensures Valid(AfterDestroySubject(st, caller, callerId, sj).st)
  {
    var r := AfterDestroySubject(st, caller, callerId, sj);
    if r.out == Ok {
      var cs := ClassesInOrder(st.lessons, sj, st.nextLessonId);
      var st1 := DropClasses(st, cs);
      DropClassesValid(st, cs);
      DropClassesFrame(st, cs);
      ClassesOfSubject(st, sj);
      forall c | c in st1.lessons ensures st1.lessons[c].subject != sj {
        assert st1.lessons[c] == st.lessons[c];
      }
      forall x | x in r.st.subjects ensures r.st.subjects[x].numClasses == ClassCount(r.st.lessons, x) {
        assert x in st1.subjects;
      }
    }
  }

  /** The handler: each class in turn, with the inner loop over its rows. */
  method DestroySubject(db: Db, caller: User, callerId: UserId, sj: SubjectId) returns (r: Outcome)
    requires Valid(db.tables)
    modifies db
    ensures Step(r, db.tables) == AfterDestroySubject(old(db.tables), caller, callerId, sj)
    ensures Valid(db.tables)
  {
    AfterDestroySubjectValid(db.tables, caller, callerId, sj);
    if !IsAuthenticated(caller) {
      return Err(Forbidden);
    }
    if sj !in db.tables.subjects || !Visible(db.tables.subjects[sj], caller, callerId) {
      return Err(NotFound);
    }
    var cs := ClassesInOrder(db.tables.lessons, sj, db.tables.nextLessonId);
    ghost var st0 := db.tables;
    var i := 0;
    assert cs[i..] == cs;
    while i < |cs|
      invariant 0 <= i <= |cs|
      invariant DropClasses(db.tables, cs[i..]) == DropClasses(st0, cs)
    {
      assert cs[i..][1..] == cs[i + 1..];
      var c := cs[i];
      if c in db.tables.lessons {
        if db.tables.lessons[c].state != Started && db.tables.lessons[c].state != Finished {
          var supplies := ClassStock.CreditLoop(db.tables.supplies, db.tables.allocations, c);
          db.tables := db.tables.(supplies := supplies);
        }
        db.tables := DeleteLesson(db.tables, c);
      }
      i := i + 1;
    }
    assert cs[i..] == [];
    db.tables := db.tables.(subjects := db.tables.subjects - {sj});
    r := Ok;
  }
}
