/** The tables of the subjects application (subjectsApp/models.py) together
    with the supply table they point to, as one database value (`DbState`)
    and as the mutable database the handlers update (`Db`).

    Quantities are exact reals (DecimalField with two places). Tables whose
    row order the handlers observe are sequences in primary-key order; the
    tables the handlers address by primary key are maps. */
module Model {

  type UserId = int
  type SupplyId = int
  type SubjectId = int
  type LessonId = int
  type RequestId = int

  datatype Option<T> = None | Some(value: T) {
    function GetOr(default: T): T {
      if Some? then value else default
    }
  }

  /** `Clase.ESTADOS`: pendiente, asignada, iniciada, finalizada. */
  datatype LessonState = Pending | Assigned | Started | Finished

  function LessonStateCode(s: LessonState): string {
    match s
    case Pending => "pendiente"
    case Assigned => "asignada"
    case Started => "iniciada"
    case Finished => "finalizada"
  }

  /** The stored string back to the state; any other string is no state. */
  function ParseLessonState(code: string): Option<LessonState> {
    if code == "pendiente" then Some(Pending)
    else if code == "asignada" then Some(Assigned)
    else if code == "iniciada" then Some(Started)
    else if code == "finalizada" then Some(Finished)
    else None
  }

  /** Every state has exactly one code, and parsing accepts exactly the codes. */
  lemma LessonStateCodes(s: LessonState, code: string)
    ensures ParseLessonState(LessonStateCode(s)) == Some(s)
    ensures ParseLessonState(code) == Some(s) <==> code == LessonStateCode(s)
  {
  }

  /** `SolicitudInsumo.ESTADOS`: pendiente, pendiente_admin, aprobado, rechazado. */
  datatype RequestState = AwaitingTeacher | AwaitingAdmin | Approved | Rejected

  function RequestStateCode(s: RequestState): string {
    match s
    case AwaitingTeacher => "pendiente"
    case AwaitingAdmin => "pendiente_admin"
    case Approved => "aprobado"
    case Rejected => "rechazado"
  }

  function ParseRequestState(code: string): Option<RequestState> {
    if code == "pendiente" then Some(AwaitingTeacher)
    else if code == "pendiente_admin" then Some(AwaitingAdmin)
    else if code == "aprobado" then Some(Approved)
    else if code == "rechazado" then Some(Rejected)
    else None
  }

  lemma RequestStateCodes(s: RequestState, code: string)
    ensures ParseRequestState(RequestStateCode(s)) == Some(s)
    ensures ParseRequestState(code) == Some(s) <==> code == RequestStateCode(s)
  {
  }

  /** An `Insumo`: name and general stock `cantidad_total`. */
  datatype Supply = Supply(name: string, total: real)

  /** An `Asignatura`: `numero_clases`, its teacher and its enrolled students. */
  datatype Subject = Subject(name: string, numClasses: int, teacher: UserId, students: set<UserId>)

  /** A `Clase`: `estado` and the `insumos_asignados` flag. */
  datatype Lesson = Lesson(subject: SubjectId, teacher: UserId, name: string,
                           state: LessonState, suppliesAssigned: bool)

  /** A new class row: state and flag take their column defaults. */
  function NewLesson(subject: SubjectId, teacher: UserId, name: string): (l: Lesson)
    ensures l.state == Pending && !l.suppliesAssigned
    ensures l.subject == subject && l.teacher == teacher && l.name == name
  {
    Lesson(subject, teacher, name, Pending, false)
  }

  /** A `ClaseInsumo` row: the balance of a supply earmarked to a class. */
  datatype Allocation = Allocation(lesson: LessonId, supply: SupplyId, qty: real)

  /** The `unique_together` key of `ClaseDistribucion`. */
  datatype ShareKey = ShareKey(lesson: LessonId, student: UserId, supply: SupplyId)

  /** A `ClaseDistribucion` row: base share and extraordinary share. */
  datatype Share = Share(key: ShareKey, baseQty: real, extra: real)

  /** A `ClaseParticipacion` row. */
  datatype Participation = Participation(lesson: LessonId, student: UserId)

  /** A `SolicitudInsumo` row. `approved` (`cantidad_aprobada`) and `reason`
      (`motivo_rechazo`) are nullable. */
  datatype SupplyRequest = SupplyRequest(id: RequestId, student: UserId, lesson: LessonId,
                                         supply: SupplyId, requested: real, approved: Option<real>,
                                         state: RequestState, isExtra: bool, reason: Option<string>)

  /** A `ClaseInsumoHistorial` row. */
  datatype SupplyHistoryRow = SupplyHistoryRow(lesson: LessonId, supply: SupplyId, totalAssigned: real,
                                               used: real, returned: real, extraAssigned: real)

  /** A `ClaseAlumnoInsumoHistorial` row. */
  datatype StudentHistoryRow = StudentHistoryRow(lesson: LessonId, student: UserId, supply: SupplyId,
                                                 baseQty: real, extra: real)

  /** The whole database as a value. `notifications` records the recipient of
      each `Notificacion` in creation order; `roles` is the `rol` column of
      the user table; the `next…` fields are the primary-key sequences. */
  datatype DbState = DbState(
    supplies: map<SupplyId, Supply>,
    subjects: map<SubjectId, Subject>,
    lessons: map<LessonId, Lesson>,
    allocations: seq<Allocation>,
    shares: seq<Share>,
    participations: seq<Participation>,
    requests: seq<SupplyRequest>,
    supplyHistory: seq<SupplyHistoryRow>,
    studentHistory: seq<StudentHistoryRow>,
    notifications: seq<UserId>,
    roles: map<UserId, string>,
    nextSubjectId: int,
    nextLessonId: int,
    nextRequestId: int)

  /** The classes of a subject, and their number (what the class signals store
      in `numero_clases`). */
  function LessonsOf(lessons: map<LessonId, Lesson>, sj: SubjectId): set<LessonId> {
    set c | c in lessons && lessons[c].subject == sj
  }

  function ClassCount(lessons: map<LessonId, Lesson>, sj: SubjectId): nat {
    |LessonsOf(lessons, sj)|
  }

  // ----- Integrity of the tables (foreign keys, unique_together, non-negative columns) -----

  predicate StockNonNegative(supplies: map<SupplyId, Supply>) {
    forall s :: s in supplies ==> supplies[s].total >= 0.0
  }

  predicate LessonsLinked(lessons: map<LessonId, Lesson>, subjectIds: set<SubjectId>, nextLessonId: int) {
    forall c :: c in lessons ==> lessons[c].subject in subjectIds && 0 <= c < nextLessonId
  }

  predicate CountsCurrent(subjects: map<SubjectId, Subject>, lessons: map<LessonId, Lesson>, nextSubjectId: int) {
    forall sj :: sj in subjects ==> 0 <= sj < nextSubjectId && subjects[sj].numClasses == ClassCount(lessons, sj)
  }

  predicate AllocationOk(a: Allocation, lessonIds: set<LessonId>, supplyIds: set<SupplyId>) {
    a.lesson in lessonIds && a.supply in supplyIds && a.qty >= 0.0
  }

  predicate AllocationsOk(rows: seq<Allocation>, lessonIds: set<LessonId>, supplyIds: set<SupplyId>) {
    forall a :: a in rows ==> AllocationOk(a, lessonIds, supplyIds)
  }

  predicate ShareOk(d: Share, lessonIds: set<LessonId>, supplyIds: set<SupplyId>) {
    d.key.lesson in lessonIds && d.key.supply in supplyIds && d.baseQty >= 0.0 && d.extra >= 0.0
  }

  /** `ClaseDistribucion.Meta.unique_together = ('clase', 'alumno', 'insumo')`. */
  predicate UniqueShareKeys(d: seq<Share>) {
    forall i, j :: 0 <= i < j < |d| ==> d[i].key != d[j].key
  }

  predicate SharesOk(d: seq<Share>, lessonIds: set<LessonId>, supplyIds: set<SupplyId>) {
    (forall x :: x in d ==> ShareOk(x, lessonIds, supplyIds)) && UniqueShareKeys(d)
  }

  /** `ClaseParticipacion.Meta.unique_together = ('clase', 'alumno')`. */
  predicate UniqueParticipations(p: seq<Participation>) {
    forall i, j :: 0 <= i < j < |p| ==> p[i] != p[j]
  }

  predicate ParticipationsOk(p: seq<Participation>, lessonIds: set<LessonId>) {
    (forall x :: x in p ==> x.lesson in lessonIds) && UniqueParticipations(p)
  }

  predicate RequestOk(r: SupplyRequest, lessonIds: set<LessonId>, supplyIds: set<SupplyId>, nextId: int) {
    r.lesson in lessonIds && r.supply in supplyIds && r.requested > 0.0 && 0 <= r.id < nextId
  }

  predicate UniqueRequestIds(r: seq<SupplyRequest>) {
    forall i, j :: 0 <= i < j < |r| ==> r[i].id != r[j].id
  }

  predicate RequestsOk(r: seq<SupplyRequest>, lessonIds: set<LessonId>, supplyIds: set<SupplyId>, nextId: int) {
    (forall x :: x in r ==> RequestOk(x, lessonIds, supplyIds, nextId)) && UniqueRequestIds(r)
  }

  /** The database invariant every handler keeps. */
  predicate Valid(st: DbState) {
    && 0 <= st.nextSubjectId && 0 <= st.nextLessonId && 0 <= st.nextRequestId
    && StockNonNegative(st.supplies)
    && LessonsLinked(st.lessons, st.subjects.Keys, st.nextLessonId)
    && CountsCurrent(st.subjects, st.lessons, st.nextSubjectId)
    && AllocationsOk(st.allocations, st.lessons.Keys, st.supplies.Keys)
    && SharesOk(st.shares, st.lessons.Keys, st.supplies.Keys)
    && ParticipationsOk(st.participations, st.lessons.Keys)
    && RequestsOk(st.requests, st.lessons.Keys, st.supplies.Keys, st.nextRequestId)
  }

  /** More classes never invalidate the rows that point at classes. */
  lemma RowsOkWider(st: DbState, lessonIds: set<LessonId>)
    requires Valid(st)
    requires st.lessons.Keys <= lessonIds
    ensures AllocationsOk(st.allocations, lessonIds, st.supplies.Keys)
    ensures SharesOk(st.shares, lessonIds, st.supplies.Keys)
    ensures ParticipationsOk(st.participations, lessonIds)
    ensures RequestsOk(st.requests, lessonIds, st.supplies.Keys, st.nextRequestId)
  {
  }

  /** What a handler answers: success, the "already participating" success of
      `participar`, or one of the error responses. */
  datatype Failure =
    | NotFound           // get_object / DoesNotExist: 404
    | Forbidden          // a permission class or a role check: 403
    | MissingInput       // a required request field is absent: 400
    | ItemsRejected      // asignar_insumos: some pairs failed: 400
    | InvalidState       // the class state forbids the operation: 400
    | InvalidQuantity    // quitar_insumos: quantity <= 0 or above the balance: 400
    | InvalidTransition  // cambiar_estado: transition not allowed: 400
    | InsufficientStock  // gestionar_solicitud: general stock below the request: 400
    | InvalidAction      // gestionar_solicitud: neither 'aprobar' nor 'rechazar': 400
    | SupplyInUse        // insumosApp: the supply is allocated to a started class: 400
    | InvalidInput       // serializer validation of the request body: 400
    | ServerError        // an exception caught by the handler or raised past it: 400/500

  datatype Outcome = Ok | AlreadyParticipating | Err(failure: Failure)

  /** A handler's response together with the database it leaves behind. */
  datatype Step = Step(out: Outcome, st: DbState)

  /** The database the handlers work on. Every handler reads and rewrites
      the tables through this one mutable object; `tables` is its content. */
  class Db {
    var tables: DbState

    constructor (st: DbState)
      ensures tables == st
    {
      tables := st;
    }
  }
}
