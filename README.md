# Course supplies — a Dafny model

The system is a Django REST back end for a course-supply store. It has these parts:

- **Subjects** (`Asignatura`) have a teacher, enrolled students and a number of classes.
- **Classes** (`Clase`) move through the states 'pendiente', 'asignada', 'iniciada' and 'finalizada'.
- **Supplies** (`Insumo`) have a general stock.

A class is supplied from the general stock: each `ClaseInsumo` row holds the balance of one supply earmarked to one class. When the class starts, that balance is shared out among the participating students as `ClaseDistribucion` rows. A student can ask for more (`SolicitudInsumo`). The teacher passes that request on and the administrator approves it out of the general stock. When the class finishes, what was not handed out goes back to stock and the shares are copied to history tables.

This project models those handlers on one database value:

- the subject, class and request handlers of `subjectsApp/views.py`
- the class signals and `unique_together` constraints of `subjectsApp/models.py`
- the two guards of `InsumoView` in `insumosApp/views.py`
- the role predicates of `userApp/permissions.py`

Each handler `X` is modelled in two parts:

- **`AfterX`** is a function from the database value (`Model.DbState`) and the request to a `Step`, which is the response together with the database afterwards.
- **`X`** is a method on `Model.Db`, the mutable database. It carries the handler's own loops and is proved to leave `db.tables == AfterX(old(db.tables), …).st` and to keep the integrity invariant `Model.Valid`. That invariant covers:
  - foreign keys
  - `unique_together`
  - non-negative stock
  - `numero_clases` equal to the class count

The lemmas beside each `AfterX` state what the handler promises:

- stock conservation
- the request state machine
- refusals that change nothing
- the exact effect of each success

Behaviours of the code that the lemmas pin down:

- A partial `asignar_insumos` stays committed.
- A pair with duplicate rows loses stock.
- Finishing through `cambiar_estado` strands the balance while the class stays 'finalizada'; a later accepted `asignar_insumos` revives it.
- A late participant of a class whose subject has no students is refused: the division raises and the participation is rolled back.
- Approval ignores the class's state.
- The second supply-delete view, which no mounted URL configuration routes to, has no in-use guard.

Modules:

- `decimal.dfy`: two-place rounding (`round(x, 2)`, half-even).
- `permissions.dfy`: the role predicates.
- `model.dfy`: tables, states, the invariant and the database class.
- `queries.dfy`: ORM filters and sums.
- `cascades.dfy`: class creation and deletion with their signals.
- `class_stock.dfy`: `asignar_insumos`, `quitar_insumos`, `insumos_asignados` and the class `destroy`.
- `distribution.dfy`: `distribuir_insumos` and `participar`.
- `lifecycle.dfy`: `cambiar_estado` and `finalizar_clase`.
- `requests.dfy`: `solicitar_insumo` and `gestionar_solicitud`.
- `subjects.dfy`: subject creation with `crear_clases`, and subject deletion.
- `supplies.dfy`: supply update and deletion.

## Model

| member | source | states |
|---|---|---|
| Decimal.Max0 | subjectsApp/views.py:70 | the clamped remainder is never negative, never below the exact one, and is either the exact value or zero |
| Decimal.Round2Error | subjectsApp/views.py:59 | `round(x, 2)` is within half a hundredth of x |
| Decimal.Round2IsCents | subjectsApp/views.py:59 | the rounded share always fits a two-place column |
| Decimal.Round2OfCents | subjectsApp/views.py:59 | a value already in hundredths is left unchanged |
| Decimal.Round2Idempotent | subjectsApp/views.py:62 | rounding twice equals rounding once |
| Decimal.Round2NonNegative | subjectsApp/views.py:59 | a non-negative share never rounds below zero |
| Decimal.Round2Monotonic | subjectsApp/views.py:59 | rounding preserves order, so larger balances never yield smaller shares |
| Decimal.Round2TiesToEven | subjectsApp/views.py:59 | a value exactly halfway between two hundredths rounds to the even one: down by half a hundredth when the lower neighbour is even, up otherwise, as Decimal's default context does |
| Permissions.RolesExclusive | userApp/permissions.py:3-14 | an anonymous user passes none of them, and no user passes two |
| Permissions.ProfesorOrAdminDeniesAdmin | userApp/permissions.py:16-24 | IsProfesorOrAdmin admits exactly teachers and students, and never an administrator, contrary to its name |
| Model.LessonStateCodes | subjectsApp/models.py:33-38 | each class state has one stored code, and parsing accepts exactly those codes |
| Model.RequestStateCodes | subjectsApp/models.py:119-124 | each request state has one stored code, and parsing accepts exactly those codes |
| Cascades.CountAfterRemove | subjectsApp/models.py:175-179 | deleting a class lowers its own subject's class count by one and leaves every other count alone |
| Cascades.CountAfterInsert | subjectsApp/models.py:167-171 | adding a class raises its own subject's class count by one and leaves every other count alone |
| Cascades.CountAfterSave | subjectsApp/models.py:167-171 | re-saving a class in the same subject changes no count |
| Cascades.SaveLessonValid | subjectsApp/models.py:167-171 | saving a class keeps the database invariant, `numero_clases` included |
| Cascades.SharesNotOfUnique | subjectsApp/models.py:67-68 | deleting a class's shares keeps the (clase, alumno, insumo) key unique |
| Cascades.ParticipationsNotOfUnique | subjectsApp/models.py:83-84 | deleting a class's participations keeps the (clase, alumno) key unique |
| Cascades.RequestsNotOfUnique | subjectsApp/models.py:118-132 | deleting a class's requests keeps request ids unique |
| Cascades.InsertLesson | subjectsApp/models.py:167-171 | a created class takes the next key, the key sequence advances, and no subject is added or removed |
| Cascades.InsertLessonTally | subjectsApp/models.py:167-171 | a created class raises its own subject's class count by one and no other |
| Cascades.InsertLessonLinked | subjectsApp/models.py:167-171 | a class created for an existing subject keeps every class linked to a subject, under a key below the counter |
| Cascades.DeleteLesson | subjectsApp/models.py:175-179 | the class goes and every other class is kept unchanged; a row of the allocations, shares, participations, requests and both history tables survives if and only if it does not point at the class; the stock, subjects' keys, users, notifications and key sequences are untouched |
| Cascades.DeleteLessonValid | subjectsApp/models.py:175-179 | deleting a class keeps the invariant, and its subject's `numero_clases` equals the new count |
| ClassStock.AssignOne | subjectsApp/views.py:353-388 | one entry changes only the stock and allocation tables, and a failed entry adds no allocation |
| ClassStock.AfterAssignValid | subjectsApp/views.py:341-396 | `asignar_insumos` keeps the invariant whatever the outcome |
| ClassStock.AssignOneMoves | subjectsApp/views.py:358-381 | a valid entry moves exactly q from the supply's stock to the class's balance, and no other supply or pair moves |
| ClassStock.AssignOneRejects | subjectsApp/views.py:358-385 | a malformed entry, an unknown supply or too little stock fails the entry with no change |
| ClassStock.AssignOneLosesStockOnDuplicateRows | subjectsApp/views.py:368-387 | with two rows for the pair, the entry fails but its quantity has already left the stock and is earmarked nowhere |
| ClassStock.AssignOutcome | subjectsApp/views.py:341-396 | the class becomes 'asignada' with its flag set if and only if no entry failed; otherwise the class is untouched and the answer is an error |
| ClassStock.AssignPartialCommit | subjectsApp/views.py:341-396 | a good entry followed by a bad one answers with an error, yet the good transfer stays committed |
| ClassStock.AssignRefusals | subjectsApp/views.py:345-349 | an unknown class or an empty list is refused with no change |
| ClassStock.AssignSupplies | subjectsApp/views.py:341-396 | the handler's loop leaves exactly the database `AfterAssign` specifies, and keeps the invariant |
| ClassStock.WithdrawRows | subjectsApp/views.py:482-497 | the countdown never drives a row to zero or below; every surviving row is untouched or a smaller row of the pair |
| ClassStock.WithdrawNothing | subjectsApp/views.py:482-497 | with nothing left to withdraw, the rows are unchanged |
| ClassStock.WithdrawExact | subjectsApp/views.py:482-497 | the countdown takes exactly the requested amount from the pair and nothing from any other pair |
| ClassStock.AfterUnassignValid | subjectsApp/views.py:452-511 | `quitar_insumos` keeps the invariant |
| ClassStock.UnassignRefusals | subjectsApp/views.py:466-480 | a started or finished class, a non-positive quantity, or more than the balance is refused with the matching error and no change |
| ClassStock.UnassignMovesExactly | subjectsApp/views.py:452-511 | on success the pair's balance falls by q and the stock rises by q, other pairs and supplies are untouched, and stock plus earmarked balance is conserved |
| ClassStock.UnassignSupply | subjectsApp/views.py:452-511 | the handler's countdown loop leaves exactly the database `AfterUnassign` specifies |
| ClassStock.SummaryMeaning | subjectsApp/views.py:403-445 | one summary line per row of the class, in order; each line shows the row's supply and balance, the supply's base shares rounded to two places, and the balance minus those shares floored at zero and rounded; neither figure is negative, and they add up to the balance within a cent when no more than the balance was handed out |
| ClassStock.LineMeaning | subjectsApp/views.py:420-441 | the line built for one row carries those figures, and they are non-negative and within a cent of the balance |
| ClassStock.SharesNonNegative | subjectsApp/views.py:420-427 | the sum of base shares handed out is not negative |
| ClassStock.SummarizeAllocations | subjectsApp/views.py:403-445 | a missing class is not found; otherwise the loop returns exactly the specified summary, and nothing changes |
| ClassStock.CreditRows | subjectsApp/views.py:588-593 | crediting the rows keeps the set of supplies |
| ClassStock.CreditRowsSum | subjectsApp/views.py:588-593 | crediting row by row adds to each supply exactly the class's total balance of it |
| ClassStock.EarmarkedWithoutLesson | subjectsApp/views.py:574-598 | removing a class's rows lowers each supply's earmarked total by exactly that class's balance |
| ClassStock.AfterDestroyLessonValid | subjectsApp/views.py:574-598 | deleting a class keeps the invariant |
| ClassStock.DestroyLessonReturnsStock | subjectsApp/views.py:574-598 | a started or finished class is refused with no change; otherwise the class goes, each supply gets back exactly the class's balance, and stock plus earmarked is conserved |
| ClassStock.CreditLoop | subjectsApp/views.py:588-593 | the loop credits exactly what `CreditRows` specifies |
| ClassStock.DestroyLesson | subjectsApp/views.py:574-598 | the handler leaves exactly the database `AfterDestroyLesson` specifies |
| Distribution.SetBaseEffect | subjectsApp/views.py:55-63 | `get_or_create` and overwrite give the key the new base share with its previous extra, change no other key, and keep keys unique |
| Distribution.ShareAmongEffect | subjectsApp/views.py:53-63 | after the inner loop every participant holds exactly the base share of the supply with their extra kept, and other keys are unchanged |
| Distribution.ShareAmongOk | subjectsApp/views.py:53-63 | the inner loop keeps the share invariant |
| Distribution.DistributeRows | subjectsApp/views.py:41-71 | each row of the class falls to what the unrounded shares leave, clamped at zero; other rows are untouched; no row is added or removed |
| Distribution.DistributeShares | subjectsApp/views.py:41-71 | for a supply held in one row, every participant's base share is Round2(balance / enrolled) with the extra kept, and keys outside the class, participants and supplies keep their share |
| Distribution.DistributeOk | subjectsApp/views.py:41-71 | the loop over the rows keeps the share invariant |
| Distribution.DistributedValid | subjectsApp/views.py:20-71 | `distribuir_insumos` keeps the invariant |
| Distribution.DistributeNoOp | subjectsApp/views.py:29-46 | no rows, no participants or no enrolled students: nothing changes |
| Distribution.RemainderMeaning | subjectsApp/views.py:65-70 | with no more participants than enrolled students the row keeps its balance minus the shares; with more, the row is clamped to zero although the shares exceed the balance |
| Distribution.ShareOut | subjectsApp/views.py:53-63 | the inner loop produces exactly the specified shares |
| Distribution.DistributeLoop | subjectsApp/views.py:41-71 | the outer loop produces exactly the specified rows and shares |
| Distribution.DistributeSupplies | subjectsApp/views.py:20-71 | the procedure leaves exactly the `Distributed` database, and keeps the invariant |
| Distribution.JoinSharesGrows | subjectsApp/views.py:543-562 | a late participant's loop only appends shares, keeping every existing share in place and keys unique |
| Distribution.AppendShareOthers | subjectsApp/views.py:553-559 | appending a share under a new key keeps keys unique and changes no other key's share |
| Distribution.JoinSharesKeeps | subjectsApp/views.py:543-562 | that loop changes no key except the student's keys in the class for supplies the class holds and that had no share yet |
| Distribution.JoinSharesCreates | subjectsApp/views.py:543-562 | a share created for a late participant holds the first row's balance divided by the enrolment, with no extra |
| Distribution.JoinSharesOk | subjectsApp/views.py:543-562 | that loop keeps the share invariant |
| Distribution.AfterParticipateValid | subjectsApp/views.py:514-569 | `participar` keeps the invariant |
| Distribution.ParticipateRefusals | subjectsApp/views.py:531-540 | a class not 'iniciada' is refused, and a repeated registration is reported with no change |
| Distribution.ParticipateOnlyStudents | subjectsApp/views.py:519-533 | a successful registration is of a student (the caller, or the named user of role '3') in a started class |
| Distribution.ParticipateEffect | subjectsApp/views.py:535-564 | a first registration records the participation and gives the student a share of every supply the class holds, leaving balances, existing shares and other students alone |
| Distribution.ParticipateShareAmount | subjectsApp/views.py:546-562 | the late participant's share is the unrounded balance divided by the enrolment |
| Distribution.ParticipateDivisionByZero | subjectsApp/views.py:546-569 | a class with rows in a subject with no students makes the division raise; the handler answers with the caught exception and the participation is rolled back |
| Distribution.JoinLoop | subjectsApp/views.py:543-562 | the loop produces exactly the specified shares |
| Distribution.Participate | subjectsApp/views.py:514-569 | the handler leaves exactly the database `AfterParticipate` specifies |
| Lifecycle.AfterChangeStateValid | subjectsApp/views.py:310-336 | `cambiar_estado` keeps the invariant |
| Lifecycle.ChangeStateTransitions | subjectsApp/views.py:318-336 | success if and only if 'asignada' to 'iniciada' or 'iniciada' to 'finalizada'; the class then holds the requested state, and otherwise nothing changes |
| Lifecycle.StartDistributes | subjectsApp/views.py:322-331 | starting a class runs the distribution on the class already marked 'iniciada' |
| Lifecycle.FinishShortcutStrandsBalance | subjectsApp/views.py:322-324 | finishing through `cambiar_estado` changes only the state, after which withdrawal, deletion and `finalizar_clase` all refuse the class, so its balance stays earmarked while it stays 'finalizada' |
| Lifecycle.FinishedClassRevives | subjectsApp/views.py:341-394 | on a class finished through `cambiar_estado`, one accepted `asignar_insumos` entry succeeds and sets the class back to 'asignada', after which `quitar_insumos` accepts any withdrawal of the balance the class held |
| Lifecycle.ChangeState | subjectsApp/views.py:310-336 | the handler leaves exactly the database `AfterChangeState` specifies |
| Lifecycle.SnapshotExact | subjectsApp/views.py:646-655 | the student history holds exactly the class's shares, figure for figure |
| Lifecycle.SupplyRecordsMeaning | subjectsApp/views.py:657-682 | each supply history row mirrors a row of the class: used is the base shares handed out, returned is the rest when not negative, and every row is recorded |
| Lifecycle.Settle | subjectsApp/views.py:657-690 | settling keeps the set of supplies |
| Lifecycle.SettleEffect | subjectsApp/views.py:657-690 | settling never lowers stock, leaves a supply the class does not hold alone, and returns exactly the unused part of a single row |
| Lifecycle.SettleUntouched | subjectsApp/views.py:657-690 | a supply without rows in the class is untouched and has no balance there |
| Lifecycle.RejectPending | subjectsApp/views.py:695-706 | only the class's requests waiting for the teacher become rejected with the closing reason; all others are kept |
| Lifecycle.PendingStudents | subjectsApp/views.py:695-706 | the recipients of the closing notifications never outnumber the requests |
| Lifecycle.PendingStudentsExact | subjectsApp/views.py:695-706 | the notified students are exactly those of the class's requests waiting for the teacher |
| Lifecycle.PendingPositions | subjectsApp/views.py:695-698 | lists every request of the class waiting for the teacher exactly once, in increasing order, and nothing else |
| Lifecycle.PendingStudentsPositions | subjectsApp/views.py:695-706 | one notification per such request, in request order: the k-th recipient is the student of the k-th request waiting for the teacher |
| Lifecycle.AfterFinishValid | subjectsApp/views.py:627-717 | `finalizar_clase` keeps the invariant |
| Lifecycle.FinishRefusals | subjectsApp/views.py:633-639 | a non-teacher, a missing class or a class not 'iniciada' is refused with no change |
| Lifecycle.FinishClearsClass | subjectsApp/views.py:627-717 | afterwards no allocation or share of the class remains, other classes keep theirs, the class's balance of every supply is zero, and the class is 'finalizada' |
| Lifecycle.NoRowsNoBalance | subjectsApp/views.py:690-693 | a class without rows holds no balance |
| Lifecycle.FinishReturnsUnused | subjectsApp/views.py:657-690 | no supply loses stock; a supply held in one row gets back its balance minus the base shares, or nothing if they took it all |
| Lifecycle.FinishClosesTeacherRequestsOnly | subjectsApp/views.py:695-706 | requests waiting for the teacher are rejected with the closing reason; exactly one notification is appended per such request, to its student, in request order; requests waiting for the administrator and requests of other classes are untouched |
| Lifecycle.SettleLoop | subjectsApp/views.py:657-690 | the loop produces exactly the specified stock and supply history |
| Lifecycle.RejectLoop | subjectsApp/views.py:695-706 | the loop produces exactly the specified requests and notifications |
| Lifecycle.Finish | subjectsApp/views.py:627-717 | the handler leaves exactly the database `AfterFinish` specifies |
| Requests.LookupName | subjectsApp/views.py:812 | `get(nombre=…)` finds no row, one row, or several rows, according to how many supplies carry the name |
| Requests.RequestOneEffect | subjectsApp/views.py:807-842 | an entry creates a request if and only if the name is unique, the quantity is positive and within the student's base share; the request is admissible and takes the next key; otherwise nothing changes, and only an ambiguous name aborts |
| Requests.RequestOneAppends | subjectsApp/views.py:807-842 | one entry leaves the database alone or appends one admissible request under the next key |
| Requests.RequestFromFrame | subjectsApp/views.py:807-845 | only the request table and its key sequence change, with one answer per entry unless the loop aborted |
| Requests.RequestFromAppends | subjectsApp/views.py:807-845 | the loop only appends admissible requests, under consecutive fresh keys |
| Requests.RequestCapIsPerRequest | subjectsApp/views.py:819-831 | two entries for the same supply within the share both create requests, together asking twice the quantity |
| Requests.RequestAbortKeepsEarlier | subjectsApp/views.py:807-845 | an ambiguous name answers with a server error, but the earlier entries' requests stay |
| Requests.AfterRequestValid | subjectsApp/views.py:793-845 | `solicitar_insumo` keeps the invariant |
| Requests.RequestLoop | subjectsApp/views.py:807-843 | the loop leaves exactly the database, answers and abort flag that `RequestFrom` specifies |
| Requests.Request | subjectsApp/views.py:793-845 | the handler leaves exactly the database `AfterRequest` specifies |
| Requests.TeacherShape | subjectsApp/views.py:885-906 | a teacher changes only the addressed request, under the same key, and only from 'pendiente' to 'pendiente_admin' or 'rechazado' |
| Requests.AdminShape | subjectsApp/views.py:907-954 | an administrator changes only the addressed request, under the same key, and only from 'pendiente_admin' to 'aprobado' or 'rechazado' |
| Requests.ManageShape | subjectsApp/views.py:875-956 | a call that changes the requests replaces the addressed one by a successor state owned by the caller's role |
| Requests.UpdateOneRequest | subjectsApp/views.py:875-956 | replacing one request along the state machine leaves every other request as it was |
| Requests.ManageFollowsStateMachine | subjectsApp/views.py:875-961 | one call changes at most the addressed request, along the state machine and only by the role owning its state; every other request is untouched |
| Requests.SettledRequestsAreFinal | subjectsApp/views.py:886-906 | approved and rejected requests refuse every call with no change |
| Requests.ManageRefusalsChangeNothing | subjectsApp/views.py:874-956 | a call not signed in, by a role that does not own the request's state, by a role other than teacher or administrator, or with an action other than 'aprobar' or 'rechazar' is refused (forbidden or invalid action, as the source answers) and changes nothing |
| Requests.ManageUnknownRequest | subjectsApp/views.py:880-959 | a call on a request that does not exist is answered not found and changes nothing |
| Requests.AdminApproval | subjectsApp/views.py:905-941 | with enough stock the requested quantity moves from stock to the student's extra share (created empty if missing, base unchanged), the request is 'aprobado' and notified, and `cantidad_aprobada` stays unset; every other request, supply, class, subject, allocation and participation is unchanged; otherwise nothing changes |
| Requests.AddExtraEffect | subjectsApp/views.py:923-930 | the key's extra grows by q with its base kept, or a new share holding only q is appended; other keys are unchanged and keys stay unique |
| Requests.ApprovalIgnoresClassState | subjectsApp/views.py:905-941 | a request waiting for the administrator is approved whatever the state of its class, finished included |
| Requests.RejectionReason | subjectsApp/views.py:893-954 | rejection by the role owning the state stores the given reason or "Sin motivo proporcionado." and notifies the student |
| Requests.RequestsOkRestate | subjectsApp/views.py:889-948 | a new state and reason for one request keep the request rows valid |
| Requests.ValidRestate | subjectsApp/views.py:889-948 | so do a new state, a new reason and added notifications for the whole database |
| Requests.TeacherDecidesValid | subjectsApp/views.py:885-906 | the teacher's branch keeps the invariant |
| Requests.AdminDecidesValid | subjectsApp/views.py:907-954 | the administrator's branch, stock deduction and extra share included, keeps the invariant |
| Requests.AfterManageValid | subjectsApp/views.py:875-961 | `gestionar_solicitud` keeps the invariant |
| Requests.Manage | subjectsApp/views.py:875-961 | the handler leaves exactly the database `AfterManage` specifies |
| Subjects.NatToStringLength | subjectsApp/models.py:163 | a numeral has at least one digit, and exactly one for numbers below ten |
| Subjects.NatToStringInjective | subjectsApp/models.py:163 | distinct numbers have distinct numerals |
| Subjects.ClassNames | subjectsApp/models.py:163 | class names are pairwise distinct, and the first is "Clase 1" |
| Subjects.NewIds | subjectsApp/models.py:159-164 | the created classes take exactly the next k keys |
| Subjects.NewIdsCount | subjectsApp/models.py:159-164 | there are exactly k such keys |
| Subjects.CreateClassesFrame | subjectsApp/models.py:156-164 | `crear_clases` touches only the classes, the subjects' counts and the key sequence |
| Subjects.CreateClassesKeys | subjectsApp/models.py:156-164 | `crear_clases` adds exactly the next k class keys and keeps every existing class |
| Subjects.CreateClassesLessons | subjectsApp/models.py:156-164 | the classes from the first new key on are "Clase 1", "Clase 2", … in key order, of the subject and its teacher |
| Subjects.CreateClassesFresh | subjectsApp/models.py:156-164 | every class key stays below the key counter |
| Subjects.CreateClassesTally | subjectsApp/models.py:156-171 | the subject's class count rises by k and every other subject's count stays |
| Subjects.CreateClassesCounts | subjectsApp/models.py:156-171 | after at least one class the subject's `numero_clases` is its class count; other subjects are unchanged |
| Subjects.CreateClassesLinked | subjectsApp/models.py:156-164 | every class still belongs to an existing subject, under a key below the counter |
| Subjects.CreateSubjectClasses | subjectsApp/views.py:144-154 | both paths of `perform_create` end with max(n, 1) classes named by `crear_clases` |
| Subjects.CreateSubjectEffect | subjectsApp/views.py:144-154 | success if and only if the caller is signed in and the body is valid; the subject takes the next key with `numero_clases` max(n, 1); only subjects, classes and key sequences change; a refusal changes nothing |
| Subjects.CreateSubjectLessons | subjectsApp/views.py:144-154 | the new subject's classes are exactly max(n, 1) classes under the next keys |
| Subjects.CreatedLessons | subjectsApp/views.py:144-154 | the registered subject followed by its classes: exactly max(n, 1) classes of the subject, under the next keys |
| Subjects.LessonsOfGrown | subjectsApp/models.py:156-164 | classes of one subject added under fresh keys to a table where it had none are exactly that subject's classes |
| Subjects.CreateSubjectNames | subjectsApp/views.py:144-154 | the new classes are "Clase 1" onwards in key order, pending and taught by the subject's teacher; existing classes are kept |
| Subjects.CreatedNames | subjectsApp/models.py:156-164 | the created classes are named in key order and existing classes are kept |
| Subjects.CreatedSubjectLinked | subjectsApp/views.py:144-154 | after creation every class belongs to an existing subject |
| Subjects.CreatedSubjectCounts | subjectsApp/views.py:144-154 | after creation every subject's `numero_clases` is its class count |
| Subjects.CreatedSubjectValid | subjectsApp/views.py:144-154 | the registered subject with its classes keeps the invariant |
| Subjects.AfterCreateSubjectValid | subjectsApp/views.py:144-154 | subject creation keeps the invariant |
| Subjects.CreateSubject | subjectsApp/views.py:144-154 | the handler with the `crear_clases` loop leaves exactly the database `AfterCreateSubject` specifies |
| Subjects.ClassesInOrder | subjectsApp/views.py:179 | the class list is exactly the subject's classes, in strictly increasing key order |
| Subjects.AllocatedToNone | subjectsApp/views.py:181-196 | no classes hold no balance |
| Subjects.AllocatedToWithout | subjectsApp/views.py:181-196 | deleting a class outside a set leaves the set's balance unchanged |
| Subjects.AllocatedToSplit | subjectsApp/views.py:181-196 | a set's balance splits over a subset and the rest |
| Subjects.AllocatedToAdd | subjectsApp/views.py:181-196 | adding a class adds its balance |
| Subjects.DropClassValid | subjectsApp/views.py:181-196 | one pass of the loop keeps the invariant |
| Subjects.DropClassesValid | subjectsApp/views.py:181-196 | the whole loop keeps the invariant |
| Subjects.ListedSplit | subjectsApp/views.py:181-196 | a list of distinct classes splits into its head and a distinct tail |
| Subjects.DropClassesFrame | subjectsApp/views.py:181-196 | the loop removes exactly the listed classes and keeps the other classes, the supplies and the subjects |
| Subjects.DropClassStock | subjectsApp/views.py:181-196 | deleting one class credits its balance when it had not started and removes its rows |
| Subjects.DropClassesStock | subjectsApp/views.py:181-196 | each supply's stock rises by exactly the balances of the listed classes that had not started |
| Subjects.DropClassesEarmarked | subjectsApp/views.py:181-196 | each supply's earmarked total falls by the balances of all listed classes |
| Subjects.ClassesOfSubject | subjectsApp/views.py:179 | the loop walks exactly the subject's classes |
| Subjects.DestroySubjectEffect | subjectsApp/views.py:173-198 | success if and only if the subject exists and is visible to the caller; the subject and exactly its classes go; stock rises by the balances of unstarted classes, while started and finished classes' balances are lost; a refusal changes nothing |
| Subjects.AfterDestroySubjectValid | subjectsApp/views.py:173-198 | subject deletion keeps the invariant |
| Subjects.DestroySubject | subjectsApp/views.py:173-198 | the handler with its nested loops leaves exactly the database `AfterDestroySubject` specifies |
| Supplies.RenameBlockedWhileStarted | insumosApp/views.py:18-31 | a rename succeeds if and only if the supply is in no started class; otherwise it is refused with no change |
| Supplies.QuantityEditAllowed | insumosApp/views.py:18-31 | a quantity-only edit is saved even while a started class holds the supply, and only that supply row changes |
| Supplies.AfterUpdateSupplyValid | insumosApp/views.py:18-31 | a supply update keeps the invariant |
| Supplies.UpdateSupply | insumosApp/views.py:18-31 | the handler leaves exactly the database `AfterUpdateSupply` specifies |
| Supplies.AllocationsNotFor | insumosApp/views.py:44 | the cascade keeps exactly the allocations of other supplies |
| Supplies.SharesNotFor | insumosApp/views.py:44 | the cascade keeps exactly the shares of other supplies |
| Supplies.RequestsNotFor | insumosApp/views.py:44 | the cascade keeps exactly the requests for other supplies |
| Supplies.SharesNotForUnique | insumosApp/views.py:44 | the cascade keeps share keys unique |
| Supplies.RequestsNotForUnique | insumosApp/views.py:44 | the cascade keeps request ids unique |
| Supplies.DestroySupplyEffect | insumosApp/views.py:34-44 | deletion succeeds if and only if no allocation of the supply belongs to a started class; a refusal changes nothing; on success the supply goes, and the allocations, shares, requests, supply history and student history keep exactly the rows of other supplies; the other supplies and every other table (classes, subjects, participations, notifications, roles, key sequences) are unchanged |
| Supplies.AfterDestroySupplyValid | insumosApp/views.py:34-44 | supply deletion keeps the invariant |
| Supplies.DestroySupply | insumosApp/views.py:34-44 | the handler leaves exactly the database `AfterDestroySupply` specifies |
| Supplies.UnguardedRouteBypassesGuard | insumosApp/views.py:53-57 | `InsumoEliminar` has no in-use guard: a supply the mounted route refuses to delete would be deleted by it, shares included; the view is routed only in insumosApp/urls.py, which no URL configuration includes |

## Left out

- Quantities are exact `real`s. The model does not capture Decimal's 28-digit division precision, or the database's quantisation of a DecimalField to two places on save. Only the explicit `round(x, 2)` is modelled. It also drops the `max_digits=10` bound of every quantity column (subjectsApp/models.py:56, 63-64, 94-97, 106-107, 128-129; insumosApp/models.py:15-21): a stock or balance raised past ten digits by `quitar_insumos`, either `destroy` or `finalizar_clase` makes the save fail, whereas the model accepts it.
- Parsing the request bodies is not modelled: `Decimal(...)` on a non-numeric string, a non-list `solicitudes`, and a missing `cantidad` key. The models take already-typed inputs.
- Serializers are modelled only as far as the handlers depend on them:
  - the role checks on `profesor` and `alumnos`
  - the non-negative `cantidad_total` (insumosApp/serializers.py:8-11)
  - field lengths and `unidad_medida` are not modelled
- PUT and PATCH are one operation: absent fields keep their value.
- Notification texts are not modelled. Only the recipient of each notification is recorded.
- Transactions, concurrency and row locking are not modelled. Each handler runs alone on one database value, and the loops apply their writes in order.
- The listing, report and history handlers are read-only and state nothing the model needs. These are:
  - `obtener_clases`
  - `reporte_participacion*`
  - `mis_insumos`
  - `historial_*`
  - `reporte_insumos`
  - `solicitudes_*`
  - the notification endpoints
- `agregar_clase` and `AsignaturaView.update` are outside the modelled core.
- Query sets are taken in primary-key order. Django gives no order without `ordering`, and that order is what the loops' countdown and "first row" depend on.
- Subject teacher: the serializer requires `profesor` (subjectsApp/serializers.py:11), so the model's subject always has a teacher. The `SET_NULL` a deleted teacher leaves behind is not modelled, because user deletion is outside the core.
- Subjects.DestroySubject: deletes through Django's collector are taken to run the class signals after each class. The subject's own final `numero_clases` save is not observed because the row is gone.
- Model.Db: the model holds the database as one value field, rewritten once per step. It does not capture in-place updates of separate table objects, or aliasing between them.
- Distribution.Participate: `alumno_id` values are modelled as user ids, with 0 and absence both meaning "the caller". Other falsy JSON values are not distinguished.
- Requests.Manage: any exception other than a missing request is modelled as `ServerError`. No such exception can arise in the model, because deleting a supply cascades to its requests.
