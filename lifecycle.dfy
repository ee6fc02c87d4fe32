/** The life of a class once supplied: `cambiar_estado` (assigned to started,
    started to finished) and `finalizar_clase`, which records the histories,
    gives the unused balance back and closes the pending requests
    (subjectsApp/views.py). */
module Lifecycle {
  import opened Model
  import opened Queries
  import opened Decimal
  import opened Permissions
  import opened Cascades
  import opened Distribution
  import ClassStock

  // ===== cambiar_estado =====

  /** `cambiar_estado`: only a teacher, on an existing class, with a non-empty
      target. 'asignada' to 'iniciada' saves the new state and then runs
      `distribuir_insumos`; 'iniciada' to 'finalizada' only saves the state.
      Every other pair is refused. */
  function AfterChangeState(st: DbState, caller: User, c: LessonId, target: Option<string>): Step {
    if !IsProfesor(caller) then Step(Err(Forbidden), st)
    else if c !in st.lessons then Step(Err(NotFound), st)
    else if target.None? || target.value == "" then Step(Err(MissingInput), st)
    else
      var l := st.lessons[c];
      if l.state == Assigned && target.value == LessonStateCode(Started) then
        Step(Ok, Distributed(st.(lessons := st.lessons[c := l.(state := Started)]), c))
      else if l.state == Started && target.value == LessonStateCode(Finished) then
        Step(Ok, st.(lessons := st.lessons[c := l.(state := Finished)]))
      else Step(Err(InvalidTransition), st)
  }

  lemma AfterChangeStateValid(st: DbState, caller: User, c: LessonId, target: Option<string>)
    requires Valid(st)
    ensures Valid(AfterChangeState(st, caller, c, target).st)
  {
    if AfterChangeState(st, caller, c, target).out == Ok {
      var l := st.lessons[c];
      if l.state == Assigned {
        SaveLessonValid(st, c, l.(state := Started));
        DistributedValid(st.(lessons := st.lessons[c := l.(state := Started)]), c);
      } else {
        SaveLessonValid(st, c, l.(state := Finished));
      }
    }
  }

  /** Exactly two transitions are accepted, and each moves the class to the
      requested state; anything else leaves the database as it was. */
  lemma ChangeStateTransitions(st: DbState, caller: User, c: LessonId, target: Option<string>)
    requires IsProfesor(caller) && c in st.lessons
    ensures var r := AfterChangeState(st, caller, c, target);
            var from := st.lessons[c].state;
            && (r.out == Ok <==>
                  target.Some? && ((from == Assigned && target.value == "iniciada") || (from == Started && target.value == "finalizada")))
            && (r.out == Ok ==> c in r.st.lessons && Some(r.st.lessons[c].state) == ParseLessonState(target.value))
            && (r.out != Ok ==> r.st == st)
  {
    var r := AfterChangeState(st, caller, c, target);
    if r.out == Ok && st.lessons[c].state == Assigned {
      assert r.st.lessons == st.lessons[c := st.lessons[c].(state := Started)];
    }
  }

  /** Starting a class hands its balance out, as `distribuir_insumos` does on
      the class already marked 'iniciada'. */
  lemma StartDistributes(st: DbState, caller: User, c: LessonId)
    requires IsProfesor(caller) && c in st.lessons && st.lessons[c].state == Assigned
    ensures AfterChangeState(st, caller, c, Some("iniciada")).st
         == Distributed(st.(lessons := st.lessons[c := st.lessons[c].(state := Started)]), c)
  {
  }

  /** Finishing through `cambiar_estado` skips all of `finalizar_clase`'s
      bookkeeping: no history, no return of stock, no request closed. While
      the class stays 'finalizada' its balance stays earmarked, since
      `quitar_insumos`, the class `destroy` and `finalizar_clase` all refuse a
      finished class (`FinishedClassRevives` shows the way back). */
  lemma FinishShortcutStrandsBalance(st: DbState, caller: User, c: LessonId, s: SupplyId, q: real)
    requires IsProfesor(caller) && c in st.lessons && st.lessons[c].state == Started
    ensures var st' := AfterChangeState(st, caller, c, Some("finalizada")).st;
            && st' == st.(lessons := st.lessons[c := st.lessons[c].(state := Finished)])
            && ClassStock.AfterUnassign(st', c, s, q) == Step(Err(InvalidState), st')
            && ClassStock.AfterDestroyLesson(st', c) == Step(Err(InvalidState), st')
            && AfterFinish(st', caller, c) == Step(Err(InvalidState), st')
  {
  }

  /** `asignar_insumos` never looks at the class state: one accepted entry on
      a class finished through `cambiar_estado` sets it back to 'asignada',
      after which `quitar_insumos` accepts any withdrawal of the balance the
      class held. */
  lemma FinishedClassRevives(st: DbState, caller: User, c: LessonId, item: ClassStock.AssignItem, t: SupplyId, q: real)
    requires IsProfesor(caller) && c in st.lessons && st.lessons[c].state == Started
    requires ClassStock.WellFormed(item) && item.supply.value in st.supplies
    requires st.supplies[item.supply.value].total >= item.qty.value
    requires RowCount(st.allocations, c, item.supply.value) <= 1
    requires t in st.supplies && 0.0 < q <= Allocated(st.allocations, c, t)
    ensures var st1 := AfterChangeState(st, caller, c, Some("finalizada")).st;
            var r := ClassStock.AfterAssign(st1, c, [item]);
            && st1.lessons[c].state == Finished
            && r.out == Ok && r.st.lessons[c].state == Assigned
            && ClassStock.AfterUnassign(r.st, c, t, q).out == Ok
  {
    var st1 := AfterChangeState(st, caller, c, Some("finalizada")).st;
    assert st1 == st.(lessons := st.lessons[c := st.lessons[c].(state := Finished)]);
    ClassStock.AssignOneMoves(st1, c, item);
    ClassStock.AssignOutcome(st1, c, [item]);
  }

  /** The handler. */
  method ChangeState(db: Db, caller: User, c: LessonId, target: Option<string>) returns (r: Outcome)
    requires Valid(db.tables)
    modifies db
    ensures Step(r, db.tables) == AfterChangeState(old(db.tables), caller, c, target)
    ensures Valid(db.tables)
  {
    AfterChangeStateValid(db.tables, caller, c, target);
    if !IsProfesor(caller) {
      return Err(Forbidden);
    }
    if c !in db.tables.lessons {
      return Err(NotFound);
    }
    if target.None? || target.value == "" {
      return Err(MissingInput);
    }
    var l := db.tables.lessons[c];
    if l.state == Assigned && target.value == LessonStateCode(Started) {
      SaveLessonValid(db.tables, c, l.(state := Started));
      db.tables := db.tables.(lessons := db.tables.lessons[c := l.(state := Started)]);
      DistributeSupplies(db, c);
      return Ok;
    }
    if l.state == Started && target.value == LessonStateCode(Finished) {
      db.tables := db.tables.(lessons := db.tables.lessons[c := l.(state := Finished)]);
      return Ok;
    }
    r := Err(InvalidTransition);
  }

  // ===== finalizar_clase =====

  /** One `ClaseAlumnoInsumoHistorial` row per share of the class, in order. */
  function Snapshot(d: seq<Share>, c: LessonId): seq<StudentHistoryRow> {
    if d == [] then []
    else if d[0].key.lesson == c
    then [StudentHistoryRow(c, d[0].key.student, d[0].key.supply, d[0].baseQty, d[0].extra)] + Snapshot(d[1..], c)
    else Snapshot(d[1..], c)
  }

  /** The student history records exactly the class's shares, figure for figure. */
  lemma {:induction false} SnapshotExact(d: seq<Share>, c: LessonId, h: StudentHistoryRow)
    ensures h in Snapshot(d, c) <==> h.lesson == c && Share(ShareKey(c, h.student, h.supply), h.baseQty, h.extra) in d
  {
    if d != [] {
      SnapshotExact(d[1..], c, h);
      assert d == [d[0]] + d[1..];
    }
  }

  /** What goes back to stock from one row: the balance not handed out as base
      shares, never negative. */
  function Unused(a: Allocation, d: seq<Share>, c: LessonId): real {
    Max0(a.qty - AssignedTotal(d, c, a.supply))
  }

  /** One `ClaseInsumoHistorial` row per row of the class, in order. */
  function SupplyRecords(rows: seq<Allocation>, d: seq<Share>, c: LessonId): seq<SupplyHistoryRow> {
    if rows == [] then []
    else
      var a := rows[0];
      if a.lesson == c
      then [SupplyHistoryRow(c, a.supply, a.qty, AssignedTotal(d, c, a.supply), Unused(a, d, c), ExtraTotal(d, c, a.supply))]
           + SupplyRecords(rows[1..], d, c)
      else SupplyRecords(rows[1..], d, c)
  }

  /** Every supply history row belongs to a row of the class, repeats its
      balance, records as used the base shares handed out and as returned
      what the balance exceeds them by (zero otherwise); and every row of the
      class is recorded. */
  lemma {:induction false} SupplyRecordsMeaning(rows: seq<Allocation>, d: seq<Share>, c: LessonId)
    ensures forall h :: h in SupplyRecords(rows, d, c) ==>
              && h.lesson == c
              && Allocation(c, h.supply, h.totalAssigned) in rows
              && h.used == AssignedTotal(d, c, h.supply)
              && h.extraAssigned == ExtraTotal(d, c, h.supply)
              && h.returned >= 0.0
              && (h.used <= h.totalAssigned ==> h.used + h.returned == h.totalAssigned)
              && (h.used > h.totalAssigned ==> h.returned == 0.0)
    ensures forall a :: a in rows && a.lesson == c ==>
              SupplyHistoryRow(c, a.supply, a.qty, AssignedTotal(d, c, a.supply), Unused(a, d, c), ExtraTotal(d, c, a.supply))
              in SupplyRecords(rows, d, c)
  {
    if rows != [] {
      SupplyRecordsMeaning(rows[1..], d, c);
      assert rows == [rows[0]] + rows[1..];
    }
  }

  /** The loop's effect on stock: each row of the class adds its unused part
      to its supply, when that part is positive. */
  function Settle(m: map<SupplyId, Supply>, rows: seq<Allocation>, d: seq<Share>, c: LessonId): (m': map<SupplyId, Supply>)
    ensures m'.Keys == m.Keys
  {
    if rows == [] then m
    else
      var a := rows[0];
      var m1 := if a.lesson == c && Unused(a, d, c) > 0.0 then AddStock(m, a.supply, Unused(a, d, c)) else m;
      Settle(m1, rows[1..], d, c)
  }

  /** Settling never lowers any stock; a supply the class holds no row of is
      untouched; and one the class holds in a single row gets back exactly
      the unused part of that row. */
  lemma {:induction false} SettleEffect(m: map<SupplyId, Supply>, rows: seq<Allocation>, d: seq<Share>, c: LessonId, t: SupplyId)
    requires t in m
    ensures Settle(m, rows, d, c)[t].name == m[t].name
    ensures Settle(m, rows, d, c)[t].total >= m[t].total
    ensures RowCount(rows, c, t) == 0 ==> Settle(m, rows, d, c)[t] == m[t]
    ensures RowCount(rows, c, t) == 1 ==>
              Settle(m, rows, d, c)[t].total == m[t].total + Max0(Allocated(rows, c, t) - AssignedTotal(d, c, t))
  {
    if rows != [] {
      var a := rows[0];
      var m1 := if a.lesson == c && Unused(a, d, c) > 0.0 then AddStock(m, a.supply, Unused(a, d, c)) else m;
      SettleEffect(m1, rows[1..], d, c, t);
      if Matches(a, c, t) && RowCount(rows, c, t) == 1 {
        SettleUntouched(m1, rows[1..], d, c, t);
      }
    }
  }

  lemma {:induction false} SettleUntouched(m: map<SupplyId, Supply>, rows: seq<Allocation>, d: seq<Share>, c: LessonId, t: SupplyId)
    requires t in m && RowCount(rows, c, t) == 0
    ensures Settle(m, rows, d, c)[t] == m[t]
    ensures Allocated(rows, c, t) == 0.0
  {
    if rows != [] {
      var a := rows[0];
      var m1 := if a.lesson == c && Unused(a, d, c) > 0.0 then AddStock(m, a.supply, Unused(a, d, c)) else m;
      SettleUntouched(m1, rows[1..], d, c, t);
    }
  }

  /** Closing the requests still waiting for the teacher. */
  function RejectPending(r: seq<SupplyRequest>, c: LessonId): (r': seq<SupplyRequest>)
    ensures |r'| == |r|
    ensures forall i :: 0 <= i < |r| ==>
              r'[i] == if r[i].lesson == c && r[i].state == AwaitingTeacher
                       then r[i].(state := Rejected, reason := Some("La clase ha finalizado."))
                       else r[i]
  {
    if r == [] then []
    else
      var x := r[0];
      [if x.lesson == c && x.state == AwaitingTeacher then x.(state := Rejected, reason := Some("La clase ha finalizado.")) else x]
      + RejectPending(r[1..], c)
  }

  /** The recipients of the notifications those rejections send, in order. */
  function PendingStudents(r: seq<SupplyRequest>, c: LessonId): (u: seq<UserId>)
    ensures |u| <= |r|
  {
    if r == [] then []
    else if r[0].lesson == c && r[0].state == AwaitingTeacher then [r[0].student] + PendingStudents(r[1..], c)
    else PendingStudents(r[1..], c)
  }

  /** One notification per rejected request: the recipients are exactly the
      students of the class's requests that were waiting for the teacher. */
  lemma {:induction false} PendingStudentsExact(r: seq<SupplyRequest>, c: LessonId, u: UserId)
    ensures u in PendingStudents(r, c) <==> exists i :: 0 <= i < |r| && r[i].lesson == c && r[i].state == AwaitingTeacher && r[i].student == u
  {
    if r != [] {
      PendingStudentsExact(r[1..], c, u);
      if u in PendingStudents(r[1..], c) {
        var i :| 0 <= i < |r[1..]| && r[1..][i].lesson == c && r[1..][i].state == AwaitingTeacher && r[1..][i].student == u;
        assert r[i + 1] == r[1..][i];
      }
      if exists i :: 0 <= i < |r| && r[i].lesson == c && r[i].state == AwaitingTeacher && r[i].student == u {
        var i :| 0 <= i < |r| && r[i].lesson == c && r[i].state == AwaitingTeacher && r[i].student == u;
        if i > 0 {
          assert r[1..][i - 1] == r[i];
        }
      }
    }
  }

  /** A request of class c still waiting for the teacher. */
  predicate Waiting(x: SupplyRequest, c: LessonId) {
    x.lesson == c && x.state == AwaitingTeacher
  }

  /** The positions from i on of the class's requests waiting for the
      teacher: each such request exactly once, in increasing order. */
  function PendingPositions(r: seq<SupplyRequest>, c: LessonId, i: nat): (idx: seq<nat>)
    requires i <= |r|
    ensures forall k :: 0 <= k < |idx| ==> i <= idx[k] < |r| && Waiting(r[idx[k]], c)
    ensures forall k, l :: 0 <= k < l < |idx| ==> idx[k] < idx[l]
    ensures forall j :: i <= j < |r| && Waiting(r[j], c) ==> j in idx
    decreases |r| - i
  {
    if i == |r| then []
    else
      var rest := PendingPositions(r, c, i + 1);
      if Waiting(r[i], c) then [i] + rest else rest
  }

  /** One notification per closed request, in the order of the requests:
      the k-th recipient is the student of the k-th request waiting for the
      teacher. */
  lemma {:induction false} PendingStudentsPositions(r: seq<SupplyRequest>, c: LessonId, i: nat)
    requires i <= |r|
    ensures var u, idx := PendingStudents(r[i..], c), PendingPositions(r, c, i);
            && |u| == |idx|
            && forall k :: 0 <= k < |u| ==> u[k] == r[idx[k]].student
    decreases |r| - i
  {
    if i < |r| {
      PendingStudentsPositions(r, c, i + 1);
      assert r[i..][1..] == r[i + 1..];
      assert r[i..][0] == r[i];
    }
  }

  /** The closing notifications appended to `n`: one per request waiting
      for the teacher, in the order of the requests. */
  lemma NotifiedInOrder(n: seq<UserId>, r: seq<SupplyRequest>, c: LessonId)
    ensures var n', idx := n + PendingStudents(r, c), PendingPositions(r, c, 0);
            && |n'| == |n| + |idx|
            && forall k :: 0 <= k < |idx| ==> n'[|n| + k] == r[idx[k]].student
  {
    PendingStudentsPositions(r, c, 0);
    assert r[0..] == r;
  }

  /** `finalizar_clase`: only a teacher, on an existing class that is
      'iniciada'. The shares are copied to the student history; each row of
      the class is recorded in the supply history and its unused part goes
      back to stock; the rows and shares of the class are deleted; requests
      still waiting for the teacher are rejected, each with a notification;
      the class becomes 'finalizada'. */
  function AfterFinish(st: DbState, caller: User, c: LessonId): Step {
    if !IsProfesor(caller) then Step(Err(Forbidden), st)
    else if c !in st.lessons then Step(Err(NotFound), st)
    else if st.lessons[c].state != Started then Step(Err(InvalidState), st)
    else Step(Ok, st.(
      studentHistory := st.studentHistory + Snapshot(st.shares, c),
      supplyHistory := st.supplyHistory + SupplyRecords(st.allocations, st.shares, c),
      supplies := Settle(st.supplies, st.allocations, st.shares, c),
      allocations := RowsNotOf(st.allocations, c),
      shares := SharesNotOf(st.shares, c),
      requests := RejectPending(st.requests, c),
      notifications := st.notifications + PendingStudents(st.requests, c),
      lessons := st.lessons[c := st.lessons[c].(state := Finished)]))
  }

  lemma AfterFinishValid(st: DbState, caller: User, c: LessonId)
    requires Valid(st)
    ensures Valid(AfterFinish(st, caller, c).st)
  {
    var r := AfterFinish(st, caller, c);
    if r.out == Ok {
      forall t | t in st.supplies ensures r.st.supplies[t].total >= 0.0 {
        SettleEffect(st.supplies, st.allocations, st.shares, c, t);
      }
      SharesNotOfUnique(st.shares, c);
      var rq := RejectPending(st.requests, c);
      forall x | x in rq ensures RequestOk(x, st.lessons.Keys, st.supplies.Keys, st.nextRequestId) {
        var i :| 0 <= i < |rq| && rq[i] == x;
        assert RequestOk(st.requests[i], st.lessons.Keys, st.supplies.Keys, st.nextRequestId);
      }
      assert UniqueRequestIds(rq);
      var st1 := st.(
        studentHistory := st.studentHistory + Snapshot(st.shares, c),
        supplyHistory := st.supplyHistory + SupplyRecords(st.allocations, st.shares, c),
        supplies := Settle(st.supplies, st.allocations, st.shares, c),
        allocations := RowsNotOf(st.allocations, c),
        shares := SharesNotOf(st.shares, c),
        requests := rq,
        notifications := st.notifications + PendingStudents(st.requests, c));
      assert Valid(st1);
      SaveLessonValid(st1, c, st.lessons[c].(state := Finished));
    }
  }

  /** Anyone but a teacher, a missing class, or a class that is not
      'iniciada': refused, nothing changes. */
  lemma FinishRefusals(st: DbState, caller: User, c: LessonId)
    requires !IsProfesor(caller) || c !in st.lessons || st.lessons[c].state != Started
    ensures AfterFinish(st, caller, c).st == st
    ensures AfterFinish(st, caller, c).out.Err?
  {
  }

  /** After a successful `finalizar_clase` no allocation row and no share of
      the class remains, while every other class's rows and shares are
      kept; the class is 'finalizada'. */
  lemma FinishClearsClass(st: DbState, caller: User, c: LessonId)
    requires AfterFinish(st, caller, c).out == Ok
    ensures var st' := AfterFinish(st, caller, c).st;
            && (forall a :: a in st'.allocations <==> a in st.allocations && a.lesson != c)
            && (forall x :: x in st'.shares <==> x in st.shares && x.key.lesson != c)
            && st'.lessons[c].state == Finished
            && (forall t :: Allocated(st'.allocations, c, t) == 0.0)
  {
    var st' := AfterFinish(st, caller, c).st;
    forall t ensures Allocated(st'.allocations, c, t) == 0.0 {
      NoRowsNoBalance(st'.allocations, c, t);
    }
  }

  lemma {:induction false} NoRowsNoBalance(rows: seq<Allocation>, c: LessonId, s: SupplyId)
    requires forall a :: a in rows ==> a.lesson != c
    ensures Allocated(rows, c, s) == 0.0
  {
    if rows != [] {
      NoRowsNoBalance(rows[1..], c, s);
    }
  }

  /** Stock after `finalizar_clase`: no supply loses stock; a supply the class
      held in one row gets back exactly that row's balance minus the base
      shares handed out, or nothing when they took it all; supplies the class
      did not hold are untouched. */
  lemma FinishReturnsUnused(st: DbState, caller: User, c: LessonId, t: SupplyId)
    requires AfterFinish(st, caller, c).out == Ok && t in st.supplies
    ensures var st' := AfterFinish(st, caller, c).st;
            && st'.supplies[t].total >= st.supplies[t].total
            && (RowCount(st.allocations, c, t) == 0 ==> st'.supplies[t] == st.supplies[t])
            && (RowCount(st.allocations, c, t) == 1 ==>
                  st'.supplies[t].total
                  == st.supplies[t].total + Max0(Allocated(st.allocations, c, t) - AssignedTotal(st.shares, c, t)))
  {
    SettleEffect(st.supplies, st.allocations, st.shares, c, t);
  }

  /** Only requests waiting for the teacher are closed: a request already
      passed on to the administrator stays 'pendiente_admin' on a finished
      class, and requests of other classes are untouched. */
  lemma FinishClosesTeacherRequestsOnly(st: DbState, caller: User, c: LessonId)
    requires AfterFinish(st, caller, c).out == Ok
    ensures var st' := AfterFinish(st, caller, c).st;
            && |st'.requests| == |st.requests|
            && (forall i :: 0 <= i < |st.requests| && st.requests[i].lesson == c && st.requests[i].state == AwaitingTeacher ==>
                  st'.requests[i].state == Rejected && st'.requests[i].reason == Some("La clase ha finalizado."))
            && (forall i :: 0 <= i < |st.requests| && (st.requests[i].lesson != c || st.requests[i].state != AwaitingTeacher) ==>
                  st'.requests[i] == st.requests[i])
            && (forall u :: u in st'.notifications[|st.notifications|..] <==>
                  exists i :: 0 <= i < |st.requests| && st.requests[i].lesson == c
                              && st.requests[i].state == AwaitingTeacher && st.requests[i].student == u)
            && (var idx := PendingPositions(st.requests, c, 0);
                && |st'.notifications| == |st.notifications| + |idx|
                && forall k :: 0 <= k < |idx| ==> st'.notifications[|st.notifications| + k] == st.requests[idx[k]].student)
  {
    var st' := AfterFinish(st, caller, c).st;
    assert st'.notifications == st.notifications + PendingStudents(st.requests, c);
    assert st'.notifications[|st.notifications|..] == PendingStudents(st.requests, c);
    NotifiedInOrder(st.notifications, st.requests, c);
    forall u ensures u in PendingStudents(st.requests, c) <==>
                     exists i :: 0 <= i < |st.requests| && st.requests[i].lesson == c
                                 && st.requests[i].state == AwaitingTeacher && st.requests[i].student == u {
      PendingStudentsExact(st.requests, c, u);
    }
  }

  /** The loop that records the supply history and gives back the unused part. */
  method SettleLoop(m0: map<SupplyId, Supply>, rows: seq<Allocation>, d: seq<Share>, c: LessonId)
    returns (m: map<SupplyId, Supply>, records: seq<SupplyHistoryRow>)
    ensures m == Settle(m0, rows, d, c)
    ensures records == SupplyRecords(rows, d, c)
  {
    m, records := m0, [];
    var i := 0;
    assert rows[i..] == rows;
    while i < |rows|
      invariant 0 <= i <= |rows|
      invariant Settle(m, rows[i..], d, c) == Settle(m0, rows, d, c)
      invariant records + SupplyRecords(rows[i..], d, c) == SupplyRecords(rows, d, c)
    {
      assert rows[i..][1..] == rows[i + 1..];
      var a := rows[i];
      if a.lesson == c {
        var used := AssignedTotal(d, c, a.supply);
        var extra := ExtraTotal(d, c, a.supply);
        var unused := Max0(a.qty - used);
        records := records + [SupplyHistoryRow(c, a.supply, a.qty, used, unused, extra)];
        if unused > 0.0 {
          m := AddStock(m, a.supply, unused);
        }
      }
      i := i + 1;
    }
    assert rows[i..] == [];
  }

  /** The loop over the requests still waiting for the teacher. */
  method RejectLoop(r0: seq<SupplyRequest>, c: LessonId) returns (r: seq<SupplyRequest>, notified: seq<UserId>)
    ensures r == RejectPending(r0, c)
    ensures notified == PendingStudents(r0, c)
  {
    ghost var closed := RejectPending(r0, c);
    ghost var recipients := PendingStudents(r0, c);
    r, notified := r0, [];
    var i := 0;
    while i < |r0|
      invariant 0 <= i <= |r0| && |r| == |r0| == |closed|
      invariant forall j :: 0 <= j < i ==> r[j] == closed[j]
      invariant forall j :: i <= j < |r0| ==> r[j] == r0[j]
      invariant notified + PendingStudents(r0[i..], c) == recipients
    {
      assert r0[i..][1..] == r0[i + 1..];
      var x := r0[i];
      if x.lesson == c && x.state == AwaitingTeacher {
        r := r[i := x.(state := Rejected, reason := Some("La clase ha finalizado."))];
        notified := notified + [x.student];
      }
      i := i + 1;
    }
    assert r0[i..] == [];
  }

  /** The handler. */
  method Finish(db: Db, caller: User, c: LessonId) returns (out: Outcome)
    requires Valid(db.tables)
    modifies db
    ensures Step(out, db.tables) == AfterFinish(old(db.tables), caller, c)
    ensures Valid(db.tables)
  {
    AfterFinishValid(db.tables, caller, c);
    if !IsProfesor(caller) {
      return Err(Forbidden);
    }
    if c !in db.tables.lessons {
      return Err(NotFound);
    }
    if db.tables.lessons[c].state != Started {
      return Err(InvalidState);
    }
    var st := db.tables;
    var students := Snapshot(st.shares, c);
    var supplies, records := SettleLoop(st.supplies, st.allocations, st.shares, c);
    var requests, notified := RejectLoop(st.requests, c);
    db.tables := st.(
      studentHistory := st.studentHistory + students,
      supplyHistory := st.supplyHistory + records,
      supplies := supplies,
      allocations := RowsNotOf(st.allocations, c),
      shares := SharesNotOf(st.shares, c),
      requests := requests,
      notifications := st.notifications + notified,
      lessons := st.lessons[c := st.lessons[c].(state := Finished)]);
    out := Ok;
  }
}
