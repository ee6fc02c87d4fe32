/** Extraordinary supply requests: a student asks (`solicitar_insumo`), the
    teacher passes the request on or rejects it, the administrator approves it
    out of the general stock or rejects it (`gestionar_solicitud`)
    (subjectsApp/views.py). */
module Requests {
  import opened Model
  import opened Queries
  import opened Permissions

  // ===== solicitar_insumo =====

  /** One entry of `solicitudes`: the supply is named (`Insumo.objects.get(nombre=…)`),
      and a missing quantity is 0. */
  datatype RequestItem = RequestItem(name: string, qty: real)

  /** The per-entry answer of the 200 response. */
  datatype ItemAnswer = RequestCreated | NoSuchSupply | NotPositive | NoShareHeld | ExceedsShare

  /** The supplies carrying a name; names are not unique. */
  function Named(m: map<SupplyId, Supply>, name: string): set<SupplyId> {
    set s | s in m && m[s].name == name
  }

  lemma Singleton(xs: set<SupplyId>)
    requires |xs| == 1
    ensures exists x :: xs == {x}
  {
    if forall y :: y !in xs {
      assert false;
    }
    var x :| x in xs;
    assert |xs - {x}| == 0;
    assert xs == {x};
  }

  /** The outcome of `get(nombre=…)`: no row, one row, or several rows. */
  datatype Lookup = Missing | Unique(id: SupplyId) | Ambiguous

  function LookupName(m: map<SupplyId, Supply>, name: string): (r: Lookup)
    ensures r == Missing <==> Named(m, name) == {}
    ensures r.Unique? <==> |Named(m, name)| == 1
    ensures r.Unique? ==> Named(m, name) == {r.id} && r.id in m && m[r.id].name == name
    ensures r == Ambiguous <==> |Named(m, name)| > 1
  {
    var ids := Named(m, name);
    if |ids| == 0 then Missing
    else if |ids| > 1 then Ambiguous
    else
      Singleton(ids);
      var s :| ids == {s};
      assert s in ids;
      Unique(s)
  }

  /** One pass of the loop, for student u in class c: the database afterwards
      and the answer, or None when two supplies carry the name and
      `MultipleObjectsReturned` escapes the handler. */
  function RequestOne(st: DbState, u: UserId, c: LessonId, item: RequestItem): (DbState, Option<ItemAnswer>) {
    match LookupName(st.supplies, item.name)
    case Missing => (st, Some(NoSuchSupply))
    case Ambiguous => (st, None)
    case Unique(s) =>
      if item.qty <= 0.0 then (st, Some(NotPositive))
      else match ShareOf(st.shares, ShareKey(c, u, s))
        case None => (st, Some(NoShareHeld))
        case Some(x) =>
          if item.qty > x.baseQty then (st, Some(ExceedsShare))
          else
            var req := SupplyRequest(st.nextRequestId, u, c, s, item.qty, None, AwaitingTeacher, false, None);
            (st.(requests := st.requests + [req], nextRequestId := st.nextRequestId + 1), Some(RequestCreated))
  }

  /** The loop over the entries: the database, the answers so far, and whether
      an entry aborted the handler. Nothing runs in a transaction, so the
      requests created before an abort stay. */
  function RequestFrom(st: DbState, u: UserId, c: LessonId, items: seq<RequestItem>): (DbState, seq<ItemAnswer>, bool)
    decreases |items|
  {
    if items == [] then (st, [], false)
    else
      var (st1, answer) := RequestOne(st, u, c, items[0]);
      if answer.None? then (st1, [], true)
      else
        var (st2, answers, aborted) := RequestFrom(st1, u, c, items[1..]);
        (st2, [answer.value] + answers, aborted)
  }

  /** `solicitar_insumo`: students only, on an existing class. The answer is a
      list with one entry per item, or a server error once an item's name
      matches several supplies. */
  function AfterRequest(st: DbState, caller: User, callerId: UserId, c: LessonId, items: seq<RequestItem>): (Step, seq<ItemAnswer>) {
    if !IsEstudiante(caller) then (Step(Err(Forbidden), st), [])
    else if c !in st.lessons then (Step(Err(NotFound), st), [])
    else
      var (st', answers, aborted) := RequestFrom(st, callerId, c, items);
      (Step(if aborted then Err(ServerError) else Ok, st'), answers)
  }

  /** A request the student may create: their own, in the class asked about,
      waiting for the teacher, with no approved quantity and no reason, for a
      positive quantity no larger than their base share of an existing supply. */
  predicate Admissible(x: SupplyRequest, shares: seq<Share>, supplies: map<SupplyId, Supply>, u: UserId, c: LessonId) {
    && x.student == u && x.lesson == c && x.state == AwaitingTeacher
    && x.approved.None? && x.reason.None? && !x.isExtra
    && x.requested > 0.0 && x.supply in supplies
    && ShareOf(shares, ShareKey(c, u, x.supply)).Some?
    && x.requested <= ShareOf(shares, ShareKey(c, u, x.supply)).value.baseQty
  }

  /** An entry creates a request exactly when its name designates one supply,
      its quantity is positive and the student holds a share of that supply
      in the class no smaller than the quantity; the request is admissible and
      takes the next primary key. Any other entry changes nothing, and only an
      ambiguous name aborts. */
  lemma RequestOneEffect(st: DbState, u: UserId, c: LessonId, item: RequestItem)
    ensures var r := RequestOne(st, u, c, item);
            var l := LookupName(st.supplies, item.name);
            && (r.1 == Some(RequestCreated) <==>
                  l.Unique? && item.qty > 0.0 &&
                  ShareOf(st.shares, ShareKey(c, u, l.id)).Some? &&
                  item.qty <= ShareOf(st.shares, ShareKey(c, u, l.id)).value.baseQty)
            && (r.1 == Some(RequestCreated) ==>
                  r.0 == st.(requests := st.requests + [SupplyRequest(st.nextRequestId, u, c, l.id, item.qty, None, AwaitingTeacher, false, None)],
                             nextRequestId := st.nextRequestId + 1)
                  && Admissible(r.0.requests[|st.requests|], st.shares, st.supplies, u, c))
            && (r.1 != Some(RequestCreated) ==> r.0 == st)
            && (r.1.None? <==> |Named(st.supplies, item.name)| > 1)
  {
    var l := LookupName(st.supplies, item.name);
    if l.Unique? && item.qty > 0.0 {
      var k := ShareKey(c, u, l.id);
      if ShareOf(st.shares, k).Some? && item.qty <= ShareOf(st.shares, k).value.baseQty {
        var req := SupplyRequest(st.nextRequestId, u, c, l.id, item.qty, None, AwaitingTeacher, false, None);
        assert RequestOne(st, u, c, item) == (st.(requests := st.requests + [req], nextRequestId := st.nextRequestId + 1), Some(RequestCreated));
        assert (st.requests + [req])[|st.requests|] == req;
      }
    }
  }

  /** One entry leaves the database alone or appends one admissible request
      under the next key. */
  lemma RequestOneAppends(st: DbState, u: UserId, c: LessonId, item: RequestItem)
    ensures var st1 := RequestOne(st, u, c, item).0;
            || st1 == st
            || (&& |st1.requests| == |st.requests| + 1
                && st1 == st.(requests := st1.requests, nextRequestId := st.nextRequestId + 1)
                && st1.requests[..|st.requests|] == st.requests
                && Admissible(st1.requests[|st.requests|], st.shares, st.supplies, u, c)
                && st1.requests[|st.requests|].id == st.nextRequestId)
  {
    RequestOneEffect(st, u, c, item);
  }

  /** Only the request table and its key sequence change, and there is one
      answer per entry unless an entry aborted the loop. */
  lemma {:induction false} RequestFromFrame(st: DbState, u: UserId, c: LessonId, items: seq<RequestItem>)
    ensures var r := RequestFrom(st, u, c, items);
            && r.0 == st.(requests := r.0.requests, nextRequestId := r.0.nextRequestId)
            && (!r.2 ==> |r.1| == |items|)
            && |r.1| <= |items|
    decreases |items|
  {
    if items != [] {
      RequestOneEffect(st, u, c, items[0]);
      var st1 := RequestOne(st, u, c, items[0]).0;
      if RequestOne(st, u, c, items[0]).1.Some? {
        RequestFromFrame(st1, u, c, items[1..]);
      }
    }
  }

  /** The loop only appends admissible requests, with consecutive fresh keys. */
  lemma {:induction false} RequestFromAppends(st: DbState, u: UserId, c: LessonId, items: seq<RequestItem>)
    ensures var st' := RequestFrom(st, u, c, items).0;
            && |st.requests| <= |st'.requests| && st'.requests[..|st.requests|] == st.requests
            && st'.nextRequestId == st.nextRequestId + (|st'.requests| - |st.requests|)
            && (forall i :: |st.requests| <= i < |st'.requests| ==>
                  Admissible(st'.requests[i], st.shares, st.supplies, u, c) && st'.requests[i].id == st.nextRequestId + (i - |st.requests|))
    decreases |items|
  {
    if items != [] {
      var (st1, answer) := RequestOne(st, u, c, items[0]);
      RequestOneAppends(st, u, c, items[0]);
      if answer.Some? {
        RequestFromAppends(st1, u, c, items[1..]);
        var st' := RequestFrom(st, u, c, items).0;
        assert st' == RequestFrom(st1, u, c, items[1..]).0;
        if st1 != st {
          assert st'.requests[..|st1.requests|][..|st.requests|] == st.requests;
          assert st'.requests[|st.requests|] == st1.requests[|st.requests|];
        }
      }
    }
  }

  /** The cap is checked request by request against the base share alone: two
      entries for the same supply, each within the share, both create a
      request, together asking for twice the quantity. */
  lemma RequestCapIsPerRequest(st: DbState, u: UserId, c: LessonId, item: RequestItem)
    requires RequestOne(st, u, c, item).1 == Some(RequestCreated)
    ensures var r := RequestFrom(st, u, c, [item, item]);
            && !r.2 && r.1 == [RequestCreated, RequestCreated]
            && |r.0.requests| == |st.requests| + 2
            && r.0.requests[|st.requests|].requested + r.0.requests[|st.requests| + 1].requested == 2.0 * item.qty
  {
    var st1 := RequestOne(st, u, c, item).0;
    RequestOneEffect(st, u, c, item);
    RequestOneEffect(st1, u, c, item);
    var st2 := RequestOne(st1, u, c, item).0;
    assert RequestOne(st1, u, c, item).1 == Some(RequestCreated);
    assert [item, item][1..] == [item];
    assert [item][1..] == [];
    assert RequestFrom(st2, u, c, []) == (st2, [], false);
    assert [RequestCreated] + [] == [RequestCreated];
    assert [RequestCreated] + [RequestCreated] == [RequestCreated, RequestCreated];
    assert RequestFrom(st1, u, c, [item]) == (st2, [RequestCreated], false);
    assert RequestFrom(st, u, c, [item, item]) == (st2, [RequestCreated, RequestCreated], false);
  }

  /** A name carried by two supplies stops the handler with a server error,
      but what the earlier entries created stays. */
  lemma RequestAbortKeepsEarlier(st: DbState, caller: User, callerId: UserId, c: LessonId, good: RequestItem, ambiguous: RequestItem)
    requires IsEstudiante(caller) && c in st.lessons
    requires RequestOne(st, callerId, c, good).1 == Some(RequestCreated)
    requires |Named(st.supplies, ambiguous.name)| > 1
    ensures AfterRequest(st, caller, callerId, c, [good, ambiguous])
         == (Step(Err(ServerError), RequestOne(st, callerId, c, good).0), [RequestCreated])
  {
    var st1 := RequestOne(st, callerId, c, good).0;
    RequestOneEffect(st, callerId, c, good);
    RequestOneEffect(st1, callerId, c, ambiguous);
    assert [good, ambiguous][1..] == [ambiguous];
    assert RequestOne(st1, callerId, c, ambiguous) == (st1, None);
    assert RequestFrom(st1, callerId, c, [ambiguous]) == (st1, [], true);
    assert [RequestCreated] + [] == [RequestCreated];
    assert RequestFrom(st, callerId, c, [good, ambiguous]) == (st1, [RequestCreated], true);
  }

  lemma AfterRequestValid(st: DbState, caller: User, callerId: UserId, c: LessonId, items: seq<RequestItem>)
    requires Valid(st)
    ensures Valid(AfterRequest(st, caller, callerId, c, items).0.st)
  {
    if IsEstudiante(caller) && c in st.lessons {
      RequestFromFrame(st, callerId, c, items);
      RequestFromAppends(st, callerId, c, items);
      var st' := RequestFrom(st, callerId, c, items).0;
      var n := |st.requests|;
      assert st'.lessons == st.lessons && st'.supplies == st.supplies;
      forall i | 0 <= i < |st'.requests| ensures RequestOk(st'.requests[i], st'.lessons.Keys, st'.supplies.Keys, st'.nextRequestId) {
        if i < n {
          assert st'.requests[i] == st.requests[i];
          assert RequestOk(st.requests[i], st.lessons.Keys, st.supplies.Keys, st.nextRequestId);
        } else {
          assert Admissible(st'.requests[i], st.shares, st.supplies, callerId, c);
        }
      }
      forall i, j | 0 <= i < j < |st'.requests| ensures st'.requests[i].id != st'.requests[j].id {
        if i < n {
          assert st.requests[i] == st'.requests[i];
          assert RequestOk(st.requests[i], st.lessons.Keys, st.supplies.Keys, st.nextRequestId);
          if j < n {
            assert st.requests[j] == st'.requests[j];
          }
        }
      }
    }
  }

  /** The loop of the handler. */
  method RequestLoop(db: Db, u: UserId, c: LessonId, items: seq<RequestItem>) returns (answers: seq<ItemAnswer>, aborted: bool)
    modifies db
    ensures (db.tables, answers, aborted) == RequestFrom(old(db.tables), u, c, items)
  {
    answers, aborted := [], false;
    var i := 0;
    assert items[i..] == items;
    assert answers + RequestFrom(db.tables, u, c, items).1 == RequestFrom(db.tables, u, c, items).1;
    while i < |items|
      invariant 0 <= i <= |items|
      invariant RequestFrom(old(db.tables), u, c, items).0 == RequestFrom(db.tables, u, c, items[i..]).0
      invariant RequestFrom(old(db.tables), u, c, items).1 == answers + RequestFrom(db.tables, u, c, items[i..]).1
      invariant RequestFrom(old(db.tables), u, c, items).2 == RequestFrom(db.tables, u, c, items[i..]).2
      decreases |items| - i
    {
      assert items[i..][1..] == items[i + 1..];
      var item := items[i];
      var answer: ItemAnswer;
      match LookupName(db.tables.supplies, item.name) {
      case Ambiguous =>
        assert answers + [] == answers;
        return answers, true;
      case Missing =>
        answer := NoSuchSupply;
      case Unique(s) =>
        if item.qty <= 0.0 {
          answer := NotPositive;
        } else {
          var share := ShareOf(db.tables.shares, ShareKey(c, u, s));
          if share.None? {
            answer := NoShareHeld;
          } else if item.qty > share.value.baseQty {
            answer := ExceedsShare;
          } else {
            var req := SupplyRequest(db.tables.nextRequestId, u, c, s, item.qty, None, AwaitingTeacher, false, None);
            db.tables := db.tables.(requests := db.tables.requests + [req], nextRequestId := db.tables.nextRequestId + 1);
            answer := RequestCreated;
          }
        }
      }
      assert answers + ([answer] + RequestFrom(db.tables, u, c, items[i + 1..]).1)
          == (answers + [answer]) + RequestFrom(db.tables, u, c, items[i + 1..]).1;
      answers := answers + [answer];
      i := i + 1;
    }
    assert items[i..] == [];
    assert answers + [] == answers;
  }

  /** The handler. */
  method Request(db: Db, caller: User, callerId: UserId, c: LessonId, items: seq<RequestItem>) returns (r: Outcome, answers: seq<ItemAnswer>)
    requires Valid(db.tables)
    modifies db
    ensures (Step(r, db.tables), answers) == AfterRequest(old(db.tables), caller, callerId, c, items)
    ensures Valid(db.tables)
  {
    AfterRequestValid(db.tables, caller, callerId, c, items);
    if !IsEstudiante(caller) {
      return Err(Forbidden), [];
    }
    if c !in db.tables.lessons {
      return Err(NotFound), [];
    }
    var aborted;
    answers, aborted := RequestLoop(db, callerId, c, items);
    r := if aborted then Err(ServerError) else Ok;
  }

  // ===== gestionar_solicitud =====

  const DefaultReason := "Sin motivo proporcionado."

  /** The administrator's approval, on the student's share: `get_or_create`
      with both quantities 0, then the extra grows by q. */
  function AddExtra(d: seq<Share>, k: ShareKey, q: real): seq<Share> {
    match FindShare(d, k)
    case None => d + [Share(k, 0.0, q)]
    case Some(i) => d[i := d[i].(extra := d[i].extra + q)]
  }

  /** Rejection by either role: state 'rechazado', the reason given or the
      default one, and a notification to the student. */
  function Reject(st: DbState, i: nat, motivo: Option<string>): DbState
    requires i < |st.requests|
  {
    var x := st.requests[i];
    st.(requests := st.requests[i := x.(state := Rejected, reason := Some(motivo.GetOr(DefaultReason)))],
        notifications := st.notifications + [x.student])
  }

  /** The `accion` field: 'aprobar', 'rechazar', or anything else (absent
      included). */
  datatype Action = Approve | Refuse | Unknown

  function ActionOf(action: Option<string>): (a: Action)
    ensures a == Approve <==> action == Some("aprobar")
    ensures a == Refuse <==> action == Some("rechazar")
  {
    if action == Some("aprobar") then Approve
    else if action == Some("rechazar") then Refuse
    else Unknown
  }

  /** `gestionar_solicitud`: any signed-in user; the request must exist. A
      teacher ("2") acts on 'pendiente' requests only, an administrator ("1")
      on 'pendiente_admin' ones only; other roles and actions other than
      'aprobar' and 'rechazar' are refused. The administrator's approval needs
      enough general stock; it takes the quantity from it and adds it to the
      student's extra share. */
  function AfterManage(st: DbState, caller: User, id: RequestId, action: Option<string>, motivo: Option<string>): Step {
    if !IsAuthenticated(caller) then Step(Err(Forbidden), st)
    else match FindRequest(st.requests, id)
      case None => Step(Err(NotFound), st)
      case Some(i) =>
        if caller.rol == TeacherRole then TeacherDecides(st, i, action, motivo)
        else if caller.rol == AdminRole then AdminDecides(st, i, action, motivo)
        else Step(Err(InvalidAction), st)
  }

  /** The teacher's branch on the request at position i. */
  function TeacherDecides(st: DbState, i: nat, action: Option<string>, motivo: Option<string>): Step
    requires i < |st.requests|
  {
    var x := st.requests[i];
    if x.state != AwaitingTeacher then Step(Err(Forbidden), st)
    else if ActionOf(action) == Approve then Step(Ok, st.(requests := st.requests[i := x.(state := AwaitingAdmin)]))
    else if ActionOf(action) == Refuse then Step(Ok, Reject(st, i, motivo))
    else Step(Err(InvalidAction), st)
  }

  /** The administrator's branch on the request at position i. */
  function AdminDecides(st: DbState, i: nat, action: Option<string>, motivo: Option<string>): Step
    requires i < |st.requests|
  {
    var x := st.requests[i];
    if x.state != AwaitingAdmin then Step(Err(Forbidden), st)
    else if ActionOf(action) == Approve then
      if x.supply !in st.supplies then Step(Err(ServerError), st)
      else if st.supplies[x.supply].total < x.requested then Step(Err(InsufficientStock), st)
      else Step(Ok, st.(supplies := AddStock(st.supplies, x.supply, -x.requested),
                        shares := AddExtra(st.shares, ShareKey(x.lesson, x.student, x.supply), x.requested),
                        requests := st.requests[i := x.(state := Approved)],
                        notifications := st.notifications + [x.student]))
    else if ActionOf(action) == Refuse then Step(Ok, Reject(st, i, motivo))
    else Step(Err(InvalidAction), st)
  }

  /** The request state machine: a teacher moves 'pendiente' on, an
      administrator settles 'pendiente_admin'. */
  predicate Transition(from: RequestState, to: RequestState) {
    || (from == AwaitingTeacher && (to == AwaitingAdmin || to == Rejected))
    || (from == AwaitingAdmin && (to == Approved || to == Rejected))
  }

  /** One call changes at most the addressed request, along the state
      machine and only by the role that owns its current state; approved and
      rejected requests are final. Whatever else happens, every other request
      is untouched. */
  lemma ManageFollowsStateMachine(st: DbState, caller: User, id: RequestId, action: Option<string>, motivo: Option<string>)
    ensures var st' := AfterManage(st, caller, id, action, motivo).st;
            && |st'.requests| == |st.requests|
            && forall j :: 0 <= j < |st.requests| ==>
                 && st'.requests[j].id == st.requests[j].id
                 && (st'.requests[j].state != st.requests[j].state ==>
                       && st.requests[j].id == id
                       && Transition(st.requests[j].state, st'.requests[j].state)
                       && (st.requests[j].state == AwaitingTeacher ==> caller.rol == TeacherRole)
                       && (st.requests[j].state == AwaitingAdmin ==> caller.rol == AdminRole))
                 && (st.requests[j].id != id ==> st'.requests[j] == st.requests[j])
  {
    var st' := AfterManage(st, caller, id, action, motivo).st;
    ManageShape(st, caller, id, action, motivo);
    if st'.requests != st.requests {
      var i := FindRequest(st.requests, id).value;
      UpdateOneRequest(st.requests, i, st'.requests[i], id, caller.rol);
    }
  }

  /** A call that changes the requests replaces the addressed one by a
      successor state of the caller's role, under the same key. */
  lemma ManageShape(st: DbState, caller: User, id: RequestId, action: Option<string>, motivo: Option<string>)
    ensures var st' := AfterManage(st, caller, id, action, motivo).st;
            st'.requests != st.requests ==>
              && FindRequest(st.requests, id).Some?
              && var i := FindRequest(st.requests, id).value;
                 var x := st.requests[i];
                 && st'.requests == st.requests[i := st'.requests[i]]
                 && x.id == id && st'.requests[i].id == id && Transition(x.state, st'.requests[i].state)
                 && (x.state == AwaitingTeacher ==> caller.rol == TeacherRole)
                 && (x.state == AwaitingAdmin ==> caller.rol == AdminRole)
  {
    if IsAuthenticated(caller) && FindRequest(st.requests, id).Some? {
      var i := FindRequest(st.requests, id).value;
      if caller.rol == TeacherRole {
        TeacherShape(st, i, action, motivo);
      } else if caller.rol == AdminRole {
        AdminShape(st, i, action, motivo);
      }
    }
  }

  /** A teacher moves only a 'pendiente' request, to 'pendiente_admin' or
      'rechazado'. */
  lemma TeacherShape(st: DbState, i: nat, action: Option<string>, motivo: Option<string>)
    requires i < |st.requests|
    ensures var st' := TeacherDecides(st, i, action, motivo).st;
            st'.requests != st.requests ==>
              && st'.requests == st.requests[i := st'.requests[i]]
              && st'.requests[i].id == st.requests[i].id
              && st.requests[i].state == AwaitingTeacher
              && st'.requests[i].state in {AwaitingAdmin, Rejected}
  {
  }

  /** An administrator moves only a 'pendiente_admin' request, to 'aprobado'
      or 'rechazado'. */
  lemma AdminShape(st: DbState, i: nat, action: Option<string>, motivo: Option<string>)
    requires i < |st.requests|
    ensures var st' := AdminDecides(st, i, action, motivo).st;
            st'.requests != st.requests ==>
              && st'.requests == st.requests[i := st'.requests[i]]
              && st'.requests[i].id == st.requests[i].id
              && st.requests[i].state == AwaitingAdmin
              && st'.requests[i].state in {Approved, Rejected}
  {
  }

  /** Replacing the request at i by one with the same key, along the state
      machine, changes no other request. */
  lemma UpdateOneRequest(a: seq<SupplyRequest>, i: nat, y: SupplyRequest, id: RequestId, rol: string)
    requires i < |a| && a[i].id == id && y.id == id && Transition(a[i].state, y.state)
    requires a[i].state == AwaitingTeacher ==> rol == TeacherRole
    requires a[i].state == AwaitingAdmin ==> rol == AdminRole
    ensures var b := a[i := y];
            forall j :: 0 <= j < |a| ==>
              && b[j].id == a[j].id
              && (b[j].state != a[j].state ==>
                    && a[j].id == id
                    && Transition(a[j].state, b[j].state)
                    && (a[j].state == AwaitingTeacher ==> rol == TeacherRole)
                    && (a[j].state == AwaitingAdmin ==> rol == AdminRole))
              && (a[j].id != id ==> b[j] == a[j])
  {
  }

  /** Approved and rejected requests are final: every call on them is refused
      and changes nothing. */
  lemma SettledRequestsAreFinal(st: DbState, caller: User, i: nat, action: Option<string>, motivo: Option<string>)
    requires UniqueRequestIds(st.requests)
    requires i < |st.requests| && st.requests[i].state in {Approved, Rejected}
    ensures AfterManage(st, caller, st.requests[i].id, action, motivo).st == st
    ensures AfterManage(st, caller, st.requests[i].id, action, motivo).out.Err?
  {
    var k := FindRequest(st.requests, st.requests[i].id);
    assert k.Some? && k.value == i;
  }

  /** A refused call changes nothing. A call that is not signed in, or whose
      caller's role does not own the request's state, is forbidden; a role
      other than teacher and administrator, or an action other than
      'aprobar' and 'rechazar', is an invalid action. */
  lemma ManageRefusalsChangeNothing(st: DbState, caller: User, i: nat, action: Option<string>, motivo: Option<string>)
    requires UniqueRequestIds(st.requests) && i < |st.requests|
    requires var x := st.requests[i];
             || !IsAuthenticated(caller)
             || (caller.rol != TeacherRole && caller.rol != AdminRole)
             || (action != Some("aprobar") && action != Some("rechazar"))
             || (caller.rol == TeacherRole && x.state != AwaitingTeacher)
             || (caller.rol == AdminRole && x.state != AwaitingAdmin)
    ensures var x := st.requests[i];
            var r := AfterManage(st, caller, x.id, action, motivo);
            var misplaced := (caller.rol == TeacherRole && x.state != AwaitingTeacher)
                             || (caller.rol == AdminRole && x.state != AwaitingAdmin);
            && r.st == st
            && r.out == if !IsAuthenticated(caller) || misplaced then Err(Forbidden) else Err(InvalidAction)
  {
    var k := FindRequest(st.requests, st.requests[i].id);
    assert k.Some? && k.value == i;
  }

  /** A call on a request that does not exist is answered NotFound. */
  lemma ManageUnknownRequest(st: DbState, caller: User, id: RequestId, action: Option<string>, motivo: Option<string>)
    requires IsAuthenticated(caller)
    requires forall j :: 0 <= j < |st.requests| ==> st.requests[j].id != id
    ensures AfterManage(st, caller, id, action, motivo) == Step(Err(NotFound), st)
  {
  }

  /** The administrator's approval moves exactly the requested quantity from
      the general stock to the student's extra share, creating an empty share
      if there was none and leaving the base share as it was; the request is
      'aprobado' and the student is notified, but `cantidad_aprobada` stays
      unset. Without enough stock nothing changes. */
  lemma AdminApproval(st: DbState, caller: User, i: nat)
    requires Valid(st) && IsAuthenticated(caller) && caller.rol == AdminRole
    requires i < |st.requests| && st.requests[i].state == AwaitingAdmin
    requires st.requests[i].supply in st.supplies
    ensures var x := st.requests[i];
            var r := AfterManage(st, caller, x.id, Some("aprobar"), None);
            var k := ShareKey(x.lesson, x.student, x.supply);
            && (st.supplies[x.supply].total < x.requested ==> r == Step(Err(InsufficientStock), st))
            && (st.supplies[x.supply].total >= x.requested ==>
                  && r.out == Ok
                  && r.st.supplies[x.supply].total == st.supplies[x.supply].total - x.requested
                  && ExtraOf(r.st.shares, k) == ExtraOf(st.shares, k) + x.requested
                  && ShareOf(r.st.shares, k).Some?
                  && ShareOf(r.st.shares, k).value.baseQty == (if ShareOf(st.shares, k).Some? then ShareOf(st.shares, k).value.baseQty else 0.0)
                  && (forall k' :: k' != k ==> ShareOf(r.st.shares, k') == ShareOf(st.shares, k'))
                  && r.st.requests[i].state == Approved
                  && r.st.requests[i].approved == x.approved
                  && r.st.notifications == st.notifications + [x.student]
                  && |r.st.requests| == |st.requests|
                  && (forall j :: 0 <= j < |st.requests| && j != i ==> r.st.requests[j] == st.requests[j])
                  && r.st.supplies.Keys == st.supplies.Keys
                  && (forall t :: t in st.supplies && t != x.supply ==> r.st.supplies[t] == st.supplies[t])
                  && r.st.lessons == st.lessons && r.st.subjects == st.subjects
                  && r.st.allocations == st.allocations && r.st.participations == st.participations)
  {
    var x := st.requests[i];
    assert RequestOk(x, st.lessons.Keys, st.supplies.Keys, st.nextRequestId);
    var k0 := FindRequest(st.requests, x.id);
    assert k0.Some? && k0.value == i;
    AddExtraEffect(st.shares, ShareKey(x.lesson, x.student, x.supply), x.requested);
  }

  lemma AddExtraEffect(d: seq<Share>, k: ShareKey, q: real)
    requires UniqueShareKeys(d)
    ensures var d' := AddExtra(d, k, q);
            && UniqueShareKeys(d')
            && ShareOf(d', k).Some?
            && ShareOf(d', k).value == (if ShareOf(d, k).Some? then ShareOf(d, k).value.(extra := ShareOf(d, k).value.extra + q)
                                        else Share(k, 0.0, q))
            && (forall k' :: k' != k ==> ShareOf(d', k') == ShareOf(d, k'))
            && (forall x :: x in d' ==> x in d || x == ShareOf(d', k).value)
  {
    var d' := AddExtra(d, k, q);
    match FindShare(d, k)
    case None =>
      assert forall x :: x in d' ==> x in d || x == Share(k, 0.0, q);
      ShareOfUnique(d', Share(k, 0.0, q));
      forall k' | k' != k ensures ShareOf(d', k') == ShareOf(d, k') {
        if ShareOf(d, k').Some? {
          ShareOfUnique(d', ShareOf(d, k').value);
        }
      }
    case Some(i) =>
      assert forall j :: 0 <= j < |d'| ==> d'[j].key == d[j].key;
      ShareOfUnique(d, d[i]);
      ShareOfUnique(d', d'[i]);
      forall k' | k' != k ensures ShareOf(d', k') == ShareOf(d, k') {
        if ShareOf(d, k').Some? {
          ShareOfUnique(d', ShareOf(d, k').value);
        } else {
          assert forall x :: x in d' ==> x in d || x.key == k;
        }
      }
  }

  /** Approval looks neither at the class's state nor at the class's
      balance: a request passed on to the administrator before the class was
      finished is still approved from the general stock afterwards. */
  lemma ApprovalIgnoresClassState(st: DbState, caller: User, i: nat)
    requires Valid(st) && IsAuthenticated(caller) && caller.rol == AdminRole
    requires i < |st.requests| && st.requests[i].state == AwaitingAdmin
    requires st.requests[i].lesson in st.lessons && st.requests[i].supply in st.supplies
    requires st.lessons[st.requests[i].lesson].state == Finished
    requires st.supplies[st.requests[i].supply].total >= st.requests[i].requested
    ensures AfterManage(st, caller, st.requests[i].id, Some("aprobar"), None).out == Ok
  {
    assert RequestOk(st.requests[i], st.lessons.Keys, st.supplies.Keys, st.nextRequestId);
    var k0 := FindRequest(st.requests, st.requests[i].id);
    assert k0.Some? && k0.value == i;
  }

  /** Rejection by the role that owns the request's state records the given
      reason, or the default one when none is sent, and notifies the student. */
  lemma RejectionReason(st: DbState, caller: User, i: nat, motivo: Option<string>)
    requires UniqueRequestIds(st.requests) && IsAuthenticated(caller)
    requires i < |st.requests|
    requires (caller.rol == TeacherRole && st.requests[i].state == AwaitingTeacher)
          || (caller.rol == AdminRole && st.requests[i].state == AwaitingAdmin)
    ensures var r := AfterManage(st, caller, st.requests[i].id, Some("rechazar"), motivo);
            && r.out == Ok
            && r.st.requests[i].state == Rejected
            && r.st.requests[i].reason == Some(if motivo.Some? then motivo.value else "Sin motivo proporcionado.")
            && r.st.notifications == st.notifications + [st.requests[i].student]
            && r.st.supplies == st.supplies && r.st.shares == st.shares
  {
    var k0 := FindRequest(st.requests, st.requests[i].id);
    assert k0.Some? && k0.value == i;
  }

  lemma AfterManageValid(st: DbState, caller: User, id: RequestId, action: Option<string>, motivo: Option<string>)
    requires Valid(st)
    ensures Valid(AfterManage(st, caller, id, action, motivo).st)
  {
    if IsAuthenticated(caller) && FindRequest(st.requests, id).Some? {
      var i := FindRequest(st.requests, id).value;
      if caller.rol == TeacherRole {
        TeacherDecidesValid(st, i, action, motivo);
      } else if caller.rol == AdminRole {
        AdminDecidesValid(st, i, action, motivo);
      }
    }
  }

  /** Changing one request's state and reason keeps the request rows valid. */
  lemma RequestsOkRestate(st: DbState, i: nat, y: SupplyRequest)
    requires Valid(st) && i < |st.requests|
    requires y == st.requests[i].(state := y.state, reason := y.reason)
    ensures RequestsOk(st.requests[i := y], st.lessons.Keys, st.supplies.Keys, st.nextRequestId)
  {
    var r := st.requests[i := y];
    assert RequestOk(st.requests[i], st.lessons.Keys, st.supplies.Keys, st.nextRequestId);
    forall z | z in r ensures RequestOk(z, st.lessons.Keys, st.supplies.Keys, st.nextRequestId) {
      var j :| 0 <= j < |r| && r[j] == z;
      assert RequestOk(st.requests[j], st.lessons.Keys, st.supplies.Keys, st.nextRequestId);
    }
  }

  /** A new state and reason for one request, and any notifications, keep
      the invariant. */
  lemma ValidRestate(st: DbState, i: nat, y: SupplyRequest, notes: seq<UserId>)
    requires Valid(st) && i < |st.requests|
    requires y == st.requests[i].(state := y.state, reason := y.reason)
    ensures Valid(st.(requests := st.requests[i := y], notifications := notes))
  {
    RequestsOkRestate(st, i, y);
  }

  lemma TeacherDecidesValid(st: DbState, i: nat, action: Option<string>, motivo: Option<string>)
    requires Valid(st) && i < |st.requests|
    ensures Valid(TeacherDecides(st, i, action, motivo).st)
  {
    var x := st.requests[i];
    if x.state == AwaitingTeacher && ActionOf(action) == Approve {
      ValidRestate(st, i, x.(state := AwaitingAdmin), st.notifications);
    } else if x.state == AwaitingTeacher && ActionOf(action) == Refuse {
      ValidRestate(st, i, x.(state := Rejected, reason := Some(motivo.GetOr(DefaultReason))), st.notifications + [x.student]);
    }
  }

  lemma AdminDecidesValid(st: DbState, i: nat, action: Option<string>, motivo: Option<string>)
    requires Valid(st) && i < |st.requests|
    ensures Valid(AdminDecides(st, i, action, motivo).st)
  {
    var r := AdminDecides(st, i, action, motivo);
    var x := st.requests[i];
    if r.out == Ok && ActionOf(action) == Approve {
      RequestsOkRestate(st, i, r.st.requests[i]);
      var k := ShareKey(x.lesson, x.student, x.supply);
      assert RequestOk(x, st.lessons.Keys, st.supplies.Keys, st.nextRequestId);
      AddExtraEffect(st.shares, k, x.requested);
      if ShareOf(st.shares, k).Some? {
        assert ShareOk(ShareOf(st.shares, k).value, st.lessons.Keys, st.supplies.Keys);
      }
    } else if r.out == Ok {
      ValidRestate(st, i, x.(state := Rejected, reason := Some(motivo.GetOr(DefaultReason))), st.notifications + [x.student]);
    }
  }

  /** The handler. */
  method Manage(db: Db, caller: User, id: RequestId, action: Option<string>, motivo: Option<string>) returns (r: Outcome)
    requires Valid(db.tables)
    modifies db
    ensures Step(r, db.tables) == AfterManage(old(db.tables), caller, id, action, motivo)
    ensures Valid(db.tables)
  {
    AfterManageValid(db.tables, caller, id, action, motivo);
    if !IsAuthenticated(caller) {
      return Err(Forbidden);
    }
    var found := FindRequest(db.tables.requests, id);
    if found.None? {
      return Err(NotFound);
    }
    var i := found.value;
    var x := db.tables.requests[i];
    if caller.rol == TeacherRole {
      if x.state != AwaitingTeacher {
        return Err(Forbidden);
      }
      if action == Some("aprobar") {
        db.tables := db.tables.(requests := db.tables.requests[i := x.(state := AwaitingAdmin)]);
        return Ok;
      } else if action == Some("rechazar") {
        db.tables := Reject(db.tables, i, motivo);
        return Ok;
      }
    } else if caller.rol == AdminRole {
      if x.state != AwaitingAdmin {
        return Err(Forbidden);
      }
      if action == Some("aprobar") {
        if x.supply !in db.tables.supplies {
          return Err(ServerError);
        }
        var supply := db.tables.supplies[x.supply];
        if supply.total < x.requested {
          return Err(InsufficientStock);
        }
        db.tables := db.tables.(supplies := db.tables.supplies[x.supply := supply.(total := supply.total - x.requested)]);
        var k := ShareKey(x.lesson, x.student, x.supply);
        var at := FindShare(db.tables.shares, k);
        if at.None? {
          db.tables := db.tables.(shares := db.tables.shares + [Share(k, 0.0, 0.0).(extra := 0.0 + x.requested)]);
        } else {
          var share := db.tables.shares[at.value];
          db.tables := db.tables.(shares := db.tables.shares[at.value := share.(extra := share.extra + x.requested)]);
        }
        db.tables := db.tables.(requests := db.tables.requests[i := x.(state := Approved)],
                                notifications := db.tables.notifications + [x.student]);
        return Ok;
      } else if action == Some("rechazar") {
        db.tables := Reject(db.tables, i, motivo);
        return Ok;
      }
    }
    r := Err(InvalidAction);
  }
}
