/** Editing and deleting a supply (`InsumoView`, insumosApp/views.py): both
    are refused when the change would pull the supply from under a class in
    progress. */
module Supplies {
  import opened Model
  import opened Queries
  import opened Permissions

  /** `ClaseInsumo.objects.filter(insumo=s, clase__estado="iniciada").exists()`. */
  predicate InStartedClass(st: DbState, s: SupplyId) {
    exists i :: 0 <= i < |st.allocations| && st.allocations[i].supply == s
                && st.allocations[i].lesson in st.lessons
                && st.lessons[st.allocations[i].lesson].state == Started
  }

  // ===== perform_update =====

  /** The fields of the request body; an absent one keeps its value. */
  datatype SupplyPatch = SupplyPatch(name: Option<string>, total: Option<real>)

  function Patched(x: Supply, p: SupplyPatch): Supply {
    Supply(p.name.GetOr(x.name), p.total.GetOr(x.total))
  }

  /** An update: the supply must exist, the serializer refuses a negative
      `cantidad_total`, and the guard refuses a new name while the supply is
      allocated to a started class. */
  function AfterUpdateSupply(st: DbState, caller: User, s: SupplyId, p: SupplyPatch): Step {
    if !IsAuthenticated(caller) then Step(Err(Forbidden), st)
    else if s !in st.supplies then Step(Err(NotFound), st)
    else if p.total.Some? && p.total.value < 0.0 then Step(Err(InvalidInput), st)
    else if InStartedClass(st, s) && p.name.Some? && p.name.value != st.supplies[s].name then Step(Err(SupplyInUse), st)
    else Step(Ok, st.(supplies := st.supplies[s := Patched(st.supplies[s], p)]))
  }

  /** A supply allocated to a started class cannot be renamed: the request
      is refused and nothing is saved. */
  lemma RenameBlockedWhileStarted(st: DbState, caller: User, s: SupplyId, p: SupplyPatch)
    requires IsAuthenticated(caller) && s in st.supplies
    requires p.total.None? || p.total.value >= 0.0
    requires p.name.Some? && p.name.value != st.supplies[s].name
    ensures AfterUpdateSupply(st, caller, s, p).out == Ok <==> !InStartedClass(st, s)
    ensures InStartedClass(st, s) ==> AfterUpdateSupply(st, caller, s, p) == Step(Err(SupplyInUse), st)
  {
  }

  /** An update that keeps the name is saved even while the supply is
      allocated to a started class; in particular `cantidad_total` can be
      lowered below what the started classes still hold. Only that supply
      row changes. */
  lemma QuantityEditAllowed(st: DbState, caller: User, s: SupplyId, q: real)
    requires IsAuthenticated(caller) && s in st.supplies && q >= 0.0
    ensures var r := AfterUpdateSupply(st, caller, s, SupplyPatch(None, Some(q)));
            && r.out == Ok
            && r.st.supplies[s] == Supply(st.supplies[s].name, q)
            && r.st == st.(supplies := r.st.supplies)
            && (forall t :: t != s ==> (t in r.st.supplies <==> t in st.supplies))
            && (forall t :: t in st.supplies && t != s ==> r.st.supplies[t] == st.supplies[t])
  {
  }

  lemma AfterUpdateSupplyValid(st: DbState, caller: User, s: SupplyId, p: SupplyPatch)
    requires Valid(st)
    ensures Valid(AfterUpdateSupply(st, caller, s, p).st)
  {
  }

  /** The handler. */
  method UpdateSupply(db: Db, caller: User, s: SupplyId, p: SupplyPatch) returns (r: Outcome)
    requires Valid(db.tables)
    modifies db
    ensures Step(r, db.tables) == AfterUpdateSupply(old(db.tables), caller, s, p)
    ensures Valid(db.tables)
  {
    AfterUpdateSupplyValid(db.tables, caller, s, p);
    if !IsAuthenticated(caller) {
      return Err(Forbidden);
    }
    if s !in db.tables.supplies {
      return Err(NotFound);
    }
    if p.total.Some? && p.total.value < 0.0 {
      return Err(InvalidInput);
    }
    var current := db.tables.supplies[s];
    if InStartedClass(db.tables, s) && p.name.Some? && p.name.value != current.name {
      return Err(SupplyInUse);
    }
    db.tables := db.tables.(supplies := db.tables.supplies[s := Patched(current, p)]);
    r := Ok;
  }

  // ===== perform_destroy =====

  function AllocationsNotFor(rows: seq<Allocation>, s: SupplyId): (r: seq<Allocation>)
    ensures forall a :: a in r <==> a in rows && a.supply != s
  {
    if rows == [] then []
    else if rows[0].supply == s then AllocationsNotFor(rows[1..], s)
    else [rows[0]] + AllocationsNotFor(rows[1..], s)
  }

  function SharesNotFor(d: seq<Share>, s: SupplyId): (r: seq<Share>)
    ensures forall x :: x in r <==> x in d && x.key.supply != s
  {
    if d == [] then []
    else if d[0].key.supply == s then SharesNotFor(d[1..], s)
    else [d[0]] + SharesNotFor(d[1..], s)
  }

  function RequestsNotFor(q: seq<SupplyRequest>, s: SupplyId): (r: seq<SupplyRequest>)
    ensures forall x :: x in r <==> x in q && x.supply != s
  {
    if q == [] then []
    else if q[0].supply == s then RequestsNotFor(q[1..], s)
    else [q[0]] + RequestsNotFor(q[1..], s)
  }

  function SupplyHistoryNotFor(h: seq<SupplyHistoryRow>, s: SupplyId): (r: seq<SupplyHistoryRow>)
    ensures forall x :: x in r <==> x in h && x.supply != s
  {
    if h == [] then []
    else if h[0].supply == s then SupplyHistoryNotFor(h[1..], s)
    else [h[0]] + SupplyHistoryNotFor(h[1..], s)
  }

  function StudentHistoryNotFor(h: seq<StudentHistoryRow>, s: SupplyId): (r: seq<StudentHistoryRow>)
    ensures forall x :: x in r <==> x in h && x.supply != s
  {
    if h == [] then []
    else if h[0].supply == s then StudentHistoryNotFor(h[1..], s)
    else [h[0]] + StudentHistoryNotFor(h[1..], s)
  }

  lemma SharesNotForUnique(d: seq<Share>, s: SupplyId)
    requires UniqueShareKeys(d)
    ensures UniqueShareKeys(SharesNotFor(d, s))
  {
    if d != [] {
      SharesNotForUnique(d[1..], s);
      if d[0].key.supply != s {
        var r := SharesNotFor(d[1..], s);
        forall j | 0 <= j < |r| ensures d[0].key != r[j].key {
          assert r[j] in d[1..];
        }
      }
    }
  }

  lemma RequestsNotForUnique(q: seq<SupplyRequest>, s: SupplyId)
    requires UniqueRequestIds(q)
    ensures UniqueRequestIds(RequestsNotFor(q, s))
  {
    if q != [] {
      RequestsNotForUnique(q[1..], s);
      if q[0].supply != s {
        var r := RequestsNotFor(q[1..], s);
        forall j | 0 <= j < |r| ensures q[0].id != r[j].id {
          assert r[j] in q[1..];
        }
      }
    }
  }

  /** `insumo.delete()`: the row goes with every row pointing at it
      (allocations, shares, requests and both histories). */
  function DeleteSupply(st: DbState, s: SupplyId): DbState {
    st.(supplies := st.supplies - {s},
        allocations := AllocationsNotFor(st.allocations, s),
        shares := SharesNotFor(st.shares, s),
        requests := RequestsNotFor(st.requests, s),
        supplyHistory := SupplyHistoryNotFor(st.supplyHistory, s),
        studentHistory := StudentHistoryNotFor(st.studentHistory, s))
  }

  /** `InsumoView.destroy`: the supply must exist and must not be allocated
      to a started class. */
  function AfterDestroySupply(st: DbState, caller: User, s: SupplyId): Step {
    if !IsAuthenticated(caller) then Step(Err(Forbidden), st)
    else if s !in st.supplies then Step(Err(NotFound), st)
    else if InStartedClass(st, s) then Step(Err(SupplyInUse), st)
    else Step(Ok, DeleteSupply(st, s))
  }

  /** A deletion is refused exactly when the supply is allocated to a
      started class, and then nothing changes; allocations to pending,
      assigned or finished classes do not block it. A deleted supply leaves
      no row behind that points at it (allocations, shares, requests and
      both histories), every other row stays, and no other table changes. */
  lemma DestroySupplyEffect(st: DbState, caller: User, s: SupplyId)
    requires IsAuthenticated(caller) && s in st.supplies
    ensures var r := AfterDestroySupply(st, caller, s);
            && (r.out == Ok <==> forall a :: a in st.allocations && a.supply == s && a.lesson in st.lessons ==> st.lessons[a.lesson].state != Started)
            && (r.out != Ok ==> r == Step(Err(SupplyInUse), st))
            && (r.out == Ok ==>
                  && r.st.supplies.Keys == st.supplies.Keys - {s}
                  && (forall t :: t in r.st.supplies ==> r.st.supplies[t] == st.supplies[t])
                  && (forall a :: a in r.st.allocations <==> a in st.allocations && a.supply != s)
                  && (forall x :: x in r.st.shares <==> x in st.shares && x.key.supply != s)
                  && (forall x :: x in r.st.requests <==> x in st.requests && x.supply != s)
                  && (forall x :: x in r.st.supplyHistory <==> x in st.supplyHistory && x.supply != s)
                  && (forall x :: x in r.st.studentHistory <==> x in st.studentHistory && x.supply != s)
                  && r.st == st.(supplies := r.st.supplies, allocations := r.st.allocations, shares := r.st.shares,
                                 requests := r.st.requests, supplyHistory := r.st.supplyHistory,
                                 studentHistory := r.st.studentHistory))
  {
    if AfterDestroySupply(st, caller, s).out == Ok {
      forall a | a in st.allocations && a.supply == s && a.lesson in st.lessons
        ensures st.lessons[a.lesson].state != Started
      {
        var i :| 0 <= i < |st.allocations| && st.allocations[i] == a;
      }
    }
  }

  lemma AfterDestroySupplyValid(st: DbState, caller: User, s: SupplyId)
    requires Valid(st)
    ensures Valid(AfterDestroySupply(st, caller, s).st)
  {
    if AfterDestroySupply(st, caller, s).out == Ok {
      SharesNotForUnique(st.shares, s);
      RequestsNotForUnique(st.requests, s);
    }
  }

  /** The handler. */
  method DestroySupply(db: Db, caller: User, s: SupplyId) returns (r: Outcome)
    requires Valid(db.tables)
    modifies db
    ensures Step(r, db.tables) == AfterDestroySupply(old(db.tables), caller, s)
    ensures Valid(db.tables)
  {
    AfterDestroySupplyValid(db.tables, caller, s);
    if !IsAuthenticated(caller) {
      return Err(Forbidden);
    }
    if s !in db.tables.supplies {
      return Err(NotFound);
    }
    if InStartedClass(db.tables, s) {
      return Err(SupplyInUse);
    }
    db.tables := DeleteSupply(db.tables, s);
    r := Ok;
  }

  /** `InsumoEliminar`, a second view that deletes a supply, has no guard.
      It is routed only in insumosApp/urls.py, which no URL configuration of
      the project includes, so no request reaches it as the project stands;
      were it mounted, it would delete a supply allocated to a started class,
      and the students of that class would lose their shares of it. */
  function AfterDestroySupplyUnguarded(st: DbState, caller: User, s: SupplyId): Step {
    if !IsAuthenticated(caller) then Step(Err(Forbidden), st)
    else if s !in st.supplies then Step(Err(NotFound), st)
    else Step(Ok, DeleteSupply(st, s))
  }

  lemma UnguardedRouteBypassesGuard(st: DbState, caller: User, s: SupplyId, x: Share)
    requires IsAuthenticated(caller) && s in st.supplies && InStartedClass(st, s)
    requires x in st.shares && x.key.supply == s
    ensures AfterDestroySupply(st, caller, s).out == Err(SupplyInUse)
    ensures AfterDestroySupplyUnguarded(st, caller, s).out == Ok
    ensures x !in AfterDestroySupplyUnguarded(st, caller, s).st.shares
  {
  }
}
