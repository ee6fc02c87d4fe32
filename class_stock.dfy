/** Earmarking general stock to a class and giving it back:
    `ClaseViewSet.asignar_insumos`, `quitar_insumos`, `insumos_asignados`
    and `destroy` (subjectsApp/views.py). */
module ClassStock {
  import opened Model
  import opened Queries
  import opened Decimal
  import opened Cascades

  // ===== asignar_insumos =====

  /** One entry of the request's `insumos` list: `insumo_id` when it is a
      Python int, `cantidad` when it is a number (None otherwise). */
  datatype AssignItem = AssignItem(supply: Option<int>, qty: Option<real>)

  /** The entry passes the type and sign check of views.py:358. */
  predicate WellFormed(item: AssignItem) {
    item.supply.Some? && item.qty.Some? && item.qty.value > 0.0
  }

  /** One pass of the loop of `asignar_insumos`: the database afterwards and
      whether the entry succeeded. With two or more rows for the pair,
      `get_or_create` raises after the stock has already been taken, and
      the handler's catch-all records the entry as failed. */
  function AssignOne(st: DbState, c: LessonId, item: AssignItem): (r: (DbState, bool))
    ensures r.0 == st.(supplies := r.0.supplies, allocations := r.0.allocations)
    ensures !r.1 ==> r.0.allocations == st.allocations
  {
    if !WellFormed(item) || item.supply.value !in st.supplies then (st, false)
    else
      var s, q := item.supply.value, item.qty.value;
      if st.supplies[s].total >= q then
        var taken := st.(supplies := AddStock(st.supplies, s, -q));
        match FirstRow(st.allocations, c, s)
        case None => (taken.(allocations := st.allocations + [Allocation(c, s, q)]), true)
        case Some(i) =>
          if RowCount(st.allocations, c, s) == 1
          then (taken.(allocations := st.allocations[i := st.allocations[i].(qty := st.allocations[i].qty + q)]), true)
          else (taken, false)
      else (st, false)
  }

  /** The loop over the entries, from the current one on; `failed` says
      whether an earlier entry failed. */
  function AssignFrom(st: DbState, c: LessonId, items: seq<AssignItem>, failed: bool): (DbState, bool)
    decreases |items|
  {
    if items == [] then (st, failed)
    else
      var (st1, ok) := AssignOne(st, c, items[0]);
      AssignFrom(st1, c, items[1..], failed || !ok)
  }

  /** `asignar_insumos`: the class must exist and the list be non-empty.
      Entries are applied one by one; the handler returns from inside the
      atomic block, so what succeeded stays committed even when another
      entry failed. Only when none failed does the class become 'asignada'
      with `insumos_asignados` set; the class state is never checked. */
  function AfterAssign(st: DbState, c: LessonId, items: seq<AssignItem>): Step {
    if c !in st.lessons then Step(Err(NotFound), st)
    else if items == [] then Step(Err(MissingInput), st)
    else
      var (st1, failed) := AssignFrom(st, c, items, false);
      AssignFromFrame(st, c, items, false);
      if failed then Step(Err(ItemsRejected), st1)
      else Step(Ok, st1.(lessons := st1.lessons[c := st1.lessons[c].(state := Assigned, suppliesAssigned := true)]))
  }

  lemma AssignFromFrame(st: DbState, c: LessonId, items: seq<AssignItem>, failed: bool)
    ensures var r := AssignFrom(st, c, items, failed);
            r.0 == st.(supplies := r.0.supplies, allocations := r.0.allocations)
    ensures failed ==> AssignFrom(st, c, items, failed).1
    decreases |items|
  {
    if items != [] {
      var (st1, ok) := AssignOne(st, c, items[0]);
      AssignFromFrame(st1, c, items[1..], failed || !ok);
    }
  }

  lemma AssignOneValid(st: DbState, c: LessonId, item: AssignItem)
    requires Valid(st) && c in st.lessons
    ensures Valid(AssignOne(st, c, item).0)
  {
    if WellFormed(item) && item.supply.value in st.supplies && st.supplies[item.supply.value].total >= item.qty.value {
      var s, q := item.supply.value, item.qty.value;
      var st' := AssignOne(st, c, item).0;
      assert StockNonNegative(st'.supplies);
      match FirstRow(st.allocations, c, s)
      case None =>
        assert forall a :: a in st'.allocations ==> a in st.allocations || a == Allocation(c, s, q);
      case Some(i) =>
        if RowCount(st.allocations, c, s) == 1 {
          assert AllocationOk(st.allocations[i], st.lessons.Keys, st.supplies.Keys);
          assert forall a :: a in st'.allocations ==> a in st.allocations || a == st.allocations[i].(qty := st.allocations[i].qty + q);
        }
    }
  }

  lemma {:induction false} AssignFromValid(st: DbState, c: LessonId, items: seq<AssignItem>, failed: bool)
    requires Valid(st) && c in st.lessons
    ensures Valid(AssignFrom(st, c, items, failed).0)
    decreases |items|
  {
    if items != [] {
      var (st1, ok) := AssignOne(st, c, items[0]);
      AssignOneValid(st, c, items[0]);
      AssignFromValid(st1, c, items[1..], failed || !ok);
    }
  }

  /** Whatever the outcome, `asignar_insumos` keeps the database invariant
      (no negative stock, every row pointing at an existing class and supply). */
  lemma AfterAssignValid(st: DbState, c: LessonId, items: seq<AssignItem>)
    requires Valid(st)
    ensures Valid(AfterAssign(st, c, items).st)
  {
    if c in st.lessons && items != [] {
      AssignFromValid(st, c, items, false);
      AssignFromFrame(st, c, items, false);
      var st1 := AssignFrom(st, c, items, false).0;
      SaveLessonValid(st1, c, st1.lessons[c].(state := Assigned, suppliesAssigned := true));
    }
  }

  /** A well-formed entry for an existing supply with enough stock, whose pair
      has at most one row, moves exactly q from the supply's stock to the
      class's balance for that supply, and touches no other supply or pair. */
  lemma AssignOneMoves(st: DbState, c: LessonId, item: AssignItem)
    requires WellFormed(item) && item.supply.value in st.supplies
    requires st.supplies[item.supply.value].total >= item.qty.value
    requires RowCount(st.allocations, c, item.supply.value) <= 1
    ensures var (st', ok) := AssignOne(st, c, item);
            var s, q := item.supply.value, item.qty.value;
            && ok
            && st'.supplies == AddStock(st.supplies, s, -q)
            && Allocated(st'.allocations, c, s) == Allocated(st.allocations, c, s) + q
            && (forall c', t :: (c', t) != (c, s) ==> Allocated(st'.allocations, c', t) == Allocated(st.allocations, c', t))
            && (forall t :: Earmarked(st'.allocations, t) == Earmarked(st.allocations, t) + (if t == s then q else 0.0))
  {
    var s, q := item.supply.value, item.qty.value;
    var rows := st.allocations;
    match FirstRow(rows, c, s)
    case None =>
      forall c', t ensures Allocated(rows + [Allocation(c, s, q)], c', t)
                         == Allocated(rows, c', t) + (if (c', t) == (c, s) then q else 0.0) {
        AllocatedAppend(rows, Allocation(c, s, q), c', t);
      }
      forall t ensures Earmarked(rows + [Allocation(c, s, q)], t) == Earmarked(rows, t) + (if t == s then q else 0.0) {
        AllocatedAppend(rows, Allocation(c, s, q), c, t);
      }
    case Some(i) =>
      forall c', t ensures Allocated(rows[i := rows[i].(qty := rows[i].qty + q)], c', t)
                         == Allocated(rows, c', t) + (if (c', t) == (c, s) then q else 0.0) {
        AllocatedUpdate(rows, i, rows[i].qty + q, c', t);
      }
      forall t ensures Earmarked(rows[i := rows[i].(qty := rows[i].qty + q)], t)
                     == Earmarked(rows, t) + (if t == s then q else 0.0) {
        AllocatedUpdate(rows, i, rows[i].qty + q, c, t);
      }
  }

  /** A malformed entry, an unknown supply or too little stock fails the entry
      and changes nothing. */
  lemma AssignOneRejects(st: DbState, c: LessonId, item: AssignItem)
    requires !WellFormed(item) || item.supply.value !in st.supplies
          || st.supplies[item.supply.value].total < item.qty.value
    ensures AssignOne(st, c, item) == (st, false)
  {
  }

  /** When the pair already has two or more rows, the entry fails but the
      stock taken just before `get_or_create` raised stays taken: the
      quantity leaves the general stock and is earmarked nowhere. */
  lemma AssignOneLosesStockOnDuplicateRows(st: DbState, c: LessonId, item: AssignItem)
    requires WellFormed(item) && item.supply.value in st.supplies
    requires st.supplies[item.supply.value].total >= item.qty.value
    requires RowCount(st.allocations, c, item.supply.value) >= 2
    ensures var (st', ok) := AssignOne(st, c, item);
            && !ok
            && st'.allocations == st.allocations
            && st'.supplies[item.supply.value].total == st.supplies[item.supply.value].total - item.qty.value
  {
  }

  /** The class becomes 'asignada' with its flag set exactly when the call
      succeeds; on failure the class row is untouched. Either way the stock
      and allocation tables are those the entry loop left behind. */
  lemma AssignOutcome(st: DbState, c: LessonId, items: seq<AssignItem>)
    requires c in st.lessons && items != []
    ensures var r := AfterAssign(st, c, items);
            var (st1, failed) := AssignFrom(st, c, items, false);
            && r.st.supplies == st1.supplies
            && r.st.allocations == st1.allocations
            && (r.out == Ok <==> !failed)
            && (r.out == Ok ==> r.st.lessons == st.lessons[c := st.lessons[c].(state := Assigned, suppliesAssigned := true)])
            && (r.out != Ok ==> r.st.lessons == st.lessons && r.out == Err(ItemsRejected))
  {
    AssignFromFrame(st, c, items, false);
  }

  /** Partial commit: a good entry followed by a malformed one answers with an
      error, yet the good entry's transfer stays in the database and the class
      state does not move. */
  lemma AssignPartialCommit(st: DbState, c: LessonId, good: AssignItem, bad: AssignItem)
    requires c in st.lessons && !WellFormed(bad)
    requires AssignOne(st, c, good).1
    ensures AfterAssign(st, c, [good, bad]) == Step(Err(ItemsRejected), AssignOne(st, c, good).0)
  {
    var st1 := AssignOne(st, c, good).0;
    assert [good, bad][1..] == [bad];
    assert [bad][1..] == [];
    assert AssignOne(st1, c, bad) == (st1, false);
    assert AssignFrom(st1, c, [bad], false) == AssignFrom(st1, c, [], true) == (st1, true);
    assert AssignFrom(st, c, [good, bad], false) == (st1, true);
  }

  /** An empty list, or an unknown class, is refused and changes nothing. */
  lemma AssignRefusals(st: DbState, c: LessonId, items: seq<AssignItem>)
    requires c !in st.lessons || items == []
    ensures AfterAssign(st, c, items).st == st && AfterAssign(st, c, items).out.Err?
  {
  }

  /** The handler: the loop over the entries, then the class update. */
  method AssignSupplies(db: Db, c: LessonId, items: seq<AssignItem>) returns (r: Outcome)
    requires Valid(db.tables)
    modifies db
    ensures Step(r, db.tables) == AfterAssign(old(db.tables), c, items)
    ensures Valid(db.tables)
  {
    if c !in db.tables.lessons {
      return Err(NotFound);
    }
    if items == [] {
      return Err(MissingInput);
    }
    ghost var st0 := db.tables;
    var failed := false;
    var i := 0;
    while i < |items|
      invariant 0 <= i <= |items|
      invariant db.tables == st0.(supplies := db.tables.supplies, allocations := db.tables.allocations)
      invariant AssignFrom(db.tables, c, items[i..], failed) == AssignFrom(st0, c, items, false)
      invariant Valid(db.tables)
    {
      ghost var before := db.tables;
      assert items[i..][1..] == items[i + 1..];
      var item := items[i];
      var ok := false;
      if WellFormed(item) && item.supply.value in db.tables.supplies {
        var s, q := item.supply.value, item.qty.value;
        var supply := db.tables.supplies[s];
        if supply.total >= q {
          db.tables := db.tables.(supplies := db.tables.supplies[s := supply.(total := supply.total - q)]);
          var n := RowCount(db.tables.allocations, c, s);
          if n == 0 {
            db.tables := db.tables.(allocations := db.tables.allocations + [Allocation(c, s, q)]);
            ok := true;
          } else if n == 1 {
            var k := FirstRow(db.tables.allocations, c, s).value;
            db.tables := db.tables.(allocations := db.tables.allocations[k := db.tables.allocations[k].(qty := db.tables.allocations[k].qty + q)]);
            ok := true;
          }
        }
      }
      assert (db.tables, ok) == AssignOne(before, c, item);
      AssignOneValid(before, c, item);
      failed := failed || !ok;
      i := i + 1;
    }
    AssignFromFrame(st0, c, items, false);
    if failed {
      return Err(ItemsRejected);
    }
    SaveLessonValid(db.tables, c, db.tables.lessons[c].(state := Assigned, suppliesAssigned := true));
    db.tables := db.tables.(lessons := db.tables.lessons[c := db.tables.lessons[c].(state := Assigned, suppliesAssigned := true)]);
    r := Ok;
  }

  // ===== quitar_insumos =====

  /** The countdown of views.py:482-497 over the rows of the pair (c, s), in
      order: a row not larger than what is left is deleted, a larger row is
      reduced by what is left, and once nothing is left (the `break`) the
      remaining rows stay as they are. Other pairs' rows are kept. */
  function Withdraw(rows: seq<Allocation>, c: LessonId, s: SupplyId, left: real): seq<Allocation>
  {
    if rows == [] then []
    else
      var a := rows[0];
      if !Matches(a, c, s) || left <= 0.0 then [a] + Withdraw(rows[1..], c, s, left)
      else if a.qty <= left then Withdraw(rows[1..], c, s, left - a.qty)
      else [a.(qty := a.qty - left)] + Withdraw(rows[1..], c, s, 0.0)
  }

  /** `quitar_insumos`: refused for a missing class, for a class that is
      'iniciada' or 'finalizada', and for a quantity that is not positive or
      exceeds the pair's summed balance. Otherwise the countdown runs and the
      supply's stock grows by the quantity. */
  function AfterUnassign(st: DbState, c: LessonId, s: SupplyId, q: real): Step {
    if c !in st.lessons then Step(Err(NotFound), st)
    else if st.lessons[c].state == Started || st.lessons[c].state == Finished then Step(Err(InvalidState), st)
    else if q <= 0.0 || q > Allocated(st.allocations, c, s) then Step(Err(InvalidQuantity), st)
    else if s !in st.supplies then Step(Err(NotFound), st)
    else Step(Ok, st.(allocations := Withdraw(st.allocations, c, s, q),
                      supplies := AddStock(st.supplies, s, q)))
  }

  /** Every row the countdown leaves is an untouched row, or a row of the
      pair reduced to a positive quantity: no row is driven to zero or below. */
  lemma {:induction false} WithdrawRows(rows: seq<Allocation>, c: LessonId, s: SupplyId, left: real)
    ensures forall a :: a in Withdraw(rows, c, s, left) ==>
              a in rows || (Matches(a, c, s) && a.qty > 0.0 && exists b :: b in rows && Matches(b, c, s) && a.qty < b.qty)
  {
    if rows != [] {
      WithdrawRows(rows[1..], c, s, if !Matches(rows[0], c, s) || left <= 0.0 then left
                                    else if rows[0].qty <= left then left - rows[0].qty else 0.0);
    }
  }

  /** Nothing left to withdraw: the rows are unchanged. */
  lemma {:induction false} WithdrawNothing(rows: seq<Allocation>, c: LessonId, s: SupplyId, left: real)
    requires left <= 0.0
    ensures Withdraw(rows, c, s, left) == rows
  {
    if rows != [] {
      WithdrawNothing(rows[1..], c, s, left);
    }
  }

  /** The countdown takes exactly `left` from the pair (c, s), provided the
      pair holds at least that much, and no other pair's balance moves. */
  lemma {:induction false} WithdrawExact(rows: seq<Allocation>, c: LessonId, s: SupplyId, left: real, c': LessonId, t: SupplyId)
    requires 0.0 <= left <= Allocated(rows, c, s)
    requires forall a :: a in rows ==> a.qty >= 0.0
    ensures Allocated(Withdraw(rows, c, s, left), c', t)
         == Allocated(rows, c', t) - (if (c', t) == (c, s) then left else 0.0)
    ensures Earmarked(Withdraw(rows, c, s, left), t)
         == Earmarked(rows, t) - (if t == s then left else 0.0)
  {
    if rows != [] {
      var a := rows[0];
      AllocatedNonNegative(rows[1..], c, s);
      if !Matches(a, c, s) || left <= 0.0 {
        if left <= 0.0 {
          WithdrawNothing(rows[1..], c, s, left);
        } else {
          WithdrawExact(rows[1..], c, s, left, c', t);
        }
      } else if a.qty <= left {
        WithdrawExact(rows[1..], c, s, left - a.qty, c', t);
      } else {
        WithdrawNothing(rows[1..], c, s, 0.0);
      }
    }
  }

  lemma AfterUnassignValid(st: DbState, c: LessonId, s: SupplyId, q: real)
    requires Valid(st)
    ensures Valid(AfterUnassign(st, c, s, q).st)
  {
    var r := AfterUnassign(st, c, s, q);
    if r.out == Ok {
      WithdrawRows(st.allocations, c, s, q);
      AllocatedNonNegative(st.allocations, c, s);
    }
  }

  /** A class that is 'iniciada' or 'finalizada' refuses, and so does a
      quantity that is not positive or exceeds the pair's balance; nothing
      changes in either case. */
  lemma UnassignRefusals(st: DbState, c: LessonId, s: SupplyId, q: real)
    requires c in st.lessons
    requires st.lessons[c].state in {Started, Finished} || q <= 0.0 || q > Allocated(st.allocations, c, s)
    ensures AfterUnassign(st, c, s, q).st == st
    ensures AfterUnassign(st, c, s, q).out
         == if st.lessons[c].state in {Started, Finished} then Err(InvalidState) else Err(InvalidQuantity)
  {
  }

  /** A successful `quitar_insumos` lowers the pair's balance by exactly q,
      raises the supply's stock by exactly q, leaves every other pair and
      supply alone, and so keeps stock plus earmarked balance constant. */
  lemma UnassignMovesExactly(st: DbState, c: LessonId, s: SupplyId, q: real)
    requires Valid(st)
    requires AfterUnassign(st, c, s, q).out == Ok
    ensures var st' := AfterUnassign(st, c, s, q).st;
            && Allocated(st'.allocations, c, s) == Allocated(st.allocations, c, s) - q
            && (forall c', t :: (c', t) != (c, s) ==> Allocated(st'.allocations, c', t) == Allocated(st.allocations, c', t))
            && st'.supplies[s].total == st.supplies[s].total + q
            && (forall t :: t in st.supplies && t != s ==> st'.supplies[t] == st.supplies[t])
            && (forall t :: t in st.supplies ==>
                  st'.supplies[t].total + Earmarked(st'.allocations, t) == st.supplies[t].total + Earmarked(st.allocations, t))
  {
    AllocatedNonNegative(st.allocations, c, s);
    forall c', t ensures Allocated(Withdraw(st.allocations, c, s, q), c', t)
                       == Allocated(st.allocations, c', t) - (if (c', t) == (c, s) then q else 0.0) {
      WithdrawExact(st.allocations, c, s, q, c', t);
    }
    forall t ensures Earmarked(Withdraw(st.allocations, c, s, q), t)
                   == Earmarked(st.allocations, t) - (if t == s then q else 0.0) {
      WithdrawExact(st.allocations, c, s, q, c, t);
    }
  }

  /** The handler: the countdown loop over the class's rows, then the stock. */
  method UnassignSupply(db: Db, c: LessonId, s: SupplyId, q: real) returns (r: Outcome)
    requires Valid(db.tables)
    modifies db
    ensures Step(r, db.tables) == AfterUnassign(old(db.tables), c, s, q)
    ensures Valid(db.tables)
  {
    AfterUnassignValid(db.tables, c, s, q);
    if c !in db.tables.lessons {
      return Err(NotFound);
    }
    if db.tables.lessons[c].state == Started || db.tables.lessons[c].state == Finished {
      return Err(InvalidState);
    }
    var available := Allocated(db.tables.allocations, c, s);
    if q <= 0.0 || q > available {
      return Err(InvalidQuantity);
    }
    var rows := db.tables.allocations;
    var kept: seq<Allocation> := [];
    var left := q;
    var i := 0;
    while i < |rows|
      invariant 0 <= i <= |rows|
      invariant kept + Withdraw(rows[i..], c, s, left) == Withdraw(rows, c, s, q)
      invariant db.tables == old(db.tables)
    {
      assert rows[i..][1..] == rows[i + 1..];
      var a := rows[i];
      if !Matches(a, c, s) || left <= 0.0 {
        kept := kept + [a];
      } else if a.qty <= left {
        left := left - a.qty;
      } else {
        kept := kept + [a.(qty := a.qty - left)];
        left := 0.0;
      }
      i := i + 1;
    }
    assert rows[i..] == [];
    if s !in db.tables.supplies {
      return Err(NotFound);
    }
    db.tables := db.tables.(allocations := kept);
    var supply := db.tables.supplies[s];
    db.tables := db.tables.(supplies := db.tables.supplies[s := supply.(total := supply.total + q)]);
    r := Ok;
  }

  // ===== insumos_asignados =====

  /** One line of the summary: the row's balance, the base shares handed out
      for that supply, and what remains (never below zero), the last two
      rounded to two places. */
  datatype SummaryLine = SummaryLine(supply: SupplyId, total: real, distributed: real, remaining: real)

  function SummaryLineOf(a: Allocation, d: seq<Share>, c: LessonId): SummaryLine {
    var handed := AssignedTotal(d, c, a.supply);
    SummaryLine(a.supply, a.qty, Round2(handed), Round2(Max0(a.qty - handed)))
  }

  /** The summary `insumos_asignados` answers: one line per row of the class. */
  function Summary(rows: seq<Allocation>, d: seq<Share>, c: LessonId): seq<SummaryLine> {
    if rows == [] then []
    else if rows[0].lesson == c then [SummaryLineOf(rows[0], d, c)] + Summary(rows[1..], d, c)
    else Summary(rows[1..], d, c)
  }

  /** What a summary line says about its row: the row's supply and balance,
      the base shares of that supply rounded to two places, and the balance
      minus those shares, floored at zero and rounded. Neither figure is
      negative, and the two add up to the balance within a cent whenever no
      more than the balance was handed out. */
  predicate Describes(line: SummaryLine, a: Allocation, d: seq<Share>, c: LessonId) {
    var handed := AssignedTotal(d, c, a.supply);
    && line.supply == a.supply
    && line.total == a.qty
    && line.distributed == Round2(handed)
    && line.remaining == Round2(Max0(a.qty - handed))
    && line.remaining >= 0.0
    && line.distributed >= 0.0
    && (handed <= a.qty ==> a.qty - 0.01 <= line.distributed + line.remaining <= a.qty + 0.01)
  }

  /** The summary has one line per row of the class, in order, and each line
      describes its row. */
  lemma {:induction false} SummaryMeaning(rows: seq<Allocation>, d: seq<Share>, c: LessonId)
    requires forall x :: x in d ==> x.baseQty >= 0.0
    ensures var lines := Summary(rows, d, c);
            var own := LessonRows(rows, c);
            && |lines| == |own|
            && forall k :: 0 <= k < |lines| ==> Describes(lines[k], own[k], d, c)
  {
    if rows != [] {
      SummaryMeaning(rows[1..], d, c);
      var a := rows[0];
      if a.lesson == c {
        var lines := Summary(rows, d, c);
        var own := LessonRows(rows, c);
        assert lines == [SummaryLineOf(a, d, c)] + Summary(rows[1..], d, c);
        assert own == [a] + LessonRows(rows[1..], c);
        LineMeaning(a, d, c);
      }
    }
  }

  /** The line of a single row describes it. */
  lemma LineMeaning(a: Allocation, d: seq<Share>, c: LessonId)
    requires forall x :: x in d ==> x.baseQty >= 0.0
    ensures Describes(SummaryLineOf(a, d, c), a, d, c)
  {
    var handed := AssignedTotal(d, c, a.supply);
    SharesNonNegative(d, c, a.supply);
    Round2NonNegative(handed);
    Round2NonNegative(Max0(a.qty - handed));
    Round2Error(handed);
    Round2Error(Max0(a.qty - handed));
  }

  lemma {:induction false} SharesNonNegative(d: seq<Share>, c: LessonId, s: SupplyId)
    requires forall x :: x in d ==> x.baseQty >= 0.0
    ensures AssignedTotal(d, c, s) >= 0.0
  {
    if d != [] {
      SharesNonNegative(d[1..], c, s);
    }
  }

  /** The read-only handler: a loop over the class's rows. */
  method SummarizeAllocations(db: Db, c: LessonId) returns (r: Outcome, lines: seq<SummaryLine>)
    ensures c !in db.tables.lessons ==> r == Err(NotFound) && lines == []
    ensures c in db.tables.lessons ==> r == Ok && lines == Summary(db.tables.allocations, db.tables.shares, c)
  {
    if c !in db.tables.lessons {
      return Err(NotFound), [];
    }
    var rows := db.tables.allocations;
    lines := [];
    var i := 0;
    while i < |rows|
      invariant 0 <= i <= |rows|
      invariant lines + Summary(rows[i..], db.tables.shares, c) == Summary(rows, db.tables.shares, c)
    {
      assert rows[i..][1..] == rows[i + 1..];
      if rows[i].lesson == c {
        var handed := AssignedTotal(db.tables.shares, c, rows[i].supply);
        var remaining := Max0(rows[i].qty - handed);
        lines := lines + [SummaryLine(rows[i].supply, rows[i].qty, Round2(handed), Round2(remaining))];
      }
      i := i + 1;
    }
    r := Ok;
  }

  // ===== destroy =====

  /** Crediting every row of class c back to its supply, row by row. */
  function CreditRows(m: map<SupplyId, Supply>, rows: seq<Allocation>, c: LessonId): (m': map<SupplyId, Supply>)
    ensures m'.Keys == m.Keys
  {
    if rows == [] then m
    else CreditRows(if rows[0].lesson == c then AddStock(m, rows[0].supply, rows[0].qty) else m, rows[1..], c)
  }

  /** Row by row crediting adds, to each supply, exactly the class's summed
      balance for it. */
  lemma {:induction false} CreditRowsSum(m: map<SupplyId, Supply>, rows: seq<Allocation>, c: LessonId)
    ensures forall t :: t in m ==> CreditRows(m, rows, c)[t] == m[t].(total := m[t].total + Allocated(rows, c, t))
  {
    if rows != [] {
      var m1 := if rows[0].lesson == c then AddStock(m, rows[0].supply, rows[0].qty) else m;
      CreditRowsSum(m1, rows[1..], c);
    }
  }

  /** Removing a class's rows removes exactly its balances from each supply's
      earmarked total. */
  lemma {:induction false} EarmarkedWithoutLesson(rows: seq<Allocation>, c: LessonId, t: SupplyId)
    ensures Earmarked(RowsNotOf(rows, c), t) == Earmarked(rows, t) - Allocated(rows, c, t)
  {
    if rows != [] {
      EarmarkedWithoutLesson(rows[1..], c, t);
    }
  }

  /** `ClaseViewSet.destroy`: refused for a class that is 'iniciada' or
      'finalizada'; otherwise every row's balance goes back to its supply
      before the class and everything pointing at it is deleted. */
  function AfterDestroyLesson(st: DbState, c: LessonId): Step {
    if c !in st.lessons then Step(Err(NotFound), st)
    else if st.lessons[c].state == Started || st.lessons[c].state == Finished then Step(Err(InvalidState), st)
    else Step(Ok, DeleteLesson(st.(supplies := CreditRows(st.supplies, st.allocations, c)), c))
  }

  lemma AfterDestroyLessonValid(st: DbState, c: LessonId)
    requires Valid(st)
    ensures Valid(AfterDestroyLesson(st, c).st)
  {
    if AfterDestroyLesson(st, c).out == Ok {
      CreditRowsSum(st.supplies, st.allocations, c);
      forall t | t in st.supplies ensures Allocated(st.allocations, c, t) >= 0.0 {
        AllocatedNonNegative(st.allocations, c, t);
      }
      DeleteLessonValid(st.(supplies := CreditRows(st.supplies, st.allocations, c)), c);
    }
  }

  /** A deleted class gives back every balance it held: each supply's stock
      rises by exactly the class's balance for it, so stock plus earmarked
      balance is unchanged; a started or finished class is not deleted. */
  lemma DestroyLessonReturnsStock(st: DbState, c: LessonId)
    requires c in st.lessons
    ensures var r := AfterDestroyLesson(st, c);
            && (st.lessons[c].state in {Started, Finished} ==> r == Step(Err(InvalidState), st))
            && (st.lessons[c].state !in {Started, Finished} ==>
                  && r.out == Ok
                  && c !in r.st.lessons
                  && (forall t :: t in st.supplies ==>
                        && r.st.supplies[t].total == st.supplies[t].total + Allocated(st.allocations, c, t)
                        && r.st.supplies[t].total + Earmarked(r.st.allocations, t)
                           == st.supplies[t].total + Earmarked(st.allocations, t)))
  {
    CreditRowsSum(st.supplies, st.allocations, c);
    forall t {
      EarmarkedWithoutLesson(st.allocations, c, t);
    }
  }

  /** The loop of the handler: each row of class c credits its supply. */
  method CreditLoop(supplies0: map<SupplyId, Supply>, rows: seq<Allocation>, c: LessonId) returns (supplies: map<SupplyId, Supply>)
    ensures supplies == CreditRows(supplies0, rows, c)
  {
    supplies := supplies0;
    var i := 0;
    assert rows[i..] == rows;
    while i < |rows|
      invariant 0 <= i <= |rows|
      invariant CreditRows(supplies, rows[i..], c) == CreditRows(supplies0, rows, c)
    {
      assert rows[i..][1..] == rows[i + 1..];
      var a := rows[i];
      if a.lesson == c && a.supply in supplies {
        supplies := supplies[a.supply := supplies[a.supply].(total := supplies[a.supply].total + a.qty)];
      }
      i := i + 1;
    }
    assert rows[i..] == [];
  }

  /** The handler: give each row back, then delete the class. */
  method DestroyLesson(db: Db, c: LessonId) returns (r: Outcome)
    requires Valid(db.tables)
    modifies db
    ensures Step(r, db.tables) == AfterDestroyLesson(old(db.tables), c)
    ensures Valid(db.tables)
  {
    AfterDestroyLessonValid(db.tables, c);
    if c !in db.tables.lessons {
      return Err(NotFound);
    }
    if db.tables.lessons[c].state == Started || db.tables.lessons[c].state == Finished {
      return Err(InvalidState);
    }
    var supplies := CreditLoop(db.tables.supplies, db.tables.allocations, c);
    db.tables := DeleteLesson(db.tables.(supplies := supplies), c);
    r := Ok;
  }
}
