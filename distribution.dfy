/** Handing a class's balance out to its students: `distribuir_insumos`, run
    when a class starts, and the per-student share `participar` creates for
    a late arrival (subjectsApp/views.py). */
module Distribution {
  import opened Model
  import opened Queries
  import opened Decimal
  import opened Permissions

  // ===== ClaseDistribucion upserts =====

  /** `get_or_create(clase, alumno, insumo, defaults={cantidad_asignada: base})`
      followed, for an existing row, by overwriting `cantidad_asignada`. */
  function SetBase(d: seq<Share>, k: ShareKey, base: real): seq<Share> {
    match FindShare(d, k)
    case None => d + [Share(k, base, 0.0)]
    case Some(i) => d[i := d[i].(baseQty := base)]
  }

  /** The share under k ends up with the new base quantity and its previous
      extra (0 for a new row); every other key keeps its share, and keys stay
      unique. */
  lemma SetBaseEffect(d: seq<Share>, k: ShareKey, base: real)
    requires UniqueShareKeys(d)
    ensures var d' := SetBase(d, k, base);
            && UniqueShareKeys(d')
            && ShareOf(d', k) == Some(Share(k, base, ExtraOf(d, k)))
            && (forall k' :: k' != k ==> ShareOf(d', k') == ShareOf(d, k'))
            && (forall x :: x in d' ==> x in d || x == Share(k, base, ExtraOf(d, k)))
  {
    var d' := SetBase(d, k, base);
    match FindShare(d, k)
    case None =>
      assert forall x :: x in d' ==> x in d || x == Share(k, base, 0.0);
      ShareOfUnique(d', Share(k, base, 0.0));
      forall k' | k' != k ensures ShareOf(d', k') == ShareOf(d, k') {
        if ShareOf(d, k').Some? {
          ShareOfUnique(d', ShareOf(d, k').value);
        }
      }
    case Some(i) =>
      assert forall j :: 0 <= j < |d'| ==> d'[j].key == d[j].key;
      ShareOfUnique(d, d[i]);
      ShareOfUnique(d', d'[i]);
      forall k' | k' != k ensures ShareOf(d', k') == ShareOf(d, k') {
        if ShareOf(d, k').Some? {
          ShareOfUnique(d', ShareOf(d, k').value);
        } else {
          assert forall x :: x in d' ==> x in d || x.key == k;
        }
      }
  }

  /** The inner loop of `distribuir_insumos`: every participant, in order,
      gets `base` of supply s in class c. */
  function ShareAmong(d: seq<Share>, c: LessonId, s: SupplyId, students: seq<UserId>, base: real): seq<Share>
    decreases |students|
  {
    if students == [] then d
    else ShareAmong(SetBase(d, ShareKey(c, students[0], s), base), c, s, students[1..], base)
  }

  /** After the inner loop every listed student holds exactly `base` of s in
      class c, with the extra granted before kept; all other keys are as before. */
  lemma {:induction false} ShareAmongEffect(d: seq<Share>, c: LessonId, s: SupplyId, students: seq<UserId>, base: real)
    requires UniqueShareKeys(d)
    ensures var d' := ShareAmong(d, c, s, students, base);
            && UniqueShareKeys(d')
            && (forall u :: u in students ==>
                  ShareOf(d', ShareKey(c, u, s)) == Some(Share(ShareKey(c, u, s), base, ExtraOf(d, ShareKey(c, u, s)))))
            && (forall k: ShareKey :: (k.lesson != c || k.supply != s || k.student !in students) ==> ShareOf(d', k) == ShareOf(d, k))
    decreases |students|
  {
    if students != [] {
      var k0 := ShareKey(c, students[0], s);
      var d1 := SetBase(d, k0, base);
      SetBaseEffect(d, k0, base);
      ShareAmongEffect(d1, c, s, students[1..], base);
      var d' := ShareAmong(d1, c, s, students[1..], base);
      forall u | u in students
        ensures ShareOf(d', ShareKey(c, u, s)) == Some(Share(ShareKey(c, u, s), base, ExtraOf(d, ShareKey(c, u, s))))
      {
        if u !in students[1..] {
          assert u == students[0];
        } else if u != students[0] {
          assert ExtraOf(d1, ShareKey(c, u, s)) == ExtraOf(d, ShareKey(c, u, s));
        }
      }
    }
  }

  /** The invariant's share conditions survive the inner loop when the class
      and supply exist and the base is not negative. */
  lemma {:induction false} ShareAmongOk(d: seq<Share>, c: LessonId, s: SupplyId, students: seq<UserId>, base: real,
                                       lessonIds: set<LessonId>, supplyIds: set<SupplyId>)
    requires SharesOk(d, lessonIds, supplyIds) && c in lessonIds && s in supplyIds && base >= 0.0
    ensures SharesOk(ShareAmong(d, c, s, students, base), lessonIds, supplyIds)
    decreases |students|
  {
    if students != [] {
      var k0 := ShareKey(c, students[0], s);
      SetBaseEffect(d, k0, base);
      if ShareOf(d, k0).Some? {
        assert ShareOk(ShareOf(d, k0).value, lessonIds, supplyIds);
      }
      ShareAmongOk(SetBase(d, k0, base), c, s, students[1..], base, lessonIds, supplyIds);
    }
  }

  // ===== distribuir_insumos =====

  /** What is left of a row once each of p participants took qty/n of it. */
  function Remainder(qty: real, n: nat, p: nat): real
    requires n > 0
  {
    Max0(qty - (qty / n as real) * p as real)
  }

  /** The loop over the class's rows: every participant gets a share of
      Round2(qty/n) of the row's supply, and the row keeps what the
      unrounded shares leave. Rows of other classes pass through. */
  function Distribute(rows: seq<Allocation>, d: seq<Share>, c: LessonId, students: seq<UserId>, n: nat): (seq<Allocation>, seq<Share>)
    requires n > 0
    decreases |rows|
  {
    if rows == [] then ([], d)
    else
      var a := rows[0];
      if a.lesson != c then
        var (rest, d') := Distribute(rows[1..], d, c, students, n);
        ([a] + rest, d')
      else
        var d1 := ShareAmong(d, c, a.supply, students, Round2(a.qty / n as real));
        var (rest, d') := Distribute(rows[1..], d1, c, students, n);
        ([a.(qty := Remainder(a.qty, n, |students|))] + rest, d')
  }

  /** The number of students enrolled in the class's subject
      (`clase.asignatura.alumnos.count()`). */
  function Enrolled(st: DbState, c: LessonId): nat
    requires c in st.lessons
  {
    var sj := st.lessons[c].subject;
    if sj in st.subjects then |st.subjects[sj].students| else 0
  }

  /** `distribuir_insumos(clase)`: nothing happens when the class has no rows
      or no participants, nor when the subject has no students (every row is
      skipped); otherwise the rows and shares are those `Distribute` gives. */
  function Distributed(st: DbState, c: LessonId): DbState
    requires c in st.lessons
  {
    var students := Participants(st.participations, c);
    var n := Enrolled(st, c);
    if !HasRows(st.allocations, c) || students == [] || n == 0 then st
    else
      var (rows, d) := Distribute(st.allocations, st.shares, c, students, n);
      st.(allocations := rows, shares := d)
  }

  /** Row by row: a row of class c has its balance reduced to what the
      participants' unrounded shares leave (never below zero), every other
      row is untouched, and no row is added or removed. */
  lemma {:induction false} DistributeRows(rows: seq<Allocation>, d: seq<Share>, c: LessonId, students: seq<UserId>, n: nat)
    requires n > 0
    ensures var r := Distribute(rows, d, c, students, n).0;
            && |r| == |rows|
            && forall i :: 0 <= i < |rows| ==>
                 r[i] == if rows[i].lesson == c then rows[i].(qty := Remainder(rows[i].qty, n, |students|)) else rows[i]
    decreases |rows|
  {
    if rows != [] {
      var a := rows[0];
      var d1 := if a.lesson != c then d else ShareAmong(d, c, a.supply, students, Round2(a.qty / n as real));
      DistributeRows(rows[1..], d1, c, students, n);
    }
  }

  /** The shares after the loop: for a supply the class holds in exactly one
      row, every participant's base share is Round2(row balance / n) with the
      extra kept; keys of other classes, of non-participants and of supplies
      the class does not hold keep their share. */
  lemma {:induction false} DistributeShares(rows: seq<Allocation>, d: seq<Share>, c: LessonId, students: seq<UserId>, n: nat)
    requires n > 0 && UniqueShareKeys(d)
    ensures var d' := Distribute(rows, d, c, students, n).1;
            && UniqueShareKeys(d')
            && (forall k: ShareKey :: (k.lesson != c || k.student !in students || RowCount(rows, c, k.supply) == 0) ==>
                  ShareOf(d', k) == ShareOf(d, k))
            && (forall a, u :: a in rows && a.lesson == c && RowCount(rows, c, a.supply) == 1 && u in students ==>
                  ShareOf(d', ShareKey(c, u, a.supply))
                  == Some(Share(ShareKey(c, u, a.supply), Round2(a.qty / n as real), ExtraOf(d, ShareKey(c, u, a.supply)))))
    decreases |rows|
  {
    if rows != [] {
      var a0 := rows[0];
      var tail := rows[1..];
      var d1 := if a0.lesson != c then d else ShareAmong(d, c, a0.supply, students, Round2(a0.qty / n as real));
      if a0.lesson == c {
        ShareAmongEffect(d, c, a0.supply, students, Round2(a0.qty / n as real));
      }
      DistributeShares(tail, d1, c, students, n);
      var d' := Distribute(rows, d, c, students, n).1;
      assert d' == Distribute(tail, d1, c, students, n).1;
      forall a, u | a in rows && a.lesson == c && RowCount(rows, c, a.supply) == 1 && u in students
        ensures ShareOf(d', ShareKey(c, u, a.supply))
             == Some(Share(ShareKey(c, u, a.supply), Round2(a.qty / n as real), ExtraOf(d, ShareKey(c, u, a.supply))))
      {
        var k := ShareKey(c, u, a.supply);
        if Matches(a0, c, a.supply) {
          assert RowCount(tail, c, a.supply) == 0;
          if a != a0 {
            assert a in tail;
            RowCountPositive(tail, a, c);
          }
        } else {
          assert a in tail;
          assert ExtraOf(d1, k) == ExtraOf(d, k);
        }
      }
    }
  }

  lemma {:induction false} RowCountPositive(rows: seq<Allocation>, a: Allocation, c: LessonId)
    requires a in rows && a.lesson == c
    ensures RowCount(rows, c, a.supply) >= 1
    decreases |rows|
  {
    if rows[0] != a {
      RowCountPositive(rows[1..], a, c);
    }
  }

  /** The invariant survives the loop over the rows. */
  lemma {:induction false} DistributeOk(rows: seq<Allocation>, d: seq<Share>, c: LessonId, students: seq<UserId>, n: nat,
                                       lessonIds: set<LessonId>, supplyIds: set<SupplyId>)
    requires n > 0 && c in lessonIds
    requires AllocationsOk(rows, lessonIds, supplyIds) && SharesOk(d, lessonIds, supplyIds)
    ensures SharesOk(Distribute(rows, d, c, students, n).1, lessonIds, supplyIds)
    decreases |rows|
  {
    if rows != [] {
      var a := rows[0];
      assert AllocationOk(a, lessonIds, supplyIds);
      if a.lesson == c {
        Round2NonNegative(a.qty / n as real);
        ShareAmongOk(d, c, a.supply, students, Round2(a.qty / n as real), lessonIds, supplyIds);
        DistributeOk(rows[1..], ShareAmong(d, c, a.supply, students, Round2(a.qty / n as real)), c, students, n, lessonIds, supplyIds);
      } else {
        DistributeOk(rows[1..], d, c, students, n, lessonIds, supplyIds);
      }
    }
  }

  lemma DistributedValid(st: DbState, c: LessonId)
    requires Valid(st) && c in st.lessons
    ensures Valid(Distributed(st, c))
  {
    var students := Participants(st.participations, c);
    var n := Enrolled(st, c);
    if HasRows(st.allocations, c) && students != [] && n != 0 {
      DistributeRows(st.allocations, st.shares, c, students, n);
      DistributeOk(st.allocations, st.shares, c, students, n, st.lessons.Keys, st.supplies.Keys);
      var rows := Distribute(st.allocations, st.shares, c, students, n).0;
      forall a | a in rows ensures AllocationOk(a, st.lessons.Keys, st.supplies.Keys) {
        var i :| 0 <= i < |rows| && rows[i] == a;
        assert AllocationOk(st.allocations[i], st.lessons.Keys, st.supplies.Keys);
      }
    }
  }

  /** The three cases in which `distribuir_insumos` changes nothing. */
  lemma DistributeNoOp(st: DbState, c: LessonId)
    requires c in st.lessons
    requires !HasRows(st.allocations, c) || Participants(st.participations, c) == [] || Enrolled(st, c) == 0
    ensures Distributed(st, c) == st
  {
  }

  /** When no more students take part than are enrolled, each row of the class
      keeps exactly its balance minus the unrounded shares handed out; with
      more participants than enrolled students (participation does not check
      enrolment) the row is clamped to zero although the shares add up to
      more than it held. */
  lemma RemainderMeaning(qty: real, n: nat, p: nat)
    requires n > 0 && qty >= 0.0
    ensures p <= n ==> Remainder(qty, n, p) == qty - (qty / n as real) * p as real
    ensures p > n && qty > 0.0 ==> Remainder(qty, n, p) == 0.0 && (qty / n as real) * p as real > qty
  {
    if p <= n {
      assert (qty / n as real) * p as real <= (qty / n as real) * n as real;
    } else if qty > 0.0 {
      assert (qty / n as real) * p as real > (qty / n as real) * n as real;
    }
  }

  /** The inner loop: `get_or_create` and overwrite, participant by participant. */
  method ShareOut(d0: seq<Share>, c: LessonId, s: SupplyId, students: seq<UserId>, base: real) returns (d: seq<Share>)
    ensures d == ShareAmong(d0, c, s, students, base)
  {
    d := d0;
    var j := 0;
    while j < |students|
      invariant 0 <= j <= |students|
      invariant ShareAmong(d, c, s, students[j..], base) == ShareAmong(d0, c, s, students, base)
    {
      assert students[j..][1..] == students[j + 1..];
      var k := ShareKey(c, students[j], s);
      var found := FindShare(d, k);
      if found.None? {
        d := d + [Share(k, base, 0.0)];
      } else {
        d := d[found.value := d[found.value].(baseQty := base)];
      }
      j := j + 1;
    }
    assert students[j..] == [];
  }

  /** The outer loop, over every row in order: rows of class c are shared out
      and reduced, other rows are kept as they are. */
  method DistributeLoop(rows: seq<Allocation>, d0: seq<Share>, c: LessonId, students: seq<UserId>, n: nat)
    returns (kept: seq<Allocation>, d: seq<Share>)
    requires n > 0
    ensures (kept, d) == Distribute(rows, d0, c, students, n)
  {
    ghost var target := Distribute(rows, d0, c, students, n);
    kept, d := [], d0;
    var i := 0;
    assert rows[i..] == rows;
    while i < |rows|
      invariant 0 <= i <= |rows|
      invariant kept + Distribute(rows[i..], d, c, students, n).0 == target.0
      invariant Distribute(rows[i..], d, c, students, n).1 == target.1
    {
      assert rows[i..][1..] == rows[i + 1..];
      ghost var dBefore := d;
      ghost var keptBefore := kept;
      var a := rows[i];
      if a.lesson == c {
        var base := Round2(a.qty / n as real);
        d := ShareOut(d, c, a.supply, students, base);
        var left := Remainder(a.qty, n, |students|);
        kept := kept + [a.(qty := left)];
      } else {
        kept := kept + [a];
      }
      ghost var rest := Distribute(rows[i + 1..], d, c, students, n);
      assert Distribute(rows[i..], dBefore, c, students, n) == ([kept[|keptBefore|]] + rest.0, rest.1);
      assert kept + rest.0 == keptBefore + ([kept[|keptBefore|]] + rest.0);
      i := i + 1;
    }
    assert rows[i..] == [];
    assert Distribute([], d, c, students, n) == ([], d);
    assert kept + [] == kept;
  }

  /** `distribuir_insumos(clase)` on the database. */
  method DistributeSupplies(db: Db, c: LessonId)
    requires Valid(db.tables) && c in db.tables.lessons
    modifies db
    ensures db.tables == Distributed(old(db.tables), c)
    ensures Valid(db.tables)
  {
    DistributedValid(db.tables, c);
    var students := Participants(db.tables.participations, c);
    if !HasRows(db.tables.allocations, c) || students == [] {
      return;
    }
    var n := Enrolled(db.tables, c);
    if n == 0 {
      return;
    }
    var rows, d := DistributeLoop(db.tables.allocations, db.tables.shares, c, students, n);
    db.tables := db.tables.(allocations := rows, shares := d);
  }

  // ===== participar =====

  /** The loop of `participar` over the class's rows: a student without a
      share of the row's supply gets one of the unrounded balance / n, with
      no extra; an existing share is left alone. */
  function JoinShares(d: seq<Share>, rows: seq<Allocation>, c: LessonId, u: UserId, n: nat): seq<Share>
    requires n > 0
    decreases |rows|
  {
    if rows == [] then d
    else
      var a := rows[0];
      var k := ShareKey(c, u, a.supply);
      var d1 := if a.lesson == c && FindShare(d, k).None? then d + [Share(k, a.qty / n as real, 0.0)] else d;
      JoinShares(d1, rows[1..], c, u, n)
  }

  /** The loop only appends, and the appended keys are new. */
  lemma {:induction false} JoinSharesGrows(d: seq<Share>, rows: seq<Allocation>, c: LessonId, u: UserId, n: nat)
    requires n > 0 && UniqueShareKeys(d)
    ensures var d' := JoinShares(d, rows, c, u, n);
            && UniqueShareKeys(d')
            && |d| <= |d'| && d'[..|d|] == d
    decreases |rows|
  {
    if rows != [] {
      var a := rows[0];
      var k0 := ShareKey(c, u, a.supply);
      var isNew := a.lesson == c && FindShare(d, k0).None?;
      var d1 := if isNew then d + [Share(k0, a.qty / n as real, 0.0)] else d;
      assert UniqueShareKeys(d1);
      JoinSharesGrows(d1, rows[1..], c, u, n);
      var d' := JoinShares(d, rows, c, u, n);
      assert d'[..|d|] == d1[..|d1|][..|d|];
    }
  }

  /** Appending a share with a new key leaves every other key's share alone. */
  lemma AppendShareOthers(d: seq<Share>, x: Share)
    requires UniqueShareKeys(d) && ShareOf(d, x.key).None?
    ensures UniqueShareKeys(d + [x])
    ensures forall k: ShareKey :: k != x.key ==> ShareOf(d + [x], k) == ShareOf(d, k)
  {
    var d1 := d + [x];
    forall k: ShareKey | k != x.key ensures ShareOf(d1, k) == ShareOf(d, k) {
      if ShareOf(d, k).Some? {
        ShareOfUnique(d1, ShareOf(d, k).value);
      }
    }
  }

  /** The loop touches no key but the student's keys in class c for supplies
      the class holds and that had no share yet. */
  lemma {:induction false} JoinSharesKeeps(d: seq<Share>, rows: seq<Allocation>, c: LessonId, u: UserId, n: nat)
    requires n > 0 && UniqueShareKeys(d)
    ensures var d' := JoinShares(d, rows, c, u, n);
            forall k: ShareKey :: (ShareOf(d, k).Some? || k.lesson != c || k.student != u || RowCount(rows, c, k.supply) == 0) ==>
              ShareOf(d', k) == ShareOf(d, k)
    decreases |rows|
  {
    if rows != [] {
      var a := rows[0];
      var k0 := ShareKey(c, u, a.supply);
      var isNew := a.lesson == c && FindShare(d, k0).None?;
      var d1 := if isNew then d + [Share(k0, a.qty / n as real, 0.0)] else d;
      if isNew {
        AppendShareOthers(d, Share(k0, a.qty / n as real, 0.0));
      }
      JoinSharesKeeps(d1, rows[1..], c, u, n);
    }
  }

  /** A share the loop creates holds the balance / n of the class's first row
      of that supply, and no extra. */
  lemma {:induction false} JoinSharesCreates(d: seq<Share>, rows: seq<Allocation>, c: LessonId, u: UserId, n: nat, s: SupplyId)
    requires n > 0 && UniqueShareKeys(d)
    requires ShareOf(d, ShareKey(c, u, s)).None? && RowCount(rows, c, s) >= 1
    ensures ShareOf(JoinShares(d, rows, c, u, n), ShareKey(c, u, s))
         == Some(Share(ShareKey(c, u, s), rows[FirstRow(rows, c, s).value].qty / n as real, 0.0))
    decreases |rows|
  {
    var a := rows[0];
    var k := ShareKey(c, u, s);
    if Matches(a, c, s) {
      var d1 := d + [Share(k, a.qty / n as real, 0.0)];
      assert UniqueShareKeys(d1);
      ShareOfUnique(d1, Share(k, a.qty / n as real, 0.0));
      JoinSharesKeeps(d1, rows[1..], c, u, n);
    } else {
      var k0 := ShareKey(c, u, a.supply);
      var isNew := a.lesson == c && FindShare(d, k0).None?;
      var d1 := if isNew then d + [Share(k0, a.qty / n as real, 0.0)] else d;
      assert ShareOf(d1, k).None?;
      assert UniqueShareKeys(d1);
      JoinSharesCreates(d1, rows[1..], c, u, n, s);
      assert FirstRow(rows, c, s).value == FirstRow(rows[1..], c, s).value + 1;
    }
  }

  /** The invariant's share conditions survive the loop. */
  lemma {:induction false} JoinSharesOk(d: seq<Share>, rows: seq<Allocation>, c: LessonId, u: UserId, n: nat,
                                       lessonIds: set<LessonId>, supplyIds: set<SupplyId>)
    requires n > 0 && c in lessonIds
    requires SharesOk(d, lessonIds, supplyIds) && AllocationsOk(rows, lessonIds, supplyIds)
    ensures SharesOk(JoinShares(d, rows, c, u, n), lessonIds, supplyIds)
    decreases |rows|
  {
    if rows != [] {
      var a := rows[0];
      assert AllocationOk(a, lessonIds, supplyIds);
      var k0 := ShareKey(c, u, a.supply);
      var d1 := if a.lesson == c && FindShare(d, k0).None? then d + [Share(k0, a.qty / n as real, 0.0)] else d;
      assert SharesOk(d1, lessonIds, supplyIds);
      JoinSharesOk(d1, rows[1..], c, u, n, lessonIds, supplyIds);
    }
  }

  /** `if not alumno_id`: an absent id, and the id 0, mean "the caller". */
  predicate Falsy(alumno: Option<UserId>) {
    alumno.None? || alumno.value == 0
  }

  /** `participar`: the caller must be signed in and the class must exist. With
      no student id the caller registers themself and must have role "3";
      with one, that user must exist with role "3". The class must be
      'iniciada'. A repeat registration answers "already participating" and
      changes nothing. When the class has rows and the subject has no
      students, the division by zero aborts the transaction. Otherwise the
      participation is recorded and the missing shares are created. */
  function AfterParticipate(st: DbState, caller: User, callerId: UserId, c: LessonId, alumno: Option<UserId>): Step {
    if !IsAuthenticated(caller) then Step(Err(Forbidden), st)
    else if c !in st.lessons then Step(Err(NotFound), st)
    else if Falsy(alumno) && caller.rol != StudentRole then Step(Err(Forbidden), st)
    else if !Falsy(alumno) && !(alumno.value in st.roles && st.roles[alumno.value] == StudentRole) then Step(Err(NotFound), st)
    else
      var u := if Falsy(alumno) then callerId else alumno.value;
      if st.lessons[c].state != Started then Step(Err(InvalidState), st)
      else if Participation(c, u) in st.participations then Step(AlreadyParticipating, st)
      else
        var n := Enrolled(st, c);
        if n == 0 then
          if HasRows(st.allocations, c) then Step(Err(ServerError), st)
          else Step(Ok, st.(participations := st.participations + [Participation(c, u)]))
        else Step(Ok, st.(participations := st.participations + [Participation(c, u)],
                          shares := JoinShares(st.shares, st.allocations, c, u, n)))
  }

  /** Who registers: the caller when no id is given, the named student otherwise. */
  function Registrant(callerId: UserId, alumno: Option<UserId>): UserId {
    if Falsy(alumno) then callerId else alumno.value
  }

  lemma AfterParticipateValid(st: DbState, caller: User, callerId: UserId, c: LessonId, alumno: Option<UserId>)
    requires Valid(st)
    ensures Valid(AfterParticipate(st, caller, callerId, c, alumno).st)
  {
    var r := AfterParticipate(st, caller, callerId, c, alumno);
    if r.out == Ok {
      var u := Registrant(callerId, alumno);
      var p' := st.participations + [Participation(c, u)];
      forall i, j | 0 <= i < j < |p'| ensures p'[i] != p'[j] {
        if j == |p'| - 1 {
          assert p'[i] in st.participations;
        }
      }
      var n := Enrolled(st, c);
      if n > 0 {
        JoinSharesOk(st.shares, st.allocations, c, u, n, st.lessons.Keys, st.supplies.Keys);
      }
    }
  }

  /** A class that is not 'iniciada' refuses, and a second registration of the
      same student reports it and changes nothing. */
  lemma ParticipateRefusals(st: DbState, caller: User, callerId: UserId, c: LessonId, alumno: Option<UserId>)
    requires IsAuthenticated(caller) && c in st.lessons
    requires Falsy(alumno) ==> caller.rol == StudentRole
    requires !Falsy(alumno) ==> alumno.value in st.roles && st.roles[alumno.value] == StudentRole
    ensures var r := AfterParticipate(st, caller, callerId, c, alumno);
            && (st.lessons[c].state != Started ==> r == Step(Err(InvalidState), st))
            && (st.lessons[c].state == Started && Participation(c, Registrant(callerId, alumno)) in st.participations ==>
                  r == Step(AlreadyParticipating, st))
  {
  }

  /** Only students register: without an id a caller of another role is
      refused, and an id that is not a student's is not found. */
  lemma ParticipateOnlyStudents(st: DbState, caller: User, callerId: UserId, c: LessonId, alumno: Option<UserId>)
    requires AfterParticipate(st, caller, callerId, c, alumno).out == Ok
    ensures Falsy(alumno) ==> caller.rol == StudentRole
    ensures !Falsy(alumno) ==> st.roles[alumno.value] == StudentRole
    ensures st.lessons[c].state == Started
  {
  }

  /** A first registration records the participation and gives the student a
      share of every supply the class holds, without touching any allocation
      balance, any share that existed, or anything of another student. */
  lemma ParticipateEffect(st: DbState, caller: User, callerId: UserId, c: LessonId, alumno: Option<UserId>)
    requires Valid(st)
    requires AfterParticipate(st, caller, callerId, c, alumno).out == Ok
    ensures var st' := AfterParticipate(st, caller, callerId, c, alumno).st;
            var u := Registrant(callerId, alumno);
            && st'.participations == st.participations + [Participation(c, u)]
            && st'.allocations == st.allocations
            && st'.supplies == st.supplies
            && st'.lessons == st.lessons
            && |st.shares| <= |st'.shares| && st'.shares[..|st.shares|] == st.shares
            && (forall k: ShareKey :: k.lesson != c || k.student != u ==> ShareOf(st'.shares, k) == ShareOf(st.shares, k))
            && (forall a :: a in st.allocations && a.lesson == c ==> ShareOf(st'.shares, ShareKey(c, u, a.supply)).Some?)
  {
    var u := Registrant(callerId, alumno);
    var n := Enrolled(st, c);
    if n > 0 {
      JoinSharesGrows(st.shares, st.allocations, c, u, n);
      JoinSharesKeeps(st.shares, st.allocations, c, u, n);
      var d' := JoinShares(st.shares, st.allocations, c, u, n);
      forall a | a in st.allocations && a.lesson == c ensures ShareOf(d', ShareKey(c, u, a.supply)).Some? {
        RowCountPositive(st.allocations, a, c);
        if ShareOf(st.shares, ShareKey(c, u, a.supply)).None? {
          JoinSharesCreates(st.shares, st.allocations, c, u, n, a.supply);
        }
      }
    } else {
      assert !HasRows(st.allocations, c);
    }
  }

  /** A share created for a late participant holds the balance / n of the
      class's first row of that supply, unrounded, and no extra. */
  lemma ParticipateShareAmount(st: DbState, caller: User, callerId: UserId, c: LessonId, alumno: Option<UserId>, s: SupplyId)
    requires Valid(st)
    requires AfterParticipate(st, caller, callerId, c, alumno).out == Ok
    requires RowCount(st.allocations, c, s) >= 1
    requires ShareOf(st.shares, ShareKey(c, Registrant(callerId, alumno), s)).None?
    ensures var k := ShareKey(c, Registrant(callerId, alumno), s);
            ShareOf(AfterParticipate(st, caller, callerId, c, alumno).st.shares, k)
            == Some(Share(k, st.allocations[FirstRow(st.allocations, c, s).value].qty / Enrolled(st, c) as real, 0.0))
  {
    var i := FirstRow(st.allocations, c, s).value;
    assert st.allocations[i].lesson == c;
    JoinSharesCreates(st.shares, st.allocations, c, Registrant(callerId, alumno), Enrolled(st, c), s);
  }

  /** The rows of the class with no enrolled student make the division fail:
      the participation is not recorded. */
  lemma ParticipateDivisionByZero(st: DbState, caller: User, callerId: UserId, c: LessonId, alumno: Option<UserId>)
    requires c in st.lessons && IsAuthenticated(caller)
    requires Falsy(alumno) && caller.rol == StudentRole
    requires st.lessons[c].state == Started && Participation(c, callerId) !in st.participations
    requires HasRows(st.allocations, c) && Enrolled(st, c) == 0
    ensures AfterParticipate(st, caller, callerId, c, alumno) == Step(Err(ServerError), st)
  {
  }

  /** The loop over the class's rows. */
  method JoinLoop(d0: seq<Share>, rows: seq<Allocation>, c: LessonId, u: UserId, n: nat) returns (d: seq<Share>)
    requires n > 0
    ensures d == JoinShares(d0, rows, c, u, n)
  {
    d := d0;
    var i := 0;
    assert rows[i..] == rows;
    while i < |rows|
      invariant 0 <= i <= |rows|
      invariant JoinShares(d, rows[i..], c, u, n) == JoinShares(d0, rows, c, u, n)
    {
      assert rows[i..][1..] == rows[i + 1..];
      var a := rows[i];
      if a.lesson == c {
        var k := ShareKey(c, u, a.supply);
        if FindShare(d, k).None? {
          d := d + [Share(k, a.qty / n as real, 0.0)];
        }
      }
      i := i + 1;
    }
    assert rows[i..] == [];
  }

  /** The handler. */
  method Participate(db: Db, caller: User, callerId: UserId, c: LessonId, alumno: Option<UserId>) returns (r: Outcome)
    requires Valid(db.tables)
    modifies db
    ensures Step(r, db.tables) == AfterParticipate(old(db.tables), caller, callerId, c, alumno)
    ensures Valid(db.tables)
  {
    AfterParticipateValid(db.tables, caller, callerId, c, alumno);
    if !IsAuthenticated(caller) {
      return Err(Forbidden);
    }
    if c !in db.tables.lessons {
      return Err(NotFound);
    }
    var u: UserId;
    if Falsy(alumno) {
      if caller.rol != StudentRole {
        return Err(Forbidden);
      }
      u := callerId;
    } else {
      if !(alumno.value in db.tables.roles && db.tables.roles[alumno.value] == StudentRole) {
        return Err(NotFound);
      }
      u := alumno.value;
    }
    if db.tables.lessons[c].state != Started {
      return Err(InvalidState);
    }
    if Participation(c, u) in db.tables.participations {
      return AlreadyParticipating;
    }
    var n := Enrolled(db.tables, c);
    var d := db.tables.shares;
    if n == 0 {
      if HasRows(db.tables.allocations, c) {
        return Err(ServerError);
      }
    } else {
      d := JoinLoop(d, db.tables.allocations, c, u, n);
    }
    db.tables := db.tables.(participations := db.tables.participations + [Participation(c, u)], shares := d);
    r := Ok;
  }
}
