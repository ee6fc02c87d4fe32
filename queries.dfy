/** The ORM queries the handlers run (`filter`, `Sum`, `get`, `count`),
    written as functions over the tables, with the facts about them that
    the handlers' proofs share. */
module Queries {
  import opened Model

  // ----- ClaseInsumo -----

  function Matches(a: Allocation, c: LessonId, s: SupplyId): bool {
    a.lesson == c && a.supply == s
  }

  /** `Sum('cantidad')` over `ClaseInsumo.objects.filter(clase=c, insumo=s)`. */
  function Allocated(rows: seq<Allocation>, c: LessonId, s: SupplyId): real {
    if rows == [] then 0.0
    else (if Matches(rows[0], c, s) then rows[0].qty else 0.0) + Allocated(rows[1..], c, s)
  }

  /** The balance earmarked for supply s over every class. */
  function Earmarked(rows: seq<Allocation>, s: SupplyId): real {
    if rows == [] then 0.0
    else (if rows[0].supply == s then rows[0].qty else 0.0) + Earmarked(rows[1..], s)
  }

  /** How many rows the pair (c, s) has. */
  function RowCount(rows: seq<Allocation>, c: LessonId, s: SupplyId): nat {
    if rows == [] then 0
    else (if Matches(rows[0], c, s) then 1 else 0) + RowCount(rows[1..], c, s)
  }

  /** The position of the first row of the pair (c, s), if any. */
  function FirstRow(rows: seq<Allocation>, c: LessonId, s: SupplyId): (r: Option<nat>)
    ensures r.None? <==> RowCount(rows, c, s) == 0
    ensures r.Some? ==> r.value < |rows| && Matches(rows[r.value], c, s)
  {
    if rows == [] then None
    else if Matches(rows[0], c, s) then Some(0)
    else match FirstRow(rows[1..], c, s)
      case None => None
      case Some(i) => Some(i + 1)
  }

  /** Does the class have any row (`ClaseInsumo.objects.filter(clase=c).exists()`)? */
  function HasRows(rows: seq<Allocation>, c: LessonId): bool {
    exists i :: 0 <= i < |rows| && rows[i].lesson == c
  }

  /** The rows of class c, in order (`ClaseInsumo.objects.filter(clase=c)`). */
  function LessonRows(rows: seq<Allocation>, c: LessonId): (r: seq<Allocation>)
    ensures forall a :: a in r <==> a in rows && a.lesson == c
  {
    if rows == [] then []
    else if rows[0].lesson == c then [rows[0]] + LessonRows(rows[1..], c)
    else LessonRows(rows[1..], c)
  }

  /** The rows of every other class, in order. */
  function RowsNotOf(rows: seq<Allocation>, c: LessonId): (r: seq<Allocation>)
    ensures forall a :: a in r ==> a in rows && a.lesson != c
    ensures forall a :: a in rows && a.lesson != c ==> a in r
  {
    if rows == [] then []
    else if rows[0].lesson == c then RowsNotOf(rows[1..], c)
    else [rows[0]] + RowsNotOf(rows[1..], c)
  }

  /** Adding q to a supply's `cantidad_total` (negative q takes stock). */
  function AddStock(m: map<SupplyId, Supply>, s: SupplyId, q: real): (m': map<SupplyId, Supply>)
    ensures m'.Keys == m.Keys
    ensures forall t :: t in m && t != s ==> m'[t] == m[t]
    ensures s in m ==> m'[s] == m[s].(total := m[s].total + q)
  {
    if s in m then m[s := m[s].(total := m[s].total + q)] else m
  }

  lemma AllocatedAppend(rows: seq<Allocation>, a: Allocation, c: LessonId, s: SupplyId)
    ensures Allocated(rows + [a], c, s) == Allocated(rows, c, s) + (if Matches(a, c, s) then a.qty else 0.0)
    ensures Earmarked(rows + [a], s) == Earmarked(rows, s) + (if a.supply == s then a.qty else 0.0)
    ensures RowCount(rows + [a], c, s) == RowCount(rows, c, s) + (if Matches(a, c, s) then 1 else 0)
  {
    if rows != [] {
      assert (rows + [a])[1..] == rows[1..] + [a];
      AllocatedAppend(rows[1..], a, c, s);
    }
  }

  /** Changing one row's quantity changes the sums by the difference. */
  lemma AllocatedUpdate(rows: seq<Allocation>, i: nat, q: real, c: LessonId, s: SupplyId)
    requires i < |rows|
    ensures Allocated(rows[i := rows[i].(qty := q)], c, s)
         == Allocated(rows, c, s) + (if Matches(rows[i], c, s) then q - rows[i].qty else 0.0)
    ensures Earmarked(rows[i := rows[i].(qty := q)], s)
         == Earmarked(rows, s) + (if rows[i].supply == s then q - rows[i].qty else 0.0)
    ensures RowCount(rows[i := rows[i].(qty := q)], c, s) == RowCount(rows, c, s)
  {
    if i > 0 {
      assert rows[i := rows[i].(qty := q)][1..] == rows[1..][i - 1 := rows[i].(qty := q)];
      AllocatedUpdate(rows[1..], i - 1, q, c, s);
    } else {
      assert rows[i := rows[i].(qty := q)][1..] == rows[1..];
    }
  }

  lemma AllocatedNonNegative(rows: seq<Allocation>, c: LessonId, s: SupplyId)
    requires forall a :: a in rows ==> a.qty >= 0.0
    ensures Allocated(rows, c, s) >= 0.0 && Earmarked(rows, s) >= 0.0
  {
    if rows != [] {
      AllocatedNonNegative(rows[1..], c, s);
    }
  }

  // ----- ClaseParticipacion -----

  /** The students registered in class c, in registration order. */
  function Participants(p: seq<Participation>, c: LessonId): (r: seq<UserId>)
    ensures |r| <= |p|
    ensures forall u :: u in r <==> Participation(c, u) in p
  {
    if p == [] then []
    else if p[0].lesson == c then [p[0].student] + Participants(p[1..], c)
    else Participants(p[1..], c)
  }

  function ParticipationsNotOf(p: seq<Participation>, c: LessonId): (r: seq<Participation>)
    ensures forall x :: x in r <==> x in p && x.lesson != c
  {
    if p == [] then []
    else if p[0].lesson == c then ParticipationsNotOf(p[1..], c)
    else [p[0]] + ParticipationsNotOf(p[1..], c)
  }

  // ----- ClaseDistribucion -----

  /** The position of the share with key k, if there is one. */
  function FindShare(d: seq<Share>, k: ShareKey): (r: Option<nat>)
    ensures r.Some? ==> r.value < |d| && d[r.value].key == k
    ensures r.None? <==> forall i :: 0 <= i < |d| ==> d[i].key != k
  {
    if d == [] then None
    else if d[0].key == k then Some(0)
    else match FindShare(d[1..], k)
      case None => None
      case Some(i) => Some(i + 1)
  }

  /** The share stored under key k (`ClaseDistribucion.objects.filter(...).first()`). */
  function ShareOf(d: seq<Share>, k: ShareKey): (r: Option<Share>)
    ensures r.Some? ==> r.value in d && r.value.key == k
    ensures r.None? <==> forall x :: x in d ==> x.key != k
  {
    match FindShare(d, k)
    case None => None
    case Some(i) => Some(d[i])
  }

  /** With unique keys, the share stored under a key is the one row holding it. */
  lemma ShareOfUnique(d: seq<Share>, x: Share)
    requires UniqueShareKeys(d) && x in d
    ensures ShareOf(d, x.key) == Some(x)
  {
    var i := FindShare(d, x.key).value;
    var j :| 0 <= j < |d| && d[j] == x;
    assert i == j;
  }

  /** The extra quantity already granted under key k, 0 when there is no share. */
  function ExtraOf(d: seq<Share>, k: ShareKey): real {
    match ShareOf(d, k)
    case None => 0.0
    case Some(x) => x.extra
  }

  function SharesMatch(x: Share, c: LessonId, s: SupplyId): bool {
    x.key.lesson == c && x.key.supply == s
  }

  /** `Sum('cantidad_asignada')` over the shares of (c, s). */
  function AssignedTotal(d: seq<Share>, c: LessonId, s: SupplyId): real {
    if d == [] then 0.0
    else (if SharesMatch(d[0], c, s) then d[0].baseQty else 0.0) + AssignedTotal(d[1..], c, s)
  }

  /** `Sum('cantidad_extra_asignada')` over the shares of (c, s). */
  function ExtraTotal(d: seq<Share>, c: LessonId, s: SupplyId): real {
    if d == [] then 0.0
    else (if SharesMatch(d[0], c, s) then d[0].extra else 0.0) + ExtraTotal(d[1..], c, s)
  }

  function SharesNotOf(d: seq<Share>, c: LessonId): (r: seq<Share>)
    ensures forall x :: x in r <==> x in d && x.key.lesson != c
  {
    if d == [] then []
    else if d[0].key.lesson == c then SharesNotOf(d[1..], c)
    else [d[0]] + SharesNotOf(d[1..], c)
  }

  // ----- SolicitudInsumo and history -----

  /** The position of the request with primary key id, if there is one. */
  function FindRequest(r: seq<SupplyRequest>, id: RequestId): (k: Option<nat>)
    ensures k.Some? ==> k.value < |r| && r[k.value].id == id
    ensures k.None? ==> forall i :: 0 <= i < |r| ==> r[i].id != id
  {
    if r == [] then None
    else if r[0].id == id then Some(0)
    else match FindRequest(r[1..], id)
      case None => None
      case Some(i) => Some(i + 1)
  }

  function RequestsNotOf(r: seq<SupplyRequest>, c: LessonId): (r': seq<SupplyRequest>)
    ensures forall x :: x in r' <==> x in r && x.lesson != c
  {
    if r == [] then []
    else if r[0].lesson == c then RequestsNotOf(r[1..], c)
    else [r[0]] + RequestsNotOf(r[1..], c)
  }

  function SupplyHistoryNotOf(h: seq<SupplyHistoryRow>, c: LessonId): (r: seq<SupplyHistoryRow>)
    ensures forall x :: x in r <==> x in h && x.lesson != c
  {
    if h == [] then []
    else if h[0].lesson == c then SupplyHistoryNotOf(h[1..], c)
    else [h[0]] + SupplyHistoryNotOf(h[1..], c)
  }

  function StudentHistoryNotOf(h: seq<StudentHistoryRow>, c: LessonId): (r: seq<StudentHistoryRow>)
    ensures forall x :: x in r <==> x in h && x.lesson != c
  {
    if h == [] then []
    else if h[0].lesson == c then StudentHistoryNotOf(h[1..], c)
    else [h[0]] + StudentHistoryNotOf(h[1..], c)
  }
}
