/** The read-only queries the appointment views run against the turno table:
    a patient's upcoming and past turnos, the slots occupied over the next
    30 days, and the turnos of one month. Each is a filter followed by the
    table's ordering on (fecha, hora). */
module TurnoQueries {
  import opened TurnosModels
  import opened Ordering

  /** Length of the booking horizon, in days. */
  const HorizonDays: int := 30

  /** How many past turnos a patient is shown. */
  const PastLimit: nat := 10

  /** The table's ordering key: (fecha, hora). */
  function TurnoKey(t: Turno): Key {
    Key(t.fecha, t.hora)
  }

  /** The slot ordering key, for (fecha, hora) pairs. */
  function SlotKey(s: (int, int)): Key {
    Key(s.0, s.1)
  }

  /** A filtered and ordered query: the rows satisfying `p` in (fecha, hora)
      order, strictly so when the rows it keeps occupy distinct slots. */
  lemma QueryFacts(rows: seq<Turno>, p: Turno -> bool)
    ensures forall t :: t in SortBy(Filter(rows, p), TurnoKey) <==> t in rows && p(t)
    ensures SortedBy(SortBy(Filter(rows, p), TurnoKey), TurnoKey)
    ensures UniqueSlots(rows) ==> StrictlySortedBy(SortBy(Filter(rows, p), TurnoKey), TurnoKey)
    ensures LiveUnique(rows) && (forall t :: p(t) ==> Live(t)) ==>
              StrictlySortedBy(SortBy(Filter(rows, p), TurnoKey), TurnoKey)
  {
    var f := Filter(rows, p);
    SortByMembers(f, TurnoKey);
    SortBySorted(f, TurnoKey);
    if UniqueSlots(rows) || (LiveUnique(rows) && forall t :: p(t) ==> Live(t)) {
      forall i, j | 0 <= i < j < |rows| && p(rows[i]) && p(rows[j])
        ensures TurnoKey(rows[i]) != TurnoKey(rows[j])
      {
        assert Slot(rows[i]) != Slot(rows[j]);
      }
      FilterDistinctKeys(rows, p, TurnoKey);
      SortByStrict(f, TurnoKey);
    }
  }

  predicate IsUpcoming(t: Turno, paciente: nat, today: int) {
    t.paciente == paciente && today <= t.fecha && Live(t)
  }

  predicate IsPast(t: Turno, paciente: nat, today: int) {
    t.paciente == paciente && t.fecha < today
  }

  predicate InHorizon(t: Turno, today: int) {
    Live(t) && today <= t.fecha <= today + HorizonDays
  }

  /** A patient's non-cancelled turnos from today on, ordered by (fecha, hora). */
  function Upcoming(rows: seq<Turno>, paciente: nat, today: int): (r: seq<Turno>)
    ensures forall t :: t in r <==> t in rows && IsUpcoming(t, paciente, today)
    ensures SortedBy(r, TurnoKey)
    ensures UniqueSlots(rows) ==> StrictlySortedBy(r, TurnoKey)
  {
    QueryFacts(rows, t => IsUpcoming(t, paciente, today));
    SortBy(Filter(rows, t => IsUpcoming(t, paciente, today)), TurnoKey)
  }


  /** A patient's turnos before today, whatever their estado, newest first,
      at most ten of them, each row at most as often as in the table. */
  function Past(rows: seq<Turno>, paciente: nat, today: int): (r: seq<Turno>)
    ensures |r| <= PastLimit
    ensures multiset(r) <= multiset(rows)
    ensures forall t :: t in r ==> t in rows && IsPast(t, paciente, today)
    ensures SortedDescBy(r, TurnoKey)
    ensures UniqueSlots(rows) ==> StrictlySortedDescBy(r, TurnoKey)
    ensures |r| < PastLimit ==> forall t :: t in rows && IsPast(t, paciente, today) ==> t in r
    ensures forall t, k :: t in rows && IsPast(t, paciente, today) && t !in r && 0 <= k < |r| ==>
              KeyLe(TurnoKey(t), TurnoKey(r[k]))
  {
    var p := t => IsPast(t, paciente, today);
    var f := Filter(rows, p);
    assert multiset(f) <= multiset(rows) by {
      forall x ensures multiset(f)[x] <= multiset(rows)[x] {
        FilterMultiset(rows, p, x);
      }
    }
    QueryFacts(rows, p);
    var sorted := SortBy(f, TurnoKey);
    var d := Reverse(sorted);
    ReverseMembers(sorted);
    ReverseOfSortedIsDescending(sorted, TurnoKey);
    var r := if |d| <= PastLimit then d else d[..PastLimit];
    NewestKept(d, r, TurnoKey);
    r
  }

  /** Keeping at most the first ten of a descending sequence keeps its newest
      elements, stays descending, and adds no element. */
  lemma NewestKept(d: seq<Turno>, r: seq<Turno>, key: Turno -> Key)
    requires SortedDescBy(d, key)
    requires r == if |d| <= PastLimit then d else d[..PastLimit]
    ensures |r| <= PastLimit && multiset(r) <= multiset(d)
    ensures forall t :: t in r ==> t in d
    ensures SortedDescBy(r, key)
    ensures StrictlySortedDescBy(d, key) ==> StrictlySortedDescBy(r, key)
    ensures |r| < PastLimit ==> r == d
    ensures forall t, k :: t in d && t !in r && 0 <= k < |r| ==> KeyLe(key(t), key(r[k]))
  {
    PrefixMultiset(d, |r|);
    assert r == d[..|r|];
    forall t, k | t in d && t !in r && 0 <= k < |r| ensures KeyLe(key(t), key(r[k])) {
      var m :| 0 <= m < |d| && d[m] == t;
      assert r[k] == d[k];
      assert forall i :: 0 <= i < |r| ==> d[i] == r[i];
      assert |r| <= m;
    }
  }

  /** The turnos that occupy a slot within the next 30 days, in table order. */
  function HorizonTurnos(rows: seq<Turno>, today: int): (r: seq<Turno>)
    ensures forall t :: t in r <==> t in rows && InHorizon(t, today)
    ensures SortedBy(r, TurnoKey)
    ensures LiveUnique(rows) ==> StrictlySortedBy(r, TurnoKey)
  {
    QueryFacts(rows, t => InHorizon(t, today));
    SortBy(Filter(rows, t => InHorizon(t, today)), TurnoKey)
  }


  /** The (fecha, hora) values of a sequence of turnos, in the same order. */
  function Slots(ts: seq<Turno>): (r: seq<(int, int)>)
    ensures |r| == |ts|
    ensures forall k :: 0 <= k < |ts| ==> r[k] == Slot(ts[k])
  {
    if ts == [] then [] else [Slot(ts[0])] + Slots(ts[1..])
  }

  lemma SlotsOrder(ts: seq<Turno>)
    ensures forall t :: t in ts ==> Slot(t) in Slots(ts)
    ensures forall k :: 0 <= k < |ts| ==> ts[k] in ts && Slots(ts)[k] == Slot(ts[k])
    ensures SortedBy(ts, TurnoKey) ==> SortedBy(Slots(ts), SlotKey)
    ensures StrictlySortedBy(ts, TurnoKey) ==> StrictlySortedBy(Slots(ts), SlotKey)
  {
    var r := Slots(ts);
    forall t | t in ts ensures Slot(t) in r {
      var k :| 0 <= k < |ts| && ts[k] == t;
      assert r[k] == Slot(t);
    }
    assert forall k :: 0 <= k < |ts| ==> SlotKey(r[k]) == TurnoKey(ts[k]);
  }

  /** The (fecha, hora) pairs occupied by a non-cancelled turno between today and
      today + 30 inclusive, ascending; each pair appears once when no two live
      turnos share a slot. */
  function Occupied(rows: seq<Turno>, today: int): (r: seq<(int, int)>)
    ensures forall t :: t in rows && InHorizon(t, today) ==> Slot(t) in r
    ensures forall k :: 0 <= k < |r| ==>
              exists t :: t in rows && InHorizon(t, today) && Slot(t) == r[k]
    ensures SortedBy(r, SlotKey)
    ensures LiveUnique(rows) ==> StrictlySortedBy(r, SlotKey)
  {
    SlotsOrder(HorizonTurnos(rows, today));
    Slots(HorizonTurnos(rows, today))
  }

  /** The turnos whose fecha lies between the first and last day of a month
      (given as day numbers), whatever their estado, in table order. */
  function MonthTurnos(rows: seq<Turno>, first: int, last: int): (r: seq<Turno>)
    ensures forall t :: t in r <==> t in rows && first <= t.fecha <= last
    ensures SortedBy(r, TurnoKey)
    ensures UniqueSlots(rows) ==> StrictlySortedBy(r, TurnoKey)
  {
    QueryFacts(rows, (t: Turno) => first <= t.fecha <= last);
    SortBy(Filter(rows, (t: Turno) => first <= t.fecha <= last), TurnoKey)
  }

}
