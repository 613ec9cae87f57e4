/** The practitioner's month calendar: navigation to the previous and next
    month with year wrap-around, and the grouping of a month's turnos by fecha. */
module Calendario {
  import opened TurnosModels
  import opened Ordering

  predicate IsMonth(mes: int) {
    1 <= mes <= 12
  }

  /** Months counted from January of year 0; consecutive months differ by one. */
  function MonthIndex(mes: int, anio: int): int {
    anio * 12 + (mes - 1)
  }

  /** The month before (mes, anio). Months outside 1..12 never get here: the
      calendar library rejects them first. */
  function PrevMonth(mes: int, anio: int): (r: (int, int))
    requires IsMonth(mes)
    ensures IsMonth(r.0)
    ensures MonthIndex(r.0, r.1) == MonthIndex(mes, anio) - 1
    ensures mes == 1 ==> r == (12, anio - 1)
  {
    if mes == 1 then (12, anio - 1) else (mes - 1, anio)
  }

  /** The month after (mes, anio). */
  function NextMonth(mes: int, anio: int): (r: (int, int))
    requires IsMonth(mes)
    ensures IsMonth(r.0)
    ensures MonthIndex(r.0, r.1) == MonthIndex(mes, anio) + 1
    ensures mes == 12 ==> r == (1, anio + 1)
  {
    if mes == 12 then (1, anio + 1) else (mes + 1, anio)
  }

  /** Two months in range with the same index are the same month. */
  lemma MonthIndexInjective(m1: int, y1: int, m2: int, y2: int)
    requires IsMonth(m1) && IsMonth(m2)
    requires MonthIndex(m1, y1) == MonthIndex(m2, y2)
    ensures m1 == m2 && y1 == y2
  {
  }

  /** Going back a month and then forward returns to the start, and vice versa. */
  lemma PrevNextRoundTrip(mes: int, anio: int)
    requires IsMonth(mes)
    ensures var p := PrevMonth(mes, anio); NextMonth(p.0, p.1) == (mes, anio)
    ensures var n := NextMonth(mes, anio); PrevMonth(n.0, n.1) == (mes, anio)
  {
    var p := PrevMonth(mes, anio);
    MonthIndexInjective(NextMonth(p.0, p.1).0, NextMonth(p.0, p.1).1, mes, anio);
    var n := NextMonth(mes, anio);
    MonthIndexInjective(PrevMonth(n.0, n.1).0, PrevMonth(n.0, n.1).1, mes, anio);
  }

  /** The turnos of `ts` on day `fecha`, in their order in `ts`. */
  function OnFecha(ts: seq<Turno>, fecha: int): (r: seq<Turno>)
    ensures forall t :: t in r <==> t in ts && t.fecha == fecha
    ensures r == [] <==> forall k :: 0 <= k < |ts| ==> ts[k].fecha != fecha
  {
    var r := Filter(ts, (t: Turno) => t.fecha == fecha);
    assert r != [] ==> r[0] in r;
    r
  }

  /** Extending the input by one turno extends that turno's day by it and no
      other day. */
  lemma OnFechaSnoc(ts: seq<Turno>, t: Turno, fecha: int)
    ensures OnFecha(ts + [t], fecha) == OnFecha(ts, fecha) + (if t.fecha == fecha then [t] else [])
  {
    assert (ts + [t])[..|ts|] == ts;
  }

  /** The turnos of `ts` keyed by fecha, built one turno at a time in the
      order of `ts`. */
  function Grouped(ts: seq<Turno>): map<int, seq<Turno>> {
    if ts == [] then map[]
    else
      var g := Grouped(ts[..|ts| - 1]);
      var t := ts[|ts| - 1];
      g[t.fecha := (if t.fecha in g then g[t.fecha] else []) + [t]]
  }

  /** Each key of the grouping is the fecha of some turno, and maps to exactly
      that day's turnos, in input order. */
  lemma {:induction false} GroupedIsByFecha(ts: seq<Turno>)
    ensures forall d :: d in Grouped(ts) <==> exists k :: 0 <= k < |ts| && ts[k].fecha == d
    ensures forall d :: d in Grouped(ts) ==> Grouped(ts)[d] == OnFecha(ts, d)
  {
    if ts != [] {
      var init := ts[..|ts| - 1];
      var t := ts[|ts| - 1];
      assert ts == init + [t];
      GroupedIsByFecha(init);
      var g := Grouped(init);
      forall d ensures d in Grouped(ts) <==> exists k :: 0 <= k < |ts| && ts[k].fecha == d {
        if d in g {
          var k :| 0 <= k < |init| && init[k].fecha == d;
          assert ts[k] == init[k];
        }
        if exists k :: 0 <= k < |ts| && ts[k].fecha == d {
          var k :| 0 <= k < |ts| && ts[k].fecha == d;
          if k < |init| {
            assert init[k] == ts[k];
          }
        }
      }
      forall d | d in Grouped(ts) ensures Grouped(ts)[d] == OnFecha(ts, d) {
        OnFechaSnoc(init, t, d);
        if d == t.fecha && d !in g {
          assert forall k :: 0 <= k < |init| ==> init[k].fecha != d;
        }
      }
    }
  }

  /** Groups a month's turnos into a map from fecha to the turnos of that day,
      keeping their order; only days with at least one turno get a key. */
  method GroupByFecha(ts: seq<Turno>) returns (g: map<int, seq<Turno>>)
    ensures forall d :: d in g <==> exists k :: 0 <= k < |ts| && ts[k].fecha == d
    ensures forall d :: d in g ==> g[d] == OnFecha(ts, d) && g[d] != []
  {
    g := map[];
    var i := 0;
    while i < |ts|
      invariant 0 <= i <= |ts|
      invariant g == Grouped(ts[..i])
    {
      var t := ts[i];
      assert ts[..i + 1][..i] == ts[..i];
      if t.fecha !in g {
        g := g[t.fecha := []];
      }
      g := g[t.fecha := g[t.fecha] + [t]];
      i := i + 1;
    }
    assert ts[..i] == ts;
    GroupedIsByFecha(ts);
    forall d | d in g ensures g[d] != [] {
      var k :| 0 <= k < |ts| && ts[k].fecha == d;
      assert ts[k] in OnFecha(ts, d);
    }
  }
}
