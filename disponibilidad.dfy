/** The practitioner's weekly availability table: adding, removing and
    switching windows on and off, and the two ordered reads of the table. */
module DisponibilidadViews {
  import opened TurnosModels
  import opened Ordering
  import opened TurnoViews

  /** The table's ordering key: (dia_semana, hora_inicio). */
  function WindowKey(w: Disponibilidad): Key {
    Key(w.dia, w.inicio)
  }

  ghost predicate WindowIdsIncreasing(ws: seq<Disponibilidad>) {
    forall i, j :: 0 <= i < j < |ws| ==> ws[i].id < ws[j].id
  }

  /** Every window's weekday is one of the seven choices. */
  ghost predicate AllDiasValid(ws: seq<Disponibilidad>) {
    forall k :: 0 <= k < |ws| ==> IsDiaSemana(ws[k].dia)
  }

  /** Appending a window keeps every weekday in range exactly when the new
      window's weekday is in range. */
  lemma {:induction false} AppendDiasValid(ws: seq<Disponibilidad>, w: Disponibilidad)
    ensures AllDiasValid(ws + [w]) <==> AllDiasValid(ws) && IsDiaSemana(w.dia)
  {
    var ws' := ws + [w];
    assert ws'[|ws|] == w;
    assert forall k :: 0 <= k < |ws| ==> ws'[k] == ws[k];
  }

  /** A window with the same schedule and the opposite active flag. */
  function Flip(w: Disponibilidad): Disponibilidad {
    w.(activo := !w.activo)
  }

  /** The table with the active flag of every window with id `id` negated. */
  function Toggled(ws: seq<Disponibilidad>, id: int): (r: seq<Disponibilidad>)
    ensures |r| == |ws|
    ensures forall k :: 0 <= k < |ws| ==>
              r[k].id == ws[k].id && r[k].dia == ws[k].dia && r[k].inicio == ws[k].inicio &&
              r[k].fin == ws[k].fin && (r[k].activo <==> (ws[k].activo != (ws[k].id == id)))
  {
    seq(|ws|, k requires 0 <= k < |ws| => if ws[k].id == id then Flip(ws[k]) else ws[k])
  }

  /** Toggling the same window twice restores the table. */
  lemma ToggleTwice(ws: seq<Disponibilidad>, id: int)
    ensures Toggled(Toggled(ws, id), id) == ws
  {
    var r := Toggled(Toggled(ws, id), id);
    forall k | 0 <= k < |ws| ensures r[k] == ws[k] {
    }
  }

  /** The table without the windows whose id is `id`, in the same order. */
  function Without(ws: seq<Disponibilidad>, id: int): (r: seq<Disponibilidad>)
    ensures forall w :: w in r <==> w in ws && w.id != id
    ensures (forall k :: 0 <= k < |ws| ==> ws[k].id != id) ==> r == ws
  {
    if ws == [] then []
    else
      var init := Without(ws[..|ws| - 1], id);
      var last := ws[|ws| - 1];
      assert ws == ws[..|ws| - 1] + [last];
      if last.id == id then init else init + [last]
  }

  /** With distinct ids, removing a present id drops exactly one window. */
  lemma {:induction false} WithoutDropsOne(ws: seq<Disponibilidad>, id: int, k: nat)
    requires WindowIdsIncreasing(ws) && k < |ws| && ws[k].id == id
    ensures |Without(ws, id)| == |ws| - 1
  {
    var init := ws[..|ws| - 1];
    assert WindowIdsIncreasing(init);
    if k < |ws| - 1 {
      WithoutDropsOne(init, id, k);
      assert ws[k].id < ws[|ws| - 1].id;
    } else {
      assert forall j :: 0 <= j < |init| ==> init[j].id < ws[k].id;
      assert Without(init, id) == init;
    }
  }

  /** The active windows, each as often as in the table, ordered by
      (dia_semana, hora_inicio). */
  function Activas(ws: seq<Disponibilidad>): (r: seq<Disponibilidad>)
    ensures forall w :: w in r <==> w in ws && w.activo
    ensures forall w :: multiset(r)[w] == if w.activo then multiset(ws)[w] else 0
    ensures SortedBy(r, WindowKey)
  {
    var p := (w: Disponibilidad) => w.activo;
    var f := Filter(ws, p);
    forall w ensures multiset(f)[w] == if w.activo then multiset(ws)[w] else 0 {
      FilterMultiset(ws, p, w);
    }
    SortByMembers(f, WindowKey);
    SortBySorted(f, WindowKey);
    SortBy(f, WindowKey)
  }

  /** Every window, ordered by (dia_semana, hora_inicio). */
  function Listed(ws: seq<Disponibilidad>): (r: seq<Disponibilidad>)
    ensures multiset(r) == multiset(ws)
    ensures SortedBy(r, WindowKey)
  {
    SortBySorted(ws, WindowKey);
    SortBy(ws, WindowKey)
  }

  /** The availability table. Window ids are assigned in increasing order. */
  class DisponibilidadTable {
    var windows: seq<Disponibilidad>
    var nextId: nat

    ghost predicate Valid()
      reads this
    {
      WindowIdsIncreasing(windows) &&
      forall k :: 0 <= k < |windows| ==> windows[k].id < nextId
    }

    constructor ()
      ensures Valid() && windows == [] && nextId == 1
    {
      windows := [];
      nextId := 1;
    }

    /** A practitioner adds an active window. A field absent from the request
        is refused by the table's NOT NULL columns; the weekday and the order of
        the two times are not checked. */
    method Agregar(user: Usuario, dia: Option<int>, inicio: Option<int>, fin: Option<int>)
      returns (res: Result<nat>)
      requires Valid()
      modifies this
      ensures Valid()
      ensures user.tipo != Profesional ==>
                res == Err(AccessDenied) && windows == old(windows) && nextId == old(nextId)
      ensures user.tipo == Profesional && (dia.None? || inicio.None? || fin.None?) ==>
                res == Err(IntegrityError) && windows == old(windows) && nextId == old(nextId)
      ensures user.tipo == Profesional && dia.Some? && inicio.Some? && fin.Some? ==>
                res == Ok(old(nextId)) && nextId == old(nextId) + 1 &&
                windows == old(windows) + [Disponibilidad(old(nextId), dia.value, inicio.value, fin.value, true)]
    {
      if user.tipo != Profesional {
        return Err(AccessDenied);
      }
      if dia.None? || inicio.None? || fin.None? {
        return Err(IntegrityError);
      }
      windows := windows + [Disponibilidad(nextId, dia.value, inicio.value, fin.value, true)];
      res := Ok(nextId);
      nextId := nextId + 1;
    }

    /** A practitioner deletes the windows with id `id`; none matching is not an
        error. */
    method Eliminar(user: Usuario, id: int) returns (res: Result<()>)
      requires Valid()
      modifies this
      ensures Valid() && nextId == old(nextId)
      ensures user.tipo != Profesional ==> res == Err(AccessDenied) && windows == old(windows)
      ensures user.tipo == Profesional ==> res == Ok(()) && windows == Without(old(windows), id)
    {
      if user.tipo != Profesional {
        return Err(AccessDenied);
      }
      WithoutKeepsIds(windows, id);
      windows := Without(windows, id);
      res := Ok(());
    }

    /** A practitioner switches the window with id `id` on or off; an id with no
        window is an error. */
    method Toggle(user: Usuario, id: int) returns (res: Result<()>)
      requires Valid()
      modifies this
      ensures Valid() && nextId == old(nextId)
      ensures user.tipo != Profesional ==> res == Err(AccessDenied) && windows == old(windows)
      ensures user.tipo == Profesional && (forall k :: 0 <= k < |old(windows)| ==> old(windows)[k].id != id) ==>
                res == Err(NotFound) && windows == old(windows)
      ensures user.tipo == Profesional && (exists k :: 0 <= k < |old(windows)| && old(windows)[k].id == id) ==>
                res == Ok(()) && windows == Toggled(old(windows), id)
    {
      if user.tipo != Profesional {
        return Err(AccessDenied);
      }
      if forall k :: 0 <= k < |windows| ==> windows[k].id != id {
        return Err(NotFound);
      }
      windows := Toggled(windows, id);
      res := Ok(());
    }
  }

  /** Removing windows keeps the remaining ids increasing and below the next id. */
  lemma {:induction false} WithoutKeepsIds(ws: seq<Disponibilidad>, id: int)
    ensures WindowIdsIncreasing(ws) ==> WindowIdsIncreasing(Without(ws, id))
    ensures forall w :: w in Without(ws, id) ==> w in ws
  {
    if ws != [] {
      var init := ws[..|ws| - 1];
      var last := ws[|ws| - 1];
      WithoutKeepsIds(init, id);
      if WindowIdsIncreasing(ws) {
        assert WindowIdsIncreasing(init);
        var r := Without(ws, id);
        var ri := Without(init, id);
        forall i, j | 0 <= i < j < |r| ensures r[i].id < r[j].id {
          if last.id != id && j == |ri| {
            assert r[i] in init;
            var m :| 0 <= m < |init| && init[m] == r[i];
            assert ws[m] == r[i];
          } else {
            assert r[i] == ri[i] && r[j] == ri[j];
          }
        }
      }
    }
  }
}
