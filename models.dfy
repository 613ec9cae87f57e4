/** The records of the appointment ("turno") application: an appointment row,
    a weekly availability window, the user roles, and the table-level
    constraints the data model declares (status choices, defaults, the
    (fecha, hora) uniqueness over every row, the 200-character motivo). */
module TurnosModels {

  datatype Option<T> = None | Some(value: T) {
    function GetOr(default: T): T {
      match this
      case Some(v) => v
      case None => default
    }
  }

  /** The four status choices of a turno. */
  datatype Estado = Pendiente | Confirmado | Cancelado | Completado

  /** Status given to a turno that is created without one. */
  const DefaultEstado: Estado := Pendiente

  /** Role of an authenticated user. */
  datatype Tipo = Paciente | Profesional

  /** An authenticated user; a patient's profile is identified with its user. */
  datatype Usuario = Usuario(id: nat, tipo: Tipo)

  /** Declared width of the motivo column. */
  const MotivoMaxLength: nat := 200

  /** An appointment row. `fecha` is a day number, `hora` minutes after midnight,
      `paciente` the id of the owning user. */
  datatype Turno = Turno(
    id: nat,
    paciente: nat,
    fecha: int,
    hora: int,
    estado: Estado,
    motivo: string,
    notas: string)

  /** A weekly availability window: `dia` is the weekday (0 = Monday),
      `inicio` and `fin` minutes after midnight. */
  datatype Disponibilidad = Disponibilidad(
    id: nat,
    dia: int,
    inicio: int,
    fin: int,
    activo: bool)

  /** The weekday choices 0 (Lunes) .. 6 (Domingo). */
  predicate IsDiaSemana(d: int) {
    0 <= d <= 6
  }

  /** A turno is live unless it has been cancelled. */
  predicate Live(t: Turno) {
    t.estado != Cancelado
  }

  /** The (fecha, hora) slot a turno occupies. */
  function Slot(t: Turno): (int, int) {
    (t.fecha, t.hora)
  }

  /** Row-level constraint: no two rows share a slot, whatever their estado. */
  ghost predicate UniqueSlots(rows: seq<Turno>) {
    forall i, j :: 0 <= i < j < |rows| ==> Slot(rows[i]) != Slot(rows[j])
  }

  /** The weaker invariant the booking view aims at: no two live rows share a slot. */
  ghost predicate LiveUnique(rows: seq<Turno>) {
    forall i, j :: 0 <= i < j < |rows| && Live(rows[i]) && Live(rows[j]) ==>
      Slot(rows[i]) != Slot(rows[j])
  }

  /** Row ids are assigned in increasing order, so each id names at most one row. */
  ghost predicate IdsIncreasing(rows: seq<Turno>) {
    forall i, j :: 0 <= i < j < |rows| ==> rows[i].id < rows[j].id
  }

  /** Every row fits the declared motivo width. */
  ghost predicate MotivosFit(rows: seq<Turno>) {
    forall i :: 0 <= i < |rows| ==> |rows[i].motivo| <= MotivoMaxLength
  }

  /** Is some live row holding the slot? (the view's check) */
  predicate SlotLive(rows: seq<Turno>, fecha: int, hora: int) {
    exists i :: 0 <= i < |rows| && Live(rows[i]) && Slot(rows[i]) == (fecha, hora)
  }

  /** Is some row, live or cancelled, holding the slot? (the row constraint) */
  predicate SlotHeld(rows: seq<Turno>, fecha: int, hora: int) {
    exists i :: 0 <= i < |rows| && Slot(rows[i]) == (fecha, hora)
  }

  /** The row-level constraint is the stronger one: it implies the view's invariant. */
  lemma UniqueSlotsImpliesLiveUnique(rows: seq<Turno>)
    requires UniqueSlots(rows)
    ensures LiveUnique(rows)
  {
  }

  /** ... and it is strictly stronger: a cancelled row and a live row may share a
      slot under the view's invariant, never under the row constraint. */
  lemma LiveUniqueAllowsSharedCancelledSlot()
    ensures var rows := [Turno(1, 7, 100, 540, Cancelado, "", ""), Turno(2, 8, 100, 540, Pendiente, "", "")];
            LiveUnique(rows) && !UniqueSlots(rows)
  {
    var rows := [Turno(1, 7, 100, 540, Cancelado, "", ""), Turno(2, 8, 100, 540, Pendiente, "", "")];
    assert Slot(rows[0]) == Slot(rows[1]);
  }

  /** Changing only a row's estado or notes leaves every slot in place, so the
      row constraint survives any status change, including one that revives a
      cancelled row. */
  lemma {:induction false} StatusChangeKeepsUniqueSlots(rows: seq<Turno>, k: nat, e: Estado, notas: string)
    requires k < |rows| && UniqueSlots(rows)
    ensures UniqueSlots(rows[k := rows[k].(estado := e, notas := notas)])
    ensures LiveUnique(rows[k := rows[k].(estado := e, notas := notas)])
  {
    var rows' := rows[k := rows[k].(estado := e, notas := notas)];
    forall i, j | 0 <= i < j < |rows'| ensures Slot(rows'[i]) != Slot(rows'[j]) {
      assert Slot(rows'[i]) == Slot(rows[i]) && Slot(rows'[j]) == Slot(rows[j]);
    }
    UniqueSlotsImpliesLiveUnique(rows');
  }

  /** Under the view's invariant alone, re-confirming a cancelled turno whose slot
      has been booked again yields two live turnos in one slot. */
  lemma ReconfirmBreaksLiveUniqueWithoutRowConstraint()
    ensures var rows := [Turno(1, 7, 100, 540, Cancelado, "", ""), Turno(2, 8, 100, 540, Pendiente, "", "")];
            LiveUnique(rows) && !LiveUnique(rows[0 := rows[0].(estado := Confirmado)])
  {
    var rows := [Turno(1, 7, 100, 540, Cancelado, "", ""), Turno(2, 8, 100, 540, Pendiente, "", "")];
    var rows' := rows[0 := rows[0].(estado := Confirmado)];
    assert Live(rows'[0]) && Live(rows'[1]) && Slot(rows'[0]) == Slot(rows'[1]);
  }

  /** Appending a row for a slot no live row holds keeps the view's invariant. */
  lemma {:induction false} ViewCheckKeepsLiveUnique(rows: seq<Turno>, t: Turno)
    requires LiveUnique(rows) && !SlotLive(rows, t.fecha, t.hora)
    ensures LiveUnique(rows + [t])
  {
    var rows' := rows + [t];
    forall i, j | 0 <= i < j < |rows'| && Live(rows'[i]) && Live(rows'[j])
      ensures Slot(rows'[i]) != Slot(rows'[j])
    {
      if j == |rows| {
        assert rows'[i] == rows[i];
      } else {
        assert rows'[i] == rows[i] && rows'[j] == rows[j];
      }
    }
  }

  /** Appending a row for a slot no row holds keeps the row constraint. */
  lemma {:induction false} RowCheckKeepsUniqueSlots(rows: seq<Turno>, t: Turno)
    requires UniqueSlots(rows) && !SlotHeld(rows, t.fecha, t.hora)
    ensures UniqueSlots(rows + [t])
  {
    var rows' := rows + [t];
    forall i, j | 0 <= i < j < |rows'| ensures Slot(rows'[i]) != Slot(rows'[j]) {
      if j == |rows| {
        assert rows'[i] == rows[i];
      } else {
        assert rows'[i] == rows[i] && rows'[j] == rows[j];
      }
    }
  }
}
