/** The appointment views that change the turno table: booking (with the view's
    live-slot check and the table's (fecha, hora) uniqueness), cancellation by
    the owner or a practitioner, and the practitioner's detail actions. */
module TurnoViews {
  import opened TurnosModels

  /** The ways a request fails; each leaves the table as it was. */
  datatype Error =
    | AccessDenied    // wrong role, or not the turno's owner
    | MissingField    // fecha or hora absent or empty
    | SlotTaken       // a live turno already holds the slot
    | DataError       // the motivo does not fit its column
    | IntegrityError  // a table constraint (uniqueness, NOT NULL) refused the row
    | NotFound        // no row with the requested id

  datatype Result<T> = Ok(value: T) | Err(error: Error)

  const ActionConfirmar: string := "confirmar"
  const ActionCompletar: string := "completar"
  const ActionCancelar: string := "cancelar"

  /** The position of the row with id `id`, if there is one. */
  function IndexOf(rows: seq<Turno>, id: nat): (r: Option<nat>)
    ensures r.Some? ==> r.value < |rows| && rows[r.value].id == id
    ensures r.None? <==> forall k :: 0 <= k < |rows| ==> rows[k].id != id
  {
    if rows == [] then None
    else if rows[0].id == id then Some(0)
    else
      match IndexOf(rows[1..], id)
      case None => None
      case Some(k) => Some(k + 1)
  }

  /** With increasing ids the row found is the only one with that id. */
  lemma IndexOfUnique(rows: seq<Turno>, id: nat, k: nat)
    requires IdsIncreasing(rows) && k < |rows| && rows[k].id == id
    ensures IndexOf(rows, id) == Some(k)
  {
    assert IndexOf(rows, id).Some?;
  }

  /** The effect of a practitioner's detail action on one turno: confirmar,
      completar (recording the notes, '' when none were sent) and cancelar set
      the estado whatever it was before, so no estado is terminal; any other
      action changes nothing. The slot, owner and motivo never change. */
  function ApplyAction(t: Turno, action: Option<string>, notas: Option<string>): (r: Turno)
    ensures r.id == t.id && r.paciente == t.paciente && Slot(r) == Slot(t) && r.motivo == t.motivo
    ensures action == Some(ActionConfirmar) ==> r.estado == Confirmado && r.notas == t.notas
    ensures action == Some(ActionCompletar) ==> r.estado == Completado && r.notas == notas.GetOr("")
    ensures action == Some(ActionCancelar) ==> r.estado == Cancelado && r.notas == t.notas
    ensures action !in {Some(ActionConfirmar), Some(ActionCompletar), Some(ActionCancelar)} ==> r == t
  {
    if action == Some(ActionConfirmar) then t.(estado := Confirmado)
    else if action == Some(ActionCompletar) then t.(estado := Completado, notas := notas.GetOr(""))
    else if action == Some(ActionCancelar) then t.(estado := Cancelado)
    else t
  }

  /** The turno table. Row ids are assigned in increasing order from `nextId`. */
  class TurnoStore {
    var rows: seq<Turno>
    var nextId: nat

    /** The table's invariant: distinct increasing ids, at most one row per
        (fecha, hora) whatever its estado, and every motivo within its width. */
    ghost predicate Valid()
      reads this
    {
      IdsIncreasing(rows) &&
      (forall k :: 0 <= k < |rows| ==> rows[k].id < nextId) &&
      UniqueSlots(rows) &&
      MotivosFit(rows)
    }

    constructor ()
      ensures Valid() && rows == [] && nextId == 1
    {
      rows := [];
      nextId := 1;
    }

    /** A patient books (fecha, hora). The view refuses non-patients, an absent or
        empty fecha or hora, and a slot held by a live turno; the table then refuses a
        motivo longer than its column and a slot held by any row, including a
        cancelled one. Otherwise exactly one pendiente turno is added. */
    method Agendar(user: Usuario, fecha: Option<int>, hora: Option<int>, motivo: Option<string>)
      returns (res: Result<nat>)
      requires Valid()
      modifies this
      ensures Valid()
      ensures user.tipo != Paciente ==>
                res == Err(AccessDenied) && rows == old(rows) && nextId == old(nextId)
      ensures user.tipo == Paciente && (fecha.None? || hora.None?) ==>
                res == Err(MissingField) && rows == old(rows) && nextId == old(nextId)
      ensures user.tipo == Paciente && fecha.Some? && hora.Some? ==>
                var f, h, m := fecha.value, hora.value, motivo.GetOr("");
                if SlotLive(old(rows), f, h) then
                  res == Err(SlotTaken) && rows == old(rows) && nextId == old(nextId)
                else if |m| > MotivoMaxLength then
                  res == Err(DataError) && rows == old(rows) && nextId == old(nextId)
                else if SlotHeld(old(rows), f, h) then
                  res == Err(IntegrityError) && rows == old(rows) && nextId == old(nextId)
                else
                  res == Ok(old(nextId)) && nextId == old(nextId) + 1 &&
                  rows == old(rows) + [Turno(old(nextId), user.id, f, h, DefaultEstado, m, "")]
    {
      if user.tipo != Paciente {
        return Err(AccessDenied);
      }
      if fecha.None? || hora.None? {
        return Err(MissingField);
      }
      var f, h, m := fecha.value, hora.value, motivo.GetOr("");
      if SlotLive(rows, f, h) {
        return Err(SlotTaken);
      }
      // Turno.objects.create: the table checks its column width and its
      // unique (fecha, hora) constraint.
      if |m| > MotivoMaxLength {
        return Err(DataError);
      }
      if SlotHeld(rows, f, h) {
        return Err(IntegrityError);
      }
      var t := Turno(nextId, user.id, f, h, DefaultEstado, m, "");
      RowCheckKeepsUniqueSlots(rows, t);
      rows := rows + [t];
      res := Ok(nextId);
      nextId := nextId + 1;
    }

    /** The owner of a turno, or any practitioner, cancels it, whatever its
        estado; no other row changes. */
    method Cancelar(user: Usuario, id: nat) returns (res: Result<()>)
      requires Valid()
      modifies this
      ensures Valid() && nextId == old(nextId)
      ensures IndexOf(old(rows), id).None? ==> res == Err(NotFound) && rows == old(rows)
      ensures IndexOf(old(rows), id).Some? ==>
                var k := IndexOf(old(rows), id).value;
                if old(rows)[k].paciente != user.id && user.tipo != Profesional then
                  res == Err(AccessDenied) && rows == old(rows)
                else
                  res == Ok(()) && rows == old(rows)[k := old(rows)[k].(estado := Cancelado)]
    {
      var found := IndexOf(rows, id);
      if found.None? {
        return Err(NotFound);
      }
      var k := found.value;
      if rows[k].paciente != user.id && user.tipo != Profesional {
        return Err(AccessDenied);
      }
      StatusChangeKeepsUniqueSlots(rows, k, Cancelado, rows[k].notas);
      rows := rows[k := rows[k].(estado := Cancelado)];
      res := Ok(());
    }

    /** A practitioner applies a detail action to a turno; anyone else is
        refused before the turno is looked up. */
    method Detalle(user: Usuario, id: nat, action: Option<string>, notas: Option<string>)
      returns (res: Result<()>)
      requires Valid()
      modifies this
      ensures Valid() && nextId == old(nextId)
      ensures user.tipo != Profesional ==> res == Err(AccessDenied) && rows == old(rows)
      ensures user.tipo == Profesional && IndexOf(old(rows), id).None? ==>
                res == Err(NotFound) && rows == old(rows)
      ensures user.tipo == Profesional && IndexOf(old(rows), id).Some? ==>
                var k := IndexOf(old(rows), id).value;
                res == Ok(()) && rows == old(rows)[k := ApplyAction(old(rows)[k], action, notas)]
    {
      if user.tipo != Profesional {
        return Err(AccessDenied);
      }
      var found := IndexOf(rows, id);
      if found.None? {
        return Err(NotFound);
      }
      var k := found.value;
      var t' := ApplyAction(rows[k], action, notas);
      StatusChangeKeepsUniqueSlots(rows, k, t'.estado, t'.notas);
      assert t' == rows[k].(estado := t'.estado, notas := t'.notas);
      rows := rows[k := t'];
      res := Ok(());
    }
  }

  /** Booking the same slot twice: the second request is refused and the first
      turno is left pending; a practitioner's cancellation then makes a
      patient's confirmation attempt fail with the turno still cancelled. */
  method BookingScenario() {
    var store := new TurnoStore();
    var ana := Usuario(7, Paciente);
    var beto := Usuario(8, Paciente);
    var doc := Usuario(1, Profesional);
    var first := store.Agendar(ana, Some(100), Some(540), None);
    assert SlotHeld(store.rows, 100, 540) by { assert store.rows[0].fecha == 100; }
    assert first == Ok(1) && store.rows[0].estado == Pendiente;
    assert SlotLive(store.rows, 100, 540) by { assert Live(store.rows[0]); }
    var second := store.Agendar(beto, Some(100), Some(540), Some("control"));
    assert second == Err(SlotTaken) && |store.rows| == 1 && store.rows[0].estado == Pendiente;

    IndexOfUnique(store.rows, 1, 0);
    var cancelled := store.Cancelar(doc, 1);
    assert cancelled == Ok(()) && store.rows[0].estado == Cancelado;
    IndexOfUnique(store.rows, 1, 0);
    var confirm := store.Detalle(ana, 1, Some(ActionConfirmar), None);
    assert confirm == Err(AccessDenied) && store.rows[0].estado == Cancelado;
  }
}
