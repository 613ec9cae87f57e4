# Turnos: a verified model of the appointment core

This project models the appointment ("turno") logic of a clinic scheduling
web application in Dafny. The model has four parts.

- **The turno table.** Rows have a patient, a `fecha`, a `hora`, an
  `estado`, a `motivo` and practitioner notes. The booking view refuses a
  request with no fecha or hora, and a slot that a non-cancelled turno
  already holds. The table's own `unique_together = ['fecha', 'hora']`
  constraint then refuses any slot that *any* row holds, cancelled or not.
- **Status changes.** A turno's owner or any practitioner may cancel it. A
  practitioner may confirm, complete (with notes) or cancel it from the
  detail view. Neither view looks at the current estado.
- **The weekly availability table.** Windows can be added, deleted and
  toggled between active and inactive.
- **The read-only computations.** These are: a patient's upcoming and past
  turnos, the slots occupied in the next 30 days, a month's turnos grouped
  by fecha, and navigation to the previous and next month.

Dates are day numbers and times are minutes after midnight. "Today" is a
parameter. A patient's profile is identified with its user id. The
database's filters and `ORDER BY` are modelled as functions: a filter that
keeps table order, and an insertion sort on a two-column key. Both are
proved to return exactly the rows asked for, in key order.

Two invariants are kept apart:

- `LiveUnique`: no two non-cancelled rows share a slot. The view's check
  aims at this one.
- `UniqueSlots`: no two rows share a slot, whatever their estado. This is
  the table constraint.

The view's check alone keeps `LiveUnique` when a turno is booked. It does
not keep it when a practitioner confirms a cancelled turno whose slot has
since been rebooked. `TurnosModels.ReconfirmBreaksLiveUniqueWithoutRowConstraint`
exhibits such a state. `UniqueSlots` survives every operation, and it
implies `LiveUnique`. The store's invariant is therefore `UniqueSlots`.

A consequence of the table constraint: a slot held only by a cancelled
turno passes the view's check, but the insert is then refused
(`IntegrityError`). A cancelled slot can never be booked again.

Three behaviours of the code are modelled as written, although a cleaner
design would differ:

- There are no terminal states: a completed or cancelled turno can be
  confirmed, completed or cancelled again.
- Slot uniqueness covers all rows, not only non-cancelled ones.
- Availability windows are not checked for `inicio < fin` or for a weekday
  in 0..6.

Files: `models.dfy` (records and table constraints), `ordering.dfy` (filter
and ORDER BY), `queries.dfy` (read-only queries), `calendario.dfy` (month
navigation and grouping), `store.dfy` (booking, cancellation, detail
actions), `disponibilidad.dfy` (availability table).

## Model

| member | source | states |
|---|---|---|
| TurnosModels.UniqueSlotsImpliesLiveUnique | turnos/models.py:45 | uniqueness of (fecha, hora) over all rows implies uniqueness among non-cancelled rows |
| TurnosModels.LiveUniqueAllowsSharedCancelledSlot | turnos/views.py:40 | the view's invariant allows a cancelled row and a live row to share a slot; the table constraint does not |
| TurnosModels.StatusChangeKeepsUniqueSlots | turnos/views.py:230-244 | changing a row's estado and notes, to any estado, keeps every slot unique, and so keeps live slots unique |
| TurnosModels.ReconfirmBreaksLiveUniqueWithoutRowConstraint | turnos/views.py:230-232 | without the table constraint, confirming a cancelled turno whose slot was rebooked leaves two live turnos in one slot |
| TurnosModels.ViewCheckKeepsLiveUnique | turnos/views.py:40-51 | adding a row for a slot no live row holds keeps live slots unique |
| TurnosModels.RowCheckKeepsUniqueSlots | turnos/models.py:45 | adding a row for a slot no row holds keeps all slots unique |
| Ordering.SortBySorted | turnos/models.py:43 | a query ordered by the table's key returns its rows in ascending key order |
| Ordering.SortByStrict | turnos/models.py:43-45 | rows with pairwise distinct (fecha, hora) come back strictly ascending |
| TurnoQueries.Upcoming | turnos/views.py:112-115 | the result holds exactly the patient's non-cancelled turnos with fecha >= today, ordered by (fecha, hora), strictly so when slots are unique |
| TurnoQueries.Past | turnos/views.py:117-120 | at most ten of the patient's turnos with fecha < today, any estado, newest first, no row more often than in the table (strictly descending, so no repeats, when slots are unique); every past turno left out is no newer than each one kept, and all are kept when fewer than ten are returned |
| TurnoQueries.HorizonTurnos | turnos/views.py:67-73 | the result holds exactly the non-cancelled turnos with today <= fecha <= today + 30, in (fecha, hora) order |
| TurnoQueries.Occupied | turnos/views.py:70-73 | every (fecha, hora) of a non-cancelled turno in the 30-day window appears, nothing else does, ascending, and each at most once when live slots are unique |
| TurnoQueries.MonthTurnos | turnos/views.py:170-173 | the result holds exactly the turnos, any estado, whose fecha lies in the month's day range, in (fecha, hora) order |
| Calendario.PrevMonth | turnos/views.py:187-192 | the previous month is in 1..12 and exactly one month earlier; January goes to December of the year before |
| Calendario.NextMonth | turnos/views.py:194-199 | the next month is in 1..12 and exactly one month later; December goes to January of the year after |
| Calendario.PrevNextRoundTrip | turnos/views.py:187-199 | next(previous(m, y)) = (m, y) and previous(next(m, y)) = (m, y) |
| Calendario.GroupedIsByFecha | turnos/views.py:176-181 | grouping one turno at a time gives a key for exactly the fechas present, each mapped to that day's turnos in input order |
| Calendario.GroupByFecha | turnos/views.py:176-181 | the loop's map has a key for exactly the fechas present; each maps to the non-empty list of that day's turnos in input order |
| TurnoViews.IndexOf | turnos/views.py:135 | the row found has the requested id; no row is found only when no row has that id |
| TurnoViews.ApplyAction | turnos/views.py:227-246 | confirmar, completar (notes or '') and cancelar set their estado whatever it was, so no estado is terminal; any other action changes nothing; slot, owner and motivo never change |
| TurnoViews.TurnoStore.Agendar | turnos/views.py:18-51 | non-patients, an absent or empty fecha or hora, a slot held by a live turno, a motivo over 200 characters, and a slot held by any row are refused with the table unchanged; otherwise exactly one pendiente turno with the caller, fecha, hora and motivo ('' by default) is appended; the table invariant is kept |
| TurnoViews.TurnoStore.Cancelar | turnos/views.py:135-144 | an unknown id is NotFound; a caller who is neither the owner nor a practitioner is refused; otherwise only that turno's estado becomes cancelado, whatever it was, and nothing else changes |
| TurnoViews.TurnoStore.Detalle | turnos/views.py:221-246 | a non-practitioner changes nothing; an unknown id is NotFound; otherwise only that turno changes, as ApplyAction says |
| DisponibilidadViews.AppendDiasValid | turnos/models.py:55-65 | after a window is added, every weekday is in 0..6 exactly when it was before and the new weekday is in 0..6 |
| DisponibilidadViews.Toggled | turnos/views.py:289-293 | the windows with the id have their active flag negated; every other field and every other window is unchanged |
| DisponibilidadViews.ToggleTwice | turnos/views.py:289-293 | toggling the same window twice restores the table |
| DisponibilidadViews.Without | turnos/views.py:284-287 | exactly the windows with the given id are removed; nothing changes when none match |
| DisponibilidadViews.WithoutDropsOne | turnos/views.py:284-287 | with distinct ids, deleting a present id removes exactly one window |
| DisponibilidadViews.Activas | turnos/views.py:57-59 | exactly the active windows, each as many times as in the table (inactive ones none), ordered by (dia_semana, hora_inicio) |
| DisponibilidadViews.Listed | turnos/views.py:265 | all windows, as a permutation of the table, ordered by (dia_semana, hora_inicio) |
| DisponibilidadViews.DisponibilidadTable.Agregar | turnos/views.py:271-281 | a non-practitioner is refused; a missing field is refused by the NOT NULL columns; otherwise exactly one window with the given day and times and activo = true is appended |
| DisponibilidadViews.DisponibilidadTable.Eliminar | turnos/views.py:284-287 | a practitioner's delete leaves exactly the windows without that id, and is a no-op when none match |
| DisponibilidadViews.DisponibilidadTable.Toggle | turnos/views.py:289-294 | an id with no window is NotFound; otherwise the table becomes Toggled of the old one |

## Left out

- Slot generation at a 30-minute stride: the server code never computes slots. It only hands the active windows and the occupied pairs to a template.
- The browser script that builds the booking page: it is client-side UI code with its own mock data.
- Rendering, redirects, flash messages, JSON serialisation and the time/date formatting loops (turnos/views.py:62-64, 77-79).
- `calendar.monthcalendar` and `month_name`: library calls. A month outside 1..12 makes `monthcalendar` raise before the navigation code runs. That is why `PrevMonth` and `NextMonth` require 1..12.
- Calendar conversion: the month filter by year and month is given as a day-number range `[first, last]` supplied by the caller.
- The clock: `datetime.now()` is replaced by a `today` parameter. The automatic creation and update timestamps are not modelled.
- Parsing of submitted strings: in `Agendar`, `None` is a fecha or hora that is absent or empty, and turnos/views.py:34 refuses both. In `Agregar`, `None` is a field absent from the request. A malformed date or time in the booking view, an empty or malformed day or time in agregar, and an empty or malformed id make the framework raise; that path is not modelled.
- GET requests to the cancel and detail views: they only render a page and change nothing.
- The patient profile's get-or-create at turnos/views.py:24: profiles are not a table here. A patient is identified with its user id.
- The role checks of the read-only views (turnos/views.py:103, 161): the queries they guard are modelled, the gates are not.
- The check-then-create race between two concurrent bookings: concurrency is out of scope. The table constraint is modelled as part of the insert.
- The disponibilidad view's fallback for an unrecognised action: it changes nothing, and each action is modelled as its own method.
- TurnoViews.TurnoStore.Agendar: the motivo width check assumes the database enforces the declared column width, as PostgreSQL does; SQLite would store a longer motivo. When both the width and the uniqueness check fail, the model reports the width error.
- TurnoViews.TurnoStore.Agendar: ids consumed by failed inserts are not modelled; `nextId` advances only on success.
- TurnoQueries.Past: when more than ten past turnos exist, the contract bounds the result at ten, keeps the newest and repeats no row beyond its count in the table; it does not state separately that exactly ten are returned.
- TurnoQueries.Occupied: when live slots are not unique, the contract does not say how many times a shared pair is repeated.
