/** `src/controller/appointmentsController.js`: booking, listing and
    cancelling appointments for the caller the bearer token names. */
module AppointmentsController {
  import opened Wrappers
  import opened Json
  import opened Platform
  import opened Errors
  import opened Tables
  import opened JsString

  /** The body fields `createAppointment` reads, as sent; an absent field is None. */
  datatype Booking = Booking(doctorId: Option<Value>, date: Option<Value>, reason: Option<Value>)

  /** An appointment as the API shows it: the reason in plain text. */
  datatype AppointmentView = AppointmentView(id: nat, userId: nat, doctorId: nat, date: string, reason: string,
                                             status: Status)

  /** The `appointment` a booking responds with: `doctor_id` and `reason`
      echoed as they were sent, `date` as stored. */
  datatype Created = Created(id: nat, userId: nat, doctorId: Value, date: string, reason: Value, status: Status)

  /** JavaScript truthiness of a body field: absent, `null`, `false`, `0` and
      `""` are falsy; objects and arrays are truthy. */
  predicate Truthy(v: Option<Value>) {
    match v
    case None => false
    case Some(Str(s)) => s != ""
    case Some(Num(n)) => n != 0.0
    case Some(Bool(b)) => b
    case Some(Null) => false
    case Some(Structured) => true
  }

  /** `encrypt({ plaintext: reason })`, which runs before any check: a string
      is enciphered; anything else goes to the helper's own handling. */
  function EncryptReason(s: Services, reason: Option<Value>): (r: Result<string, string>)
    ensures reason.Some? && reason.value.Str? ==> r == Ok(s.encrypt(reason.value.s))
    ensures !(reason.Some? && reason.value.Str?) ==> r == s.encryptOther(reason)
  {
    match reason
    case Some(Str(plain)) => Ok(s.encrypt(plain))
    case _ => s.encryptOther(reason)
  }

  /** `s.replace(c, d)` with a one-character pattern: the first occurrence only. */
  function ReplaceFirst(s: string, c: char, d: char): (r: string)
    ensures |r| == |s|
    ensures c !in s ==> r == s
    ensures c in s ==> exists i :: 0 <= i < |s| && s[i] == c && c !in s[..i] && r == s[..i] + [d] + s[i + 1..]
  {
    if c in s then s[..IndexOf(s, c)] + [d] + s[IndexOf(s, c) + 1..] else s
  }

  /** Replacing the first occurrence removes exactly one of them. */
  lemma ReplaceFirstCount(s: string, c: char, d: char)
    requires c in s && d != c
    ensures Count(ReplaceFirst(s, c, d), c) == Count(s, c) - 1
  {
    var i := IndexOf(s, c);
    assert s == s[..i] + [c] + s[i + 1..];
    CountAppend(s[..i], [c], c);
    CountAppend(s[..i] + [c], s[i + 1..], c);
    CountAppend(s[..i], [d], c);
    CountAppend(s[..i] + [d], s[i + 1..], c);
    assert Count([c], c) == 1 && Count([d], c) == 0;
  }

  /** The date as stored: a date containing `T` becomes
      `new Date(date).toISOString().slice(0, 19).replace('T', ' ')`; any other is kept. */
  function StoredDate(s: Services, date: string): (r: Result<string, Failure>)
    ensures 'T' !in date ==> r == Ok(date)
    ensures 'T' in date && s.toIsoString(date).None? ==> r == Err(InvalidTimeValue)
    ensures 'T' in date && s.toIsoString(date).Some? ==> r.Ok? && |r.value| <= 19
  {
    if 'T' in date then
      match s.toIsoString(date)
      case None => Err(InvalidTimeValue)
      case Some(iso) => Ok(ReplaceFirst(iso[..if |iso| < 19 then |iso| else 19], 'T', ' '))
    else Ok(date)
  }

  /** With an ISO string of the usual shape (one `T` among its first 19
      characters) the stored date has no `T`, so converting again keeps it. */
  lemma StoredDateSettles(s: Services, date: string, iso: string)
    requires 'T' in date && s.toIsoString(date) == Some(iso)
    requires |iso| >= 19 && Count(iso[..19], 'T') == 1
    ensures StoredDate(s, date).Ok? && 'T' !in StoredDate(s, date).value
    ensures StoredDate(s, StoredDate(s, date).value) == StoredDate(s, date)
  {
    assert 'T' in iso[..19] by {
      if 'T' !in iso[..19] { CountAbsent(iso[..19], 'T'); }
    }
    ReplaceFirstCount(iso[..19], 'T', ' ');
    var r := StoredDate(s, date).value;
    assert Count(r, 'T') == 0;
    if 'T' in r {
      CountPresent(r, 'T');
    }
  }

  function View(s: Services, a: AppointmentRow): (v: AppointmentView)
    ensures v.id == a.id && v.userId == a.userId && v.doctorId == a.doctorId && v.date == a.date
    ensures v.reason == s.decrypt(a.reason) && v.status == a.status
  {
    AppointmentView(a.id, a.userId, a.doctorId, a.date, s.decrypt(a.reason), a.status)
  }

  /** What `createAppointment` promises: the reason is encrypted first, and
      an error the cipher throws there is reported before anything else; then
      a falsy field; then a `date` that is not a string, which has no
      `includes`; then an unparsable `T` date; then an unknown doctor; then a
      caller without an id (the driver refuses the `undefined` parameter);
      otherwise one row is appended with the caller's id, the doctor's id, the
      stored date, the encrypted reason and status `scheduled`, and the
      response echoes `doctor_id` and `reason` as sent. */
  function CreateAppointmentSpec(s: Services, doctors: seq<DoctorRow>, appointments: seq<AppointmentRow>, nextId: nat,
                                 caller: Option<nat>, b: Booking): Result<(seq<AppointmentRow>, Created), Failure> {
    match EncryptReason(s, b.reason)
    case Err(message) => Err(Thrown(message))
    case Ok(encryptedReason) =>
      if !Truthy(b.doctorId) || !Truthy(b.date) || !Truthy(b.reason) then Err(MissingFields)
      else if !b.date.value.Str? then Err(NotAFunction("date.includes"))
      else
        match StoredDate(s, b.date.value.s)
        case Err(e) => Err(e)
        case Ok(date) =>
          var id := s.bindId(b.doctorId.value);
          if !exists d :: d in doctors && id == Some(d.id) then Err(AccountNotFound(DoctorAccount))
          else if caller.None? then Err(UndefinedBindParameter)
          else
            var doctorId: nat := id.value;
            Ok((appointments + [AppointmentRow(nextId, caller.value, doctorId, date, encryptedReason, Scheduled)],
                Created(nextId, caller.value, b.doctorId.value, date, b.reason.value, Scheduled)))
  }

  /** `createAppointment`. */
  method CreateAppointment(db: Database, s: Services, caller: Option<nat>, b: Booking)
    returns (res: Result<Created, Failure>)
    requires db.Valid()
    modifies db`appointments, db`nextAppointmentId
    ensures db.Valid()
    ensures match CreateAppointmentSpec(s, old(db.doctors), old(db.appointments), old(db.nextAppointmentId), caller, b)
      case Ok((rows, shown)) =>
        res == Ok(shown) && db.appointments == rows && db.nextAppointmentId == old(db.nextAppointmentId) + 1
      case Err(e) =>
        res == Err(e) && db.appointments == old(db.appointments) && db.nextAppointmentId == old(db.nextAppointmentId)
  {
    var userId := caller;
    var encrypted := EncryptReason(s, b.reason);
    if encrypted.Err? {
      return Err(Thrown(encrypted.error));
    }
    var encryptedReason := encrypted.value;
    if !Truthy(b.doctorId) || !Truthy(b.date) || !Truthy(b.reason) {
      return Err(MissingFields);
    }
    if !b.date.value.Str? {
      return Err(NotAFunction("date.includes"));
    }
    var stored := StoredDate(s, b.date.value.s);
    if stored.Err? {
      return Err(stored.error);
    }
    var date := stored.value;
    var id := s.bindId(b.doctorId.value);
    var withId := (d: DoctorRow) => id == Some(d.id);
    var doctorCheck := Where(db.doctors, withId);
    WhereMembers(db.doctors, withId);
    if |doctorCheck| == 0 {
      return Err(AccountNotFound(DoctorAccount));
    }
    assert doctorCheck[0] in db.doctors;
    if userId.None? {
      return Err(UndefinedBindParameter);
    }
    var doctorId: nat := id.value;
    var row := AppointmentRow(db.nextAppointmentId, userId.value, doctorId, date, encryptedReason, Scheduled);
    KeyedAppend(db.appointments, AppointmentId, db.nextAppointmentId, row);
    db.appointments := db.appointments + [row];
    db.nextAppointmentId := db.nextAppointmentId + 1;
    res := Ok(Created(row.id, userId.value, b.doctorId.value, date, b.reason.value, Scheduled));
  }

  /** A booking is the caller's and names a doctor in the table: the row
      holds the id the sent `doctor_id` matched and the date the response
      shows, and a reason sent as text is what listing the row shows. */
  lemma BookingIsCallers(s: Services, doctors: seq<DoctorRow>, appointments: seq<AppointmentRow>, nextId: nat,
                         caller: Option<nat>, b: Booking)
    requires CipherRoundTrip(s)
    requires CreateAppointmentSpec(s, doctors, appointments, nextId, caller, b).Ok?
    ensures var (rows, shown) := CreateAppointmentSpec(s, doctors, appointments, nextId, caller, b).value;
      var row := rows[|appointments|];
      && rows == appointments + [row]
      && caller == Some(row.userId) && shown.userId == row.userId && shown.id == row.id == nextId
      && Some(shown.doctorId) == b.doctorId && s.bindId(shown.doctorId) == Some(row.doctorId)
      && (exists d :: d in doctors && d.id == row.doctorId)
      && shown.date == row.date
      && Some(shown.reason) == b.reason && (shown.reason.Str? ==> View(s, row).reason == shown.reason.s)
      && shown.status == row.status == Scheduled
  {
    var row := CreateAppointmentSpec(s, doctors, appointments, nextId, caller, b).value.0[|appointments|];
    assert b.reason.value.Str? ==> s.decrypt(s.encrypt(b.reason.value.s)) == b.reason.value.s;
  }

  /** The reason is encrypted before the fields are checked, so an error the
      cipher throws on a missing or non-text reason is what the caller gets,
      and a booking with every field present but a `date` that is not text
      fails at `date.includes`. */
  lemma EncryptionPrecedesChecks(s: Services, doctors: seq<DoctorRow>, appointments: seq<AppointmentRow>, nextId: nat,
                                 caller: Option<nat>, b: Booking)
    ensures b.reason.None? ==> CreateAppointmentSpec(s, doctors, appointments, nextId, caller, b)
                                 == if s.encryptOther(None).Err? then Err(Thrown(s.encryptOther(None).error))
                                    else Err(MissingFields)
    ensures (Truthy(b.doctorId) && Truthy(b.date) && !b.date.value.Str? && b.reason.Some? && b.reason.value.Str? &&
             b.reason.value.s != "")
            ==> CreateAppointmentSpec(s, doctors, appointments, nextId, caller, b) == Err(NotAFunction("date.includes"))
  {
  }

  /** Lexicographic order on the stored date strings (`ORDER BY date`). */
  predicate DateLe(a: string, b: string)
    decreases |a|
  {
    a == [] || (b != [] && (a[0] < b[0] || (a[0] == b[0] && DateLe(a[1..], b[1..]))))
  }

  lemma {:induction false} DateLeReflexive(a: string)
    ensures DateLe(a, a)
    decreases |a|
  {
    if a != [] {
      DateLeReflexive(a[1..]);
    }
  }

  lemma {:induction false} DateLeTotal(a: string, b: string)
    ensures DateLe(a, b) || DateLe(b, a)
    decreases |a|
  {
    if a != [] && b != [] && a[0] == b[0] {
      DateLeTotal(a[1..], b[1..]);
    }
  }

  lemma {:induction false} DateLeTransitive(a: string, b: string, c: string)
    requires DateLe(a, b) && DateLe(b, c)
    ensures DateLe(a, c)
    decreases |a|
  {
    if a != [] && a[0] == b[0] && b[0] == c[0] {
      DateLeTransitive(a[1..], b[1..], c[1..]);
    }
  }

  /** Latest first: no appointment is listed before a later one. */
  predicate LatestFirst(rows: seq<AppointmentRow>) {
    forall i, j :: 0 <= i < j < |rows| ==> DateLe(rows[j].date, rows[i].date)
  }

  /** Putting a row no earlier than the head in front keeps the order. */
  lemma LatestFirstCons(y: AppointmentRow, rest: seq<AppointmentRow>)
    requires LatestFirst(rest)
    requires forall j :: 0 <= j < |rest| ==> DateLe(rest[j].date, y.date)
    ensures LatestFirst([y] + rest)
  {
    var r := [y] + rest;
    forall i, j | 0 <= i < j < |r| ensures DateLe(r[j].date, r[i].date) {
      assert r[j] == rest[j - 1];
      if i > 0 {
        assert r[i] == rest[i - 1];
      }
    }
  }

  /** Every row of a latest-first list is no later than its head. */
  lemma BelowHead(rows: seq<AppointmentRow>, x: AppointmentRow)
    requires LatestFirst(rows) && rows != []
    requires DateLe(rows[0].date, x.date)
    ensures forall j :: 0 <= j < |rows| ==> DateLe(rows[j].date, x.date)
  {
    forall j | 0 <= j < |rows| ensures DateLe(rows[j].date, x.date) {
      if j == 0 {
        DateLeReflexive(rows[0].date);
      }
      DateLeTransitive(rows[j].date, rows[0].date, x.date);
    }
  }

  /** The rows after the head, with `x` added in any order, are no later than the head. */
  lemma TailBelowHead(rows: seq<AppointmentRow>, x: AppointmentRow, rest: seq<AppointmentRow>)
    requires LatestFirst(rows) && rows != []
    requires DateLe(x.date, rows[0].date)
    requires multiset(rest) == multiset(rows[1..]) + multiset{x}
    ensures forall j :: 0 <= j < |rest| ==> DateLe(rest[j].date, rows[0].date)
  {
    forall j | 0 <= j < |rest| ensures DateLe(rest[j].date, rows[0].date) {
      assert rest[j] in multiset(rest);
      if rest[j] != x {
        assert rest[j] in rows[1..];
        var k :| 0 <= k < |rows[1..]| && rows[1..][k] == rest[j];
        assert rows[k + 1] == rest[j];
      }
    }
  }

  /** One insertion step: `x` goes before the first row that is no later. */
  function InsertByDate(x: AppointmentRow, rows: seq<AppointmentRow>): (r: seq<AppointmentRow>)
    requires LatestFirst(rows)
    ensures multiset(r) == multiset(rows) + multiset{x}
    ensures LatestFirst(r)
  {
    if rows == [] then [x]
    else if DateLe(rows[0].date, x.date) then
      InsertInFront(rows, x);
      [x] + rows
    else
      DateLeTotal(rows[0].date, x.date);
      LatestFirstTail(rows);
      var rest := InsertByDate(x, rows[1..]);
      InsertBehind(rows, x, rest);
      [rows[0]] + rest
  }

  /** A row no earlier than the head goes in front. */
  lemma InsertInFront(rows: seq<AppointmentRow>, x: AppointmentRow)
    requires LatestFirst(rows) && rows != []
    requires DateLe(rows[0].date, x.date)
    ensures multiset([x] + rows) == multiset(rows) + multiset{x}
    ensures LatestFirst([x] + rows)
  {
    BelowHead(rows, x);
    LatestFirstCons(x, rows);
  }

  lemma LatestFirstTail(rows: seq<AppointmentRow>)
    requires LatestFirst(rows) && rows != []
    ensures LatestFirst(rows[1..])
  {
    assert forall j :: 0 <= j < |rows[1..]| ==> rows[1..][j] == rows[j + 1];
  }

  /** A row earlier than the head goes behind it, among the other rows. */
  lemma InsertBehind(rows: seq<AppointmentRow>, x: AppointmentRow, rest: seq<AppointmentRow>)
    requires LatestFirst(rows) && rows != []
    requires DateLe(x.date, rows[0].date)
    requires multiset(rest) == multiset(rows[1..]) + multiset{x} && LatestFirst(rest)
    ensures multiset([rows[0]] + rest) == multiset(rows) + multiset{x}
    ensures LatestFirst([rows[0]] + rest)
  {
    assert rows == [rows[0]] + rows[1..];
    TailBelowHead(rows, x, rest);
    LatestFirstCons(rows[0], rest);
  }

  /** `ORDER BY date DESC`: the same rows, latest first. */
  function SortByDateDesc(rows: seq<AppointmentRow>): (r: seq<AppointmentRow>)
    ensures multiset(r) == multiset(rows)
    ensures LatestFirst(r)
  {
    if rows == [] then []
    else
      assert rows == [rows[0]] + rows[1..];
      InsertByDate(rows[0], SortByDateDesc(rows[1..]))
  }

  function Views(s: Services, rows: seq<AppointmentRow>): seq<AppointmentView> {
    seq(|rows|, i requires 0 <= i < |rows| => View(s, rows[i]))
  }

  /** `getAppointmentsByUserId`: `SELECT * … WHERE user_id = ? ORDER BY date DESC`,
      each reason decrypted. A caller without an id is refused by the driver. */
  function MyAppointments(s: Services, appointments: seq<AppointmentRow>, caller: Option<nat>): (r: Result<seq<AppointmentView>, Failure>)
    ensures caller.None? <==> r == Err(UndefinedBindParameter)
    ensures r.Ok? ==> forall i, j :: 0 <= i < j < |r.value| ==> DateLe(r.value[j].date, r.value[i].date)
  {
    match caller
    case None => Err(UndefinedBindParameter)
    case Some(id) =>
      var rows := SortByDateDesc(Where(appointments, (a: AppointmentRow) => a.userId == id));
      var r := Views(s, rows);
      assert forall i, j :: 0 <= i < j < |r| ==> DateLe(r[j].date, r[i].date) by {
        assert forall i, j :: 0 <= i < j < |r| ==> r[i].date == rows[i].date && r[j].date == rows[j].date;
      }
      Ok(r)
  }

  /** Every appointment listed is one of the caller's, shown with its reason decrypted. */
  lemma MyAppointmentsSound(s: Services, appointments: seq<AppointmentRow>, id: nat, v: AppointmentView)
    requires MyAppointments(s, appointments, Some(id)).Ok?
    requires v in MyAppointments(s, appointments, Some(id)).value
    ensures v.userId == id
    ensures exists a :: a in appointments && a.userId == id && v == View(s, a)
  {
    var mine := Where(appointments, (a: AppointmentRow) => a.userId == id);
    WhereMembers(appointments, (a: AppointmentRow) => a.userId == id);
    var rows := SortByDateDesc(mine);
    var r := Views(s, rows);
    assert MyAppointments(s, appointments, Some(id)).value == r;
    var i :| 0 <= i < |r| && r[i] == v;
    var a := rows[i];
    assert a in multiset(mine);
    assert a in appointments && a.userId == id && v == View(s, a);
  }

  /** Every appointment of the caller is listed. */
  lemma MyAppointmentsComplete(s: Services, appointments: seq<AppointmentRow>, id: nat, a: AppointmentRow)
    requires a in appointments && a.userId == id
    ensures MyAppointments(s, appointments, Some(id)).Ok?
    ensures View(s, a) in MyAppointments(s, appointments, Some(id)).value
  {
    var mine := Where(appointments, (a: AppointmentRow) => a.userId == id);
    WhereMembers(appointments, (a: AppointmentRow) => a.userId == id);
    var rows := SortByDateDesc(mine);
    var r := Views(s, rows);
    assert MyAppointments(s, appointments, Some(id)).value == r;
    assert a in multiset(rows);
    var i :| 0 <= i < |rows| && rows[i] == a;
    assert r[i] == View(s, a);
  }

  /** The number of the caller's appointments listed is the number they have. */
  lemma MyAppointmentsCount(s: Services, appointments: seq<AppointmentRow>, id: nat)
    ensures |MyAppointments(s, appointments, Some(id)).value| == |Where(appointments, (a: AppointmentRow) => a.userId == id)|
  {
    var mine := Where(appointments, (a: AppointmentRow) => a.userId == id);
    assert |multiset(SortByDateDesc(mine))| == |multiset(mine)|;
  }

  /** `UPDATE appointments SET status = 'cancelled' WHERE id = ?` */
  function SetCancelled(appointments: seq<AppointmentRow>, id: nat): seq<AppointmentRow> {
    seq(|appointments|, i requires 0 <= i < |appointments| =>
      if appointments[i].id == id then appointments[i].(status := Cancelled) else appointments[i])
  }

  /** What `cancelAppointment` promises: a caller without an id is refused by
      the driver; no appointment with that id and the caller as owner is "not
      found" (also when the id is someone else's); otherwise the status of the
      appointment with that id becomes `cancelled`. */
  function CancelSpec(appointments: seq<AppointmentRow>, caller: Option<nat>, appointmentId: nat): Result<seq<AppointmentRow>, Failure> {
    if caller.None? then Err(UndefinedBindParameter)
    else if exists a :: a in appointments && a.id == appointmentId && a.userId == caller.value then
      Ok(SetCancelled(appointments, appointmentId))
    else Err(AppointmentNotFound)
  }

  /** `cancelAppointment`: one `SELECT … WHERE id = ? AND user_id = ?`, then the update by id. */
  method CancelAppointment(db: Database, caller: Option<nat>, appointmentId: nat) returns (res: Result<(), Failure>)
    requires db.Valid()
    modifies db`appointments
    ensures db.Valid()
    ensures match CancelSpec(old(db.appointments), caller, appointmentId)
      case Ok(rows) => res == Ok(()) && db.appointments == rows
      case Err(e) => res == Err(e) && db.appointments == old(db.appointments)
  {
    if caller.None? {
      return Err(UndefinedBindParameter);
    }
    var userId := caller.value;
    var owned := (a: AppointmentRow) => a.id == appointmentId && a.userId == userId;
    var appointmentCheck := Where(db.appointments, owned);
    WhereMembers(db.appointments, owned);
    if |appointmentCheck| == 0 {
      return Err(AppointmentNotFound);
    }
    assert appointmentCheck[0] in db.appointments;
    var rows := SetCancelled(db.appointments, appointmentId);
    KeyedSameKeys(db.appointments, rows, AppointmentId, db.nextAppointmentId);
    db.appointments := rows;
    res := Ok(());
  }

  /** Cancelling again succeeds and changes nothing more. */
  lemma CancelIdempotent(appointments: seq<AppointmentRow>, caller: Option<nat>, appointmentId: nat)
    requires CancelSpec(appointments, caller, appointmentId).Ok?
    ensures CancelSpec(CancelSpec(appointments, caller, appointmentId).value, caller, appointmentId)
         == CancelSpec(appointments, caller, appointmentId)
  {
    var once := SetCancelled(appointments, appointmentId);
    var a :| a in appointments && a.id == appointmentId && a.userId == caller.value;
    var i :| 0 <= i < |appointments| && appointments[i] == a;
    assert once[i] in once && once[i].id == appointmentId && once[i].userId == caller.value;
    assert SetCancelled(once, appointmentId) == once;
  }

  /** Another user's appointment cannot be cancelled: with ids unique, an id
      owned by someone else is "not found" and nothing changes. */
  lemma CancelOthersRefused(appointments: seq<AppointmentRow>, next: nat, caller: nat, k: nat)
    requires KeyedBelow(appointments, AppointmentId, next)
    requires k < |appointments| && appointments[k].userId != caller
    ensures CancelSpec(appointments, Some(caller), appointments[k].id) == Err(AppointmentNotFound)
  {
    forall a | a in appointments && a.id == appointments[k].id ensures a.userId != caller {
      var i :| 0 <= i < |appointments| && appointments[i] == a;
      assert AppointmentId(appointments[i]) == appointments[i].id && AppointmentId(appointments[k]) == appointments[k].id;
    }
  }

  /** With ids unique, a cancellation changes that one appointment's status and nothing else. */
  lemma CancelChangesOnlyThatAppointment(appointments: seq<AppointmentRow>, next: nat, caller: nat, k: nat)
    requires KeyedBelow(appointments, AppointmentId, next)
    requires k < |appointments| && appointments[k].userId == caller
    ensures CancelSpec(appointments, Some(caller), appointments[k].id).Ok?
    ensures var rows := CancelSpec(appointments, Some(caller), appointments[k].id).value;
      && |rows| == |appointments|
      && rows[k] == appointments[k].(status := Cancelled)
      && forall i :: 0 <= i < |appointments| && i != k ==> rows[i] == appointments[i]
  {
    assert appointments[k] in appointments;
    forall i | 0 <= i < |appointments| && i != k ensures appointments[i].id != appointments[k].id {
      assert AppointmentId(appointments[i]) != AppointmentId(appointments[k]);
    }
  }
}
