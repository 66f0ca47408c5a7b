/** The MySQL store as in-memory tables: the rows of `users`, `doctors`,
    `appointments` and `departments`, the `AUTO_INCREMENT` counters that
    assign their ids, and the `WHERE` filter the controllers' queries use. */
module Tables {
  import opened Wrappers

  datatype Status = Scheduled | Cancelled

  /** `users(id, name, email, phone, password, isActive, role)`; `phone` is
      ciphertext and `password` a bcrypt hash. */
  datatype UserRow = UserRow(id: nat, name: string, email: string, phone: string, password: string,
                             isActive: bool, role: Option<string>)

  /** `doctors(id, name, specialty, email, phone, password, image, description, experience_years, isActive)` */
  datatype DoctorRow = DoctorRow(id: nat, name: string, specialty: string, email: string, phone: string,
                                 password: string, image: Option<string>, description: string,
                                 experienceYears: int, isActive: bool)

  /** `appointments(id, user_id, doctor_id, date, reason, status)`; `reason` is ciphertext. */
  datatype AppointmentRow = AppointmentRow(id: nat, userId: nat, doctorId: nat, date: string, reason: string,
                                           status: Status)

  /** `departments(id, name, description, image)` */
  datatype DepartmentRow = DepartmentRow(id: nat, name: string, description: Option<string>, image: Option<string>)

  /** Index of the first row satisfying `p`, or `|s|` when there is none. */
  function FirstIndex<T>(s: seq<T>, p: T -> bool): (i: nat)
    ensures i <= |s|
    ensures forall j :: 0 <= j < i ==> !p(s[j])
    ensures i < |s| ==> p(s[i])
  {
    if s == [] then 0 else if p(s[0]) then 0 else 1 + FirstIndex(s[1..], p)
  }

  /** `SELECT … WHERE p`: the rows satisfying `p`, in table order. */
  function Where<T(!new)>(s: seq<T>, p: T -> bool): (r: seq<T>)
    ensures |r| <= |s|
  {
    if s == [] then []
    else if p(s[0]) then [s[0]] + Where(s[1..], p)
    else Where(s[1..], p)
  }

  /** The filter keeps exactly the rows satisfying `p`; it is empty when
      no row does, and otherwise starts with the first row that does. */
  lemma {:induction false} WhereMembers<T(!new)>(s: seq<T>, p: T -> bool)
    ensures forall x :: x in Where(s, p) <==> x in s && p(x)
    ensures Where(s, p) == [] <==> forall i :: 0 <= i < |s| ==> !p(s[i])
    ensures forall k :: 0 <= k < |s| && p(s[k]) && (forall j :: 0 <= j < k ==> !p(s[j])) ==>
      Where(s, p) != [] && Where(s, p)[0] == s[k]
  {
    if s != [] {
      var tail := s[1..];
      WhereMembers(tail, p);
      assert forall i :: 0 <= i < |tail| ==> tail[i] == s[i + 1];
      forall k | 0 <= k < |s| && p(s[k]) && (forall j :: 0 <= j < k ==> !p(s[j]))
        ensures Where(s, p) != [] && Where(s, p)[0] == s[k]
      {
        if k > 0 {
          assert p(tail[k - 1]) && forall j :: 0 <= j < k - 1 ==> !p(tail[j]);
        }
      }
    }
  }

  /** `Array.prototype.find`: the first element satisfying `p`. */
  function Find<T>(s: seq<T>, p: T -> bool): (r: Option<T>)
    ensures r.None? <==> forall i :: 0 <= i < |s| ==> !p(s[i])
    ensures r.Some? ==> r.value in s && p(r.value)
  {
    var i := FirstIndex(s, p);
    if i < |s| then Some(s[i]) else None
  }

  /** `WHERE p OR q` */
  function Either<T(!new)>(p: T -> bool, q: T -> bool): (r: T -> bool)
    ensures forall x :: r(x) == (p(x) || q(x))
  {
    x => p(x) || q(x)
  }

  /** Selecting the rows that match either condition and then looking for a
      match of each condition among them finds exactly the conditions some
      row of the table meets. */
  lemma ScreenFinds<T(!new)>(rows: seq<T>, p: T -> bool, q: T -> bool)
    ensures Find(Where(rows, Either(p, q)), p).Some? <==> exists x :: x in rows && p(x)
    ensures Find(Where(rows, Either(p, q)), q).Some? <==> exists x :: x in rows && q(x)
  {
    var hits := Where(rows, Either(p, q));
    WhereMembers(rows, Either(p, q));
    if x :| x in rows && p(x) {
      assert x in hits;
    }
    if x :| x in rows && q(x) {
      assert x in hits;
    }
  }

  /** A primary key: every row's key is below the table's `AUTO_INCREMENT`
      counter and no two rows share one. */
  ghost predicate KeyedBelow<T>(rows: seq<T>, key: T -> nat, next: nat) {
    && (forall i :: 0 <= i < |rows| ==> key(rows[i]) < next)
    && (forall i, j :: 0 <= i < j < |rows| ==> key(rows[i]) != key(rows[j]))
  }

  /** An insert that takes the counter's value as its key keeps the key a primary key. */
  lemma KeyedAppend<T>(rows: seq<T>, key: T -> nat, next: nat, row: T)
    requires KeyedBelow(rows, key, next) && key(row) == next
    ensures KeyedBelow(rows + [row], key, next + 1)
  {
  }

  /** An update that leaves every key in place keeps the key a primary key. */
  lemma KeyedSameKeys<T>(rows: seq<T>, rows': seq<T>, key: T -> nat, next: nat)
    requires KeyedBelow(rows, key, next)
    requires |rows'| == |rows| && forall i :: 0 <= i < |rows| ==> key(rows'[i]) == key(rows[i])
    ensures KeyedBelow(rows', key, next)
  {
    assert forall i, j :: 0 <= i < j < |rows| ==> key(rows'[i]) == key(rows[i]) && key(rows'[j]) == key(rows[j]);
  }

  /** A delete keeps the key a primary key. */
  lemma {:induction false} KeyedWhere<T(!new)>(rows: seq<T>, p: T -> bool, key: T -> nat, next: nat)
    requires KeyedBelow(rows, key, next)
    ensures KeyedBelow(Where(rows, p), key, next)
  {
    if rows != [] {
      var tail := rows[1..];
      assert KeyedBelow(tail, key, next) by {
        assert forall i :: 0 <= i < |tail| ==> tail[i] == rows[i + 1];
      }
      KeyedWhere(tail, p, key, next);
      if p(rows[0]) {
        var w := Where(tail, p);
        WhereMembers(tail, p);
        assert forall x :: x in w ==> key(x) != key(rows[0]) by {
          forall x | x in w ensures key(x) != key(rows[0]) {
            assert x in tail;
            var i :| 0 <= i < |tail| && tail[i] == x;
            assert rows[i + 1] == x;
          }
        }
        var r := [rows[0]] + w;
        assert forall j :: 0 < j < |r| ==> r[j] == w[j - 1] && r[j] in w;
      }
    }
  }

  function UserId(u: UserRow): nat { u.id }
  function DoctorId(d: DoctorRow): nat { d.id }
  function AppointmentId(a: AppointmentRow): nat { a.id }
  function DepartmentId(d: DepartmentRow): nat { d.id }

  /** The database the controllers share. Requests run one at a time, each
      as one atomic call. */
  class Database {
    var users: seq<UserRow>
    var doctors: seq<DoctorRow>
    var appointments: seq<AppointmentRow>
    var departments: seq<DepartmentRow>
    var nextUserId: nat
    var nextDoctorId: nat
    var nextAppointmentId: nat
    var nextDepartmentId: nat
    /** The `DEFAULT` of `users.role`, which a registration that omits the
        column stores; the schema that fixes it is not part of this model. */
    const defaultRole: Option<string>

    /** Every table's `id` is a primary key assigned by its counter. */
    ghost predicate Valid()
      reads this
    {
      && KeyedBelow(users, UserId, nextUserId)
      && KeyedBelow(doctors, DoctorId, nextDoctorId)
      && KeyedBelow(appointments, AppointmentId, nextAppointmentId)
      && KeyedBelow(departments, DepartmentId, nextDepartmentId)
    }

    /** Empty tables whose counters start at 1, as `AUTO_INCREMENT` does. */
    constructor (defaultRole: Option<string>)
      ensures Valid() && this.defaultRole == defaultRole
      ensures users == [] && doctors == [] && appointments == [] && departments == []
      ensures nextUserId == 1 && nextDoctorId == 1 && nextAppointmentId == 1 && nextDepartmentId == 1
    {
      users, doctors, appointments, departments := [], [], [], [];
      nextUserId, nextDoctorId, nextAppointmentId, nextDepartmentId := 1, 1, 1, 1;
      this.defaultRole := defaultRole;
    }
  }
}
