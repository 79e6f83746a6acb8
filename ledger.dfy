/** The leave ledger of main.py: an in-memory table of student records, each
    holding a balance of leave days and the list of dates already booked, and
    the operations that look a student up, book leave, report a student's
    status and cancel leave.

    The table is the field `students` of class `Ledger`; the operations that
    change it are methods that update the matching record in place.  Each
    method is specified by a function over the table (`Request`, `Cancel`,
    `StatusOf`), and LedgerProperties proves what those functions promise. */
module LeaveLedger {
  import opened LeaveDates

  /** One record of `students_db`.  `dob` is carried but never read. */
  datatype Student = Student(
    name: string,
    schoolId: string,
    dob: string,
    grade: string,
    holidaysLeft: nat,
    holidaysTaken: seq<string>)

  /** What `request_leave` and `cancel_leave` report.  The source returns
      formatted messages; the outcome keeps the figures they show.
      `RemoveFailed` is the `ValueError` that `list.remove` raises when the
      same booked date is cancelled more times than it is held. */
  datatype Outcome =
    | StudentNotFound
    | AllTaken
    | Denied(left: nat)
    | Approved(count: nat, left: nat)
    | NoneBooked
    | Cancelled(count: nat, left: nat)
    | RemoveFailed(date: string)

  /** What `check_leave_status` returns: the error object, or the projection
      of the record without its date of birth. */
  datatype LeaveStatus =
    | StatusNotFound
    | Status(name: string, schoolId: string, grade: string, holidaysLeft: nat, holidaysTaken: seq<string>)

  /** Position of the first record whose `school_id` is `id`: the record that
      `find_student` returns, and whose later updates are seen by the table
      because the dictionary it returns is the table's own. */
  function FirstMatch(db: seq<Student>, id: string): (r: Option<nat>)
    ensures r.Some? ==> r.value < |db| && db[r.value].schoolId == id
    ensures r.Some? ==> forall j :: 0 <= j < r.value ==> db[j].schoolId != id
    ensures r.None? ==> forall j :: 0 <= j < |db| ==> db[j].schoolId != id
  {
    if db == [] then None
    else if db[0].schoolId == id then Some(0)
    else match FirstMatch(db[1..], id)
      case None => None
      case Some(k) => Some(k + 1)
  }

  /** Days booked plus days left: the total that booking and cancelling move
      between the two fields of a record. */
  function Budget(s: Student): nat
  {
    s.holidaysLeft + |s.holidaysTaken|
  }

  /** The fields no operation ever writes. */
  predicate SameIdentity(a: Student, b: Student)
  {
    a.name == b.name && a.schoolId == b.schoolId && a.dob == b.dob && a.grade == b.grade
  }

  /** `request_leave` once the record is found: book the requested dates not
      yet booked, all of them or none. */
  function Book(s: Student, dates: seq<string>): (r: (Outcome, Student))
    ensures r.0.AllTaken? || r.0.Denied? || r.0.Approved?
    ensures !r.0.Approved? ==> r.1 == s
    ensures SameIdentity(s, r.1) && Budget(r.1) == Budget(s)
  {
    var newDates := NewDates(dates, s.holidaysTaken);
    if newDates == [] then (AllTaken, s)
    else if s.holidaysLeft < |newDates| then (Denied(s.holidaysLeft), s)
    else
      var booked := s.(holidaysTaken := s.holidaysTaken + newDates,
                       holidaysLeft := s.holidaysLeft - |newDates|);
      (Approved(|newDates|, booked.holidaysLeft), booked)
  }

  /** `cancel_leave` once the record is found: remove the requested dates that
      are booked, then credit them.  If a removal raises, the removals before
      it stay made and no credit is given. */
  function Unbook(s: Student, dates: seq<string>): (r: (Outcome, Student))
    ensures r.0.NoneBooked? || r.0.RemoveFailed? || r.0.Cancelled?
    ensures r.0.NoneBooked? ==> r.1 == s
    ensures r.0.RemoveFailed? ==> r.1.holidaysLeft == s.holidaysLeft
    ensures r.0.Cancelled? ==> Budget(r.1) == Budget(s)
    ensures SameIdentity(s, r.1) && |r.1.holidaysTaken| <= |s.holidaysTaken|
  {
    var cancelable := Cancelable(dates, s.holidaysTaken);
    if cancelable == [] then (NoneBooked, s)
    else
      var run := RemoveEach(s.holidaysTaken, cancelable);
      if run.missing.Some? then (RemoveFailed(run.missing.value), s.(holidaysTaken := run.rest))
      else
        var credited := s.(holidaysTaken := run.rest,
                           holidaysLeft := s.holidaysLeft + |cancelable|);
        (Cancelled(|cancelable|, credited.holidaysLeft), credited)
  }

  /** `Unbook` when the removal loop raises on `d`. */
  lemma UnbookFails(s: Student, dates: seq<string>, rest: seq<string>, d: string)
    requires Cancelable(dates, s.holidaysTaken) != []
    requires RemoveEach(s.holidaysTaken, Cancelable(dates, s.holidaysTaken)) == Removal(rest, Some(d))
    ensures Unbook(s, dates) == (RemoveFailed(d), s.(holidaysTaken := rest))
  {
  }

  /** `Unbook` when the removal loop completes. */
  lemma UnbookCompletes(s: Student, dates: seq<string>, rest: seq<string>)
    requires Cancelable(dates, s.holidaysTaken) != []
    requires RemoveEach(s.holidaysTaken, Cancelable(dates, s.holidaysTaken)) == Removal(rest, None)
    ensures Unbook(s, dates).1 == s.(holidaysTaken := rest, holidaysLeft := s.holidaysLeft + |Cancelable(dates, s.holidaysTaken)|)
    ensures Unbook(s, dates).0 == Cancelled(|Cancelable(dates, s.holidaysTaken)|, s.holidaysLeft + |Cancelable(dates, s.holidaysTaken)|)
  {
  }

  /** `request_leave(id, dates)` on the table `db`: the outcome and the table after. */
  function Request(db: seq<Student>, id: string, dates: seq<string>): (r: (Outcome, seq<Student>))
    ensures r.0.StudentNotFound? <==> FirstMatch(db, id).None?
    ensures |r.1| == |db|
    ensures forall j :: 0 <= j < |db| && FirstMatch(db, id) != Some(j) ==> r.1[j] == db[j]
    ensures forall j :: 0 <= j < |db| ==> SameIdentity(db[j], r.1[j])
  {
    match FirstMatch(db, id)
    case None => (StudentNotFound, db)
    case Some(i) => var (out, s) := Book(db[i], dates); (out, db[i := s])
  }

  /** `cancel_leave(id, dates)` on the table `db`: the outcome and the table after. */
  function Cancel(db: seq<Student>, id: string, dates: seq<string>): (r: (Outcome, seq<Student>))
    ensures r.0.StudentNotFound? <==> FirstMatch(db, id).None?
    ensures |r.1| == |db|
    ensures forall j :: 0 <= j < |db| && FirstMatch(db, id) != Some(j) ==> r.1[j] == db[j]
    ensures forall j :: 0 <= j < |db| ==> SameIdentity(db[j], r.1[j])
  {
    match FirstMatch(db, id)
    case None => (StudentNotFound, db)
    case Some(i) => var (out, s) := Unbook(db[i], dates); (out, db[i := s])
  }

  /** `Cancel` on a known student is `Unbook` of its record, written back. */
  lemma CancelAt(db: seq<Student>, id: string, dates: seq<string>, i: nat)
    requires FirstMatch(db, id) == Some(i)
    ensures Cancel(db, id, dates) == (Unbook(db[i], dates).0, db[i := Unbook(db[i], dates).1])
  {
  }

  /** True when `r` is the status report of record `s`. */
  predicate Reports(s: Student, r: LeaveStatus)
  {
    r == Status(s.name, s.schoolId, s.grade, s.holidaysLeft, s.holidaysTaken)
  }

  /** `check_leave_status(id)` on the table `db`. */
  function StatusOf(db: seq<Student>, id: string): (r: LeaveStatus)
    ensures r.StatusNotFound? <==> forall j :: 0 <= j < |db| ==> db[j].schoolId != id
    ensures r.Status? ==> r.schoolId == id
    ensures r.Status? ==> exists i :: 0 <= i < |db| && Reports(db[i], r) &&
                                      forall j :: 0 <= j < i ==> db[j].schoolId != id
  {
    match FirstMatch(db, id)
    case None => StatusNotFound
    case Some(i) =>
      var s := db[i];
      Status(s.name, s.schoolId, s.grade, s.holidaysLeft, s.holidaysTaken)
  }

  /** The five records `students_db` starts with.  Every student starts with
      ten days in all: S005 has three of them booked already. */
  function Seed(): (r: seq<Student>)
    ensures |r| == 5
    ensures forall j :: 0 <= j < |r| ==> Budget(r[j]) == 10
  {
    [ Student("Alice Johnson", "S001", "2007-03-14", "10", 10, []),
      Student("Bob Smith", "S002", "2006-09-22", "11", 10, []),
      Student("Cathy Lin", "S003", "2008-01-05", "9", 10, []),
      Student("David Okoro", "S004", "2005-12-18", "12", 10, []),
      Student("Ella Thompson", "S005", "2007-06-30", "10", 7,
              ["12-20-2024", "01-01-2025", "01-03-2025"]) ]
  }

  /** The process-wide table and the operations the server exposes on it. */
  class Ledger {
    var students: seq<Student>

    constructor (db: seq<Student>)
      ensures students == db
    {
      students := db;
    }

    /** `find_student`: scan the table in order and stop at the first match. */
    method FindStudent(id: string) returns (r: Option<nat>)
      ensures r == FirstMatch(students, id)
    {
      var i := 0;
      while i < |students|
        invariant 0 <= i <= |students|
        invariant forall j :: 0 <= j < i ==> students[j].schoolId != id
      {
        if students[i].schoolId == id {
          return Some(i);
        }
        i := i + 1;
      }
      return None;
    }

    /** `request_leave`: extend the booked list, then debit the balance. */
    method RequestLeave(id: string, dates: seq<string>) returns (out: Outcome)
      modifies this
      ensures (out, students) == Request(old(students), id, dates)
    {
      var found := FindStudent(id);
      if found.None? {
        return StudentNotFound;
      }
      var i := found.value;
      ghost var s0 := students[i];
      var newDates := NewDates(dates, students[i].holidaysTaken);
      assert students[i := s0] == students;
      if newDates == [] {
        return AllTaken;
      }
      if students[i].holidaysLeft < |newDates| {
        return Denied(students[i].holidaysLeft);
      }
      students := students[i := students[i].(holidaysTaken := students[i].holidaysTaken + newDates)];
      students := students[i := students[i].(holidaysLeft := students[i].holidaysLeft - |newDates|)];
      assert students == old(students)[i := Book(s0, dates).1];
      return Approved(|newDates|, students[i].holidaysLeft);
    }

    /** `check_leave_status`: read-only. */
    method CheckLeaveStatus(id: string) returns (r: LeaveStatus)
      ensures r == StatusOf(students, id)
    {
      var found := FindStudent(id);
      if found.None? {
        return StatusNotFound;
      }
      var s := students[found.value];
      return Status(s.name, s.schoolId, s.grade, s.holidaysLeft, s.holidaysTaken);
    }

    /** `cancel_leave`: remove the booked dates one `remove` at a time, then
        credit the balance.  A `remove` that raises ends the call with the
        earlier removals already applied to the record. */
    method CancelLeave(id: string, dates: seq<string>) returns (out: Outcome)
      modifies this
      ensures (out, students) == Cancel(old(students), id, dates)
    {
      var found := FindStudent(id);
      if found.None? {
        return StudentNotFound;
      }
      var i := found.value;
      CancelAt(students, id, dates, i);
      var cancelable := Cancelable(dates, students[i].holidaysTaken);
      assert students[i := students[i]] == students;
      if cancelable == [] {
        return NoneBooked;
      }
      ghost var s0 := students[i];
      var k := 0;
      while k < |cancelable|
        invariant k <= |cancelable| && i < |students|
        invariant RemoveEach(s0.holidaysTaken, cancelable[..k]) == Removal(students[i].holidaysTaken, None)
        invariant students == old(students)[i := s0.(holidaysTaken := students[i].holidaysTaken)]
      {
        var date := cancelable[k];
        RemoveEachStep(s0.holidaysTaken, cancelable, k, students[i].holidaysTaken);
        if date !in students[i].holidaysTaken {
          RemoveEachStops(s0.holidaysTaken, cancelable, k + 1);
          UnbookFails(s0, dates, students[i].holidaysTaken, date);
          return RemoveFailed(date);
        }
        students := students[i := students[i].(holidaysTaken := RemoveFirst(students[i].holidaysTaken, date))];
        k := k + 1;
      }
      assert cancelable[..k] == cancelable;
      UnbookCompletes(s0, dates, students[i].holidaysTaken);
      ghost var credited := Unbook(s0, dates).1;
      assert credited == students[i].(holidaysLeft := students[i].holidaysLeft + |cancelable|);
      students := students[i := students[i].(holidaysLeft := students[i].holidaysLeft + |cancelable|)];
      assert students == old(students)[i := credited];
      return Cancelled(|cancelable|, students[i].holidaysLeft);
    }
  }
}
