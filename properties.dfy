/** What the ledger's operations promise: the approve/deny rule of
    `request_leave`, the cancellation rule of `cancel_leave` with its failure
    on repeated dates, conservation of days, frame conditions, the
    book-then-cancel round trip, and the behaviour on the seed table. */
module LedgerProperties {
  import opened LeaveDates
  import opened LeaveLedger

  /** `after` differs from `before` at most in the leave fields of record `i`. */
  predicate OnlyLeaveChanged(before: seq<Student>, after: seq<Student>, i: nat)
  {
    && |after| == |before|
    && i < |before|
    && SameIdentity(before[i], after[i])
    && forall j :: 0 <= j < |before| && j != i ==> after[j] == before[j]
  }

  /** An unknown id is reported by all three operations and changes nothing. */
  lemma UnknownStudent(db: seq<Student>, id: string, dates: seq<string>)
    requires forall j :: 0 <= j < |db| ==> db[j].schoolId != id
    ensures Request(db, id, dates) == (StudentNotFound, db)
    ensures Cancel(db, id, dates) == (StudentNotFound, db)
    ensures StatusOf(db, id) == StatusNotFound
  {
    assert FirstMatch(db, id).None?;
  }

  /** `request_leave` on a known student: only dates not yet booked are
      considered; nothing changes when none are new or when the balance is
      too small for all of them; otherwise they are appended in input order
      and the balance is debited by exactly their number. */
  lemma RequestRule(db: seq<Student>, id: string, dates: seq<string>, i: nat)
    requires FirstMatch(db, id) == Some(i)
    ensures var s, newDates, (out, after) := db[i], NewDates(dates, db[i].holidaysTaken), Request(db, id, dates);
      && (out.AllTaken? <==> forall d :: d in dates ==> d in s.holidaysTaken)
      && (out.Denied? <==> newDates != [] && s.holidaysLeft < |newDates|)
      && (out.Approved? <==> newDates != [] && |newDates| <= s.holidaysLeft)
      && (out.AllTaken? || out.Denied? || out.Approved?)
      && (!out.Approved? ==> after == db)
      && (out.Denied? ==> out.left == s.holidaysLeft)
      && (out.Approved? ==>
            && out.count == |newDates|
            && after[i].holidaysTaken == s.holidaysTaken + newDates
            && after[i].holidaysLeft == s.holidaysLeft - |newDates| == out.left)
      && OnlyLeaveChanged(db, after, i)
      && Budget(after[i]) == Budget(s)
  {
    NewDatesEmpty(dates, db[i].holidaysTaken);
    assert db[i := db[i]] == db;
  }

  /** Requested dates that are already booked cost nothing: a request is
      charged once per requested entry not yet booked, so a new date
      requested twice is charged twice. */
  lemma RequestCharge(db: seq<Student>, id: string, dates: seq<string>, i: nat, d: string)
    requires FirstMatch(db, id) == Some(i)
    requires Request(db, id, dates).0.Approved?
    ensures var before, after := db[i].holidaysTaken, Request(db, id, dates).1[i].holidaysTaken;
      multiset(after)[d] == multiset(before)[d] + (if d in before then 0 else multiset(dates)[d])
  {
  }

  /** `cancel_leave` on a known student: nothing changes when no requested
      date is booked; the call raises exactly when some booked date is
      requested more often than it is booked; otherwise each requested
      booked date loses one occurrence per request and the balance is
      credited by exactly their number. */
  lemma CancelRule(db: seq<Student>, id: string, dates: seq<string>, i: nat)
    requires FirstMatch(db, id) == Some(i)
    ensures var s, cancelable, (out, after) := db[i], Cancelable(dates, db[i].holidaysTaken), Cancel(db, id, dates);
      && (out.NoneBooked? <==> forall d :: d in dates ==> d !in s.holidaysTaken)
      && (out.RemoveFailed? <==>
            exists d :: d in s.holidaysTaken && multiset(s.holidaysTaken)[d] < multiset(dates)[d])
      && (out.NoneBooked? || out.RemoveFailed? || out.Cancelled?)
      && (out.NoneBooked? ==> after == db)
      && (out.Cancelled? ==>
            && out.count == |cancelable|
            && after[i].holidaysLeft == s.holidaysLeft + |cancelable| == out.left
            && multiset(after[i].holidaysTaken) == multiset(s.holidaysTaken) - multiset(cancelable)
            && Budget(after[i]) == Budget(s))
      && (out.RemoveFailed? ==>
            && out.date in dates && out.date in s.holidaysTaken
            && out.date !in after[i].holidaysTaken
            && (exists k :: 0 <= k < |cancelable| && cancelable[k] == out.date &&
                  RemoveEach(s.holidaysTaken, cancelable[..k]) == Removal(after[i].holidaysTaken, None) &&
                  multiset(cancelable[..k]) <= multiset(s.holidaysTaken) &&
                  multiset(after[i].holidaysTaken) == multiset(s.holidaysTaken) - multiset(cancelable[..k]))
            && after[i].holidaysLeft == s.holidaysLeft
            && Budget(after[i]) < Budget(s))
      && OnlyLeaveChanged(db, after, i)
  {
    CancelAt(db, id, dates, i);
    UnbookRule(db[i], dates);
    assert db[i := db[i]] == db;
  }

  /** The cancellation rule for one record, with the record it leaves: on a
      raise, the date that raised is the first one no longer held, and the
      record holds exactly what the removals before it left. */
  lemma UnbookRule(s: Student, dates: seq<string>)
    ensures var cancelable, (out, after) := Cancelable(dates, s.holidaysTaken), Unbook(s, dates);
      && (out.NoneBooked? <==> forall d :: d in dates ==> d !in s.holidaysTaken)
      && (out.RemoveFailed? <==>
            exists d :: d in s.holidaysTaken && multiset(s.holidaysTaken)[d] < multiset(dates)[d])
      && (out.NoneBooked? || out.RemoveFailed? || out.Cancelled?)
      && (out.NoneBooked? ==> after == s)
      && (out.Cancelled? ==>
            && out.count == |cancelable|
            && after.holidaysLeft == s.holidaysLeft + |cancelable| == out.left
            && multiset(after.holidaysTaken) == multiset(s.holidaysTaken) - multiset(cancelable)
            && Budget(after) == Budget(s))
      && (out.RemoveFailed? ==>
            && out.date in dates && out.date in s.holidaysTaken
            && out.date !in after.holidaysTaken
            && (exists k :: 0 <= k < |cancelable| && cancelable[k] == out.date &&
                  RemoveEach(s.holidaysTaken, cancelable[..k]) == Removal(after.holidaysTaken, None) &&
                  multiset(cancelable[..k]) <= multiset(s.holidaysTaken) &&
                  multiset(after.holidaysTaken) == multiset(s.holidaysTaken) - multiset(cancelable[..k]))
            && after.holidaysLeft == s.holidaysLeft
            && Budget(after) < Budget(s))
      && SameIdentity(s, after)
  {
    var taken := s.holidaysTaken;
    var cancelable := Cancelable(dates, taken);
    CancelableEmpty(dates, taken);
    if cancelable != [] {
      var run := RemoveEach(taken, cancelable);
      assert run.missing.None? <==>
             forall d :: d in taken ==> multiset(dates)[d] <= multiset(taken)[d] by {
        RemoveEachCompletes(taken, cancelable);
        CancelableFits(dates, taken);
      }
      assert |run.rest| < |taken| by {
        assert multiset(cancelable)[cancelable[0]] > 0;
        RemoveEachShrinks(taken, cancelable);
      }
      if run.missing.Some? {
        var d := run.missing.value;
        assert d in dates && d in taken by {
          assert d in cancelable;
          assert multiset(cancelable)[d] > 0;
        }
        RemoveEachRaises(taken, cancelable, run.rest, d);
        var k :| 0 <= k < |cancelable| && cancelable[k] == d &&
                 RemoveEach(taken, cancelable[..k]) == Removal(run.rest, None);
        RemoveEachCount(taken, cancelable[..k]);
        RemoveEachCompletes(taken, cancelable[..k]);
      } else {
        RemoveEachCount(taken, cancelable);
      }
    }
  }

  /** When the dates to cancel are pairwise distinct, `cancel_leave` never
      raises. */
  lemma DistinctCancelCompletes(db: seq<Student>, id: string, dates: seq<string>)
    requires forall a, b :: 0 <= a < b < |dates| ==> dates[a] != dates[b]
    ensures !Cancel(db, id, dates).0.RemoveFailed?
  {
    match FirstMatch(db, id)
    case None =>
    case Some(i) =>
      CancelRule(db, id, dates, i);
      var taken := db[i].holidaysTaken;
      forall d | d in taken ensures multiset(dates)[d] <= multiset(taken)[d] {
        DistinctOnce(dates, d);
      }
  }

  /** Days left plus days booked is the same before and after every
      `request_leave`, and after every `cancel_leave` that does not raise. */
  lemma Conservation(db: seq<Student>, id: string, dates: seq<string>)
    ensures forall j :: 0 <= j < |db| ==> Budget(Request(db, id, dates).1[j]) == Budget(db[j])
    ensures !Cancel(db, id, dates).0.RemoveFailed? ==>
      forall j :: 0 <= j < |db| ==> Budget(Cancel(db, id, dates).1[j]) == Budget(db[j])
  {
    match FirstMatch(db, id)
    case None =>
    case Some(i) =>
      RequestRule(db, id, dates, i);
      CancelRule(db, id, dates, i);
  }

  /** Booking dates none of which is booked yet, and then cancelling the same
      dates, gives back the table exactly as it was: the balance and the
      booked list of the student, in order, and every other record. */
  lemma RequestThenCancel(db: seq<Student>, id: string, dates: seq<string>, i: nat)
    requires FirstMatch(db, id) == Some(i)
    requires dates != [] && |dates| <= db[i].holidaysLeft
    requires forall d :: d in dates ==> d !in db[i].holidaysTaken
    ensures var (out, booked) := Request(db, id, dates);
      && out == Approved(|dates|, db[i].holidaysLeft - |dates|)
      && Cancel(booked, id, dates) == (Cancelled(|dates|, db[i].holidaysLeft), db)
  {
    var s := db[i];
    var sb := s.(holidaysTaken := s.holidaysTaken + dates, holidaysLeft := s.holidaysLeft - |dates|);
    BookAllNew(s, dates);
    var booked := db[i := sb];
    SameKeysSameMatch(db, booked, id);
    UnbookUndoesBook(s, dates);
    CancelAt(booked, id, dates, i);
    assert booked[i := s] == db;
  }

  /** Unbooked dates within the balance are approved, appended in order and debited. */
  lemma BookAllNew(s: Student, dates: seq<string>)
    requires dates != [] && |dates| <= s.holidaysLeft
    requires forall d :: d in dates ==> d !in s.holidaysTaken
    ensures Book(s, dates) == (Approved(|dates|, s.holidaysLeft - |dates|),
                               s.(holidaysTaken := s.holidaysTaken + dates, holidaysLeft := s.holidaysLeft - |dates|))
  {
    NewDatesAllNew(dates, s.holidaysTaken);
  }

  /** Cancelling the dates such a booking appended restores the record exactly. */
  lemma UnbookUndoesBook(s: Student, dates: seq<string>)
    requires dates != [] && |dates| <= s.holidaysLeft
    requires forall d :: d in dates ==> d !in s.holidaysTaken
    ensures var sb := s.(holidaysTaken := s.holidaysTaken + dates, holidaysLeft := s.holidaysLeft - |dates|);
      Unbook(sb, dates) == (Cancelled(|dates|, s.holidaysLeft), s)
  {
    var sb := s.(holidaysTaken := s.holidaysTaken + dates, holidaysLeft := s.holidaysLeft - |dates|);
    assert Cancelable(dates, sb.holidaysTaken) == dates by {
      forall d | d in dates ensures d in sb.holidaysTaken {
        var k :| 0 <= k < |dates| && dates[k] == d;
        assert sb.holidaysTaken[|s.holidaysTaken| + k] == d;
      }
      CancelableAllBooked(dates, sb.holidaysTaken);
    }
    RemoveEachUndoesAppend(s.holidaysTaken, dates);
    UnbookCompletes(sb, dates, s.holidaysTaken);
  }

  /** Lookup only looks at the keys. */
  lemma {:induction false} SameKeysSameMatch(a: seq<Student>, b: seq<Student>, id: string)
    requires |a| == |b|
    requires forall j :: 0 <= j < |a| ==> a[j].schoolId == b[j].schoolId
    ensures FirstMatch(a, id) == FirstMatch(b, id)
  {
    if a != [] {
      SameKeysSameMatch(a[1..], b[1..], id);
    }
  }

  /** The seed table has no two records with the same id. */
  lemma SeedIdsDistinct()
    ensures forall a, b :: 0 <= a < b < |Seed()| ==> Seed()[a].schoolId != Seed()[b].schoolId
  {
  }

  /** S005 holds three dates and 7 days left; asking for one new date and one
      it already holds is approved for one day, leaving 6. */
  lemma SeedRequestS005()
    ensures var (out, after) := Request(Seed(), "S005", ["01-10-2025", "01-01-2025"]);
      && out == Approved(1, 6)
      && after[4].holidaysTaken == ["12-20-2024", "01-01-2025", "01-03-2025", "01-10-2025"]
      && after[..4] == Seed()[..4]
  {
    var db := Seed();
    assert FirstMatch(db, "S005") == Some(4);
    assert NewDates(["01-10-2025", "01-01-2025"], db[4].holidaysTaken) == ["01-10-2025"];
  }

  /** S001 on the seed table reports a full balance and nothing booked. */
  lemma SeedStatusS001()
    ensures StatusOf(Seed(), "S001") == Status("Alice Johnson", "S001", "10", 10, [])
  {
  }

  /** S999 is not in the seed table: all three operations say so. */
  lemma SeedUnknownS999(dates: seq<string>)
    ensures Request(Seed(), "S999", dates) == (StudentNotFound, Seed())
    ensures Cancel(Seed(), "S999", dates) == (StudentNotFound, Seed())
    ensures StatusOf(Seed(), "S999") == StatusNotFound
  {
    UnknownStudent(Seed(), "S999", dates);
  }

  /** A new date requested twice is booked twice and charged twice. */
  lemma SeedDoubleBooking()
    ensures var (out, after) := Request(Seed(), "S001", ["05-01-2025", "05-01-2025"]);
      && out == Approved(2, 8)
      && after[0].holidaysTaken == ["05-01-2025", "05-01-2025"]
  {
    var db := Seed();
    assert FirstMatch(db, "S001") == Some(0);
    assert NewDates(["05-01-2025", "05-01-2025"], []) == ["05-01-2025", "05-01-2025"];
  }

  /** Cancelling a date S005 holds once, twice in one call, removes it and
      then raises: the date is gone but the day is never credited. */
  lemma SeedRepeatedCancel()
    ensures var (out, after) := Cancel(Seed(), "S005", ["01-01-2025", "01-01-2025"]);
      && out == RemoveFailed("01-01-2025")
      && after[4].holidaysTaken == ["12-20-2024", "01-03-2025"]
      && after[4].holidaysLeft == 7
  {
    var db := Seed();
    var ds := ["01-01-2025", "01-01-2025"];
    assert FirstMatch(db, "S005") == Some(4);
    CancelAt(db, "S005", ds, 4);
    assert Cancelable(ds, db[4].holidaysTaken) == ds;
    SeedRepeatedRemoval();
    UnbookFails(db[4], ds, ["12-20-2024", "01-03-2025"], "01-01-2025");
  }

  /** Removing a date held once, twice over, takes it out and then raises. */
  lemma RepeatedRemovalRaises(a: string, x: string, b: string)
    requires x != a && x != b
    ensures RemoveEach([a, x, b], [x, x]) == Removal([a, b], Some(x))
  {
    var ds := [x, x];
    assert RemoveEach([a, x, b], ds[..1]) == Removal([a, b], None) by {
      assert ds[..0] == [];
      RemoveEachStep([a, x, b], ds, 0, [a, x, b]);
      RemoveFirstSplit([a], x, [b]);
    }
    RemoveEachStep([a, x, b], ds, 1, [a, b]);
    assert ds[..2] == ds;
  }

  /** The removal loop on S005's booked list with 01-01-2025 twice. */
  lemma SeedRepeatedRemoval()
    ensures RemoveEach(["12-20-2024", "01-01-2025", "01-03-2025"], ["01-01-2025", "01-01-2025"])
         == Removal(["12-20-2024", "01-03-2025"], Some("01-01-2025"))
  {
    RepeatedRemovalRaises("12-20-2024", "01-01-2025", "01-03-2025");
  }

  /** A session on the seed table through the class: S005 books one new day,
      S001's status still shows the seed record, and S999 stays unknown. */
  method SeedSession() returns (booked: Outcome, status: LeaveStatus, unknown: Outcome)
    ensures booked == Approved(1, 6)
    ensures status == Status("Alice Johnson", "S001", "10", 10, [])
    ensures unknown == StudentNotFound
  {
    var ledger := new Ledger(Seed());
    booked := ledger.RequestLeave("S005", ["01-10-2025", "01-01-2025"]);
    SeedRequestS005();
    assert ledger.students[0] == Seed()[0];
    assert FirstMatch(ledger.students, "S001") == Some(0);
    status := ledger.CheckLeaveStatus("S001");
    SameKeysSameMatch(Seed(), ledger.students, "S999");
    SeedUnknownS999(["01-10-2025"]);
    unknown := ledger.CancelLeave("S999", ["01-10-2025"]);
  }
}
