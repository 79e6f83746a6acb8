/** The list of booked dates held by one student record (`holidays_taken` in
    main.py) and the list operations the ledger performs on it.  A date is an
    opaque string: the ledger only ever compares two dates for equality, never
    parses them, so nothing here knows about the MM-DD-YYYY format. */
module LeaveDates {

  datatype Option<T> = None | Some(value: T)

  /** The requested dates that are not yet booked, in input order.  A date that
      is new and is requested twice is kept twice: the filter only looks at the
      booked list, never at the other requested dates. */
  function NewDates(dates: seq<string>, taken: seq<string>): (r: seq<string>)
    ensures |r| <= |dates|
    ensures forall d {:trigger multiset(r)[d]} ::
      multiset(r)[d] == if d in taken then 0 else multiset(dates)[d]
  {
    if dates == [] then []
    else
      assert dates == [dates[0]] + dates[1..];
      if dates[0] in taken then NewDates(dates[1..], taken)
      else [dates[0]] + NewDates(dates[1..], taken)
  }

  /** The requested dates that are booked, in input order, repeats kept. */
  function Cancelable(dates: seq<string>, taken: seq<string>): (r: seq<string>)
    ensures |r| <= |dates|
    ensures forall d {:trigger multiset(r)[d]} ::
      multiset(r)[d] == if d in taken then multiset(dates)[d] else 0
  {
    if dates == [] then []
    else
      assert dates == [dates[0]] + dates[1..];
      if dates[0] in taken then [dates[0]] + Cancelable(dates[1..], taken)
      else Cancelable(dates[1..], taken)
  }

  /** Python's `list.remove`: drops the first occurrence of `x`.  Calling it on
      a list without `x` raises, which callers model by checking `x in s`. */
  function RemoveFirst(s: seq<string>, x: string): (r: seq<string>)
    requires x in s
    ensures |r| == |s| - 1
  {
    if s[0] == x then
      assert s == [s[0]] + s[1..];
      s[1..]
    else
      assert s == [s[0]] + s[1..];
      [s[0]] + RemoveFirst(s[1..], x)
  }

  /** Nothing is new exactly when every requested date is booked. */
  lemma {:induction false} NewDatesEmpty(dates: seq<string>, taken: seq<string>)
    ensures NewDates(dates, taken) == [] <==> forall d :: d in dates ==> d in taken
  {
    if dates != [] {
      NewDatesEmpty(dates[1..], taken);
      assert dates == [dates[0]] + dates[1..];
    }
  }

  /** When no requested date is booked, every one of them is new, in order. */
  lemma {:induction false} NewDatesAllNew(dates: seq<string>, taken: seq<string>)
    requires forall d :: d in dates ==> d !in taken
    ensures NewDates(dates, taken) == dates
  {
    if dates != [] {
      NewDatesAllNew(dates[1..], taken);
      assert dates == [dates[0]] + dates[1..];
    }
  }

  /** Nothing is cancelable exactly when no requested date is booked. */
  lemma {:induction false} CancelableEmpty(dates: seq<string>, taken: seq<string>)
    ensures Cancelable(dates, taken) == [] <==> forall d :: d in dates ==> d !in taken
  {
    if dates != [] {
      CancelableEmpty(dates[1..], taken);
      assert dates == [dates[0]] + dates[1..];
    }
  }

  /** When every requested date is booked, all of them are cancelable, in order. */
  lemma {:induction false} CancelableAllBooked(dates: seq<string>, taken: seq<string>)
    requires forall d :: d in dates ==> d in taken
    ensures Cancelable(dates, taken) == dates
  {
    if dates != [] {
      CancelableAllBooked(dates[1..], taken);
      assert dates == [dates[0]] + dates[1..];
    }
  }

  /** Filtering a request in two pieces and joining the results filters the
      whole request: the new dates keep the order they were requested in. */
  lemma {:induction false} NewDatesOrder(a: seq<string>, b: seq<string>, taken: seq<string>)
    ensures NewDates(a + b, taken) == NewDates(a, taken) + NewDates(b, taken)
  {
    if a == [] {
      assert a + b == b;
    } else {
      assert (a + b)[1..] == a[1..] + b;
      NewDatesOrder(a[1..], b, taken);
    }
  }

  /** A single requested date is new exactly when it is not booked. */
  lemma NewDatesSingle(d: string, taken: seq<string>)
    ensures NewDates([d], taken) == if d in taken then [] else [d]
  {
  }

  /** Filtering a request in two pieces and joining the results filters the
      whole request: the dates to cancel keep the order they were requested in. */
  lemma {:induction false} CancelableOrder(a: seq<string>, b: seq<string>, taken: seq<string>)
    ensures Cancelable(a + b, taken) == Cancelable(a, taken) + Cancelable(b, taken)
  {
    if a == [] {
      assert a + b == b;
    } else {
      assert (a + b)[1..] == a[1..] + b;
      CancelableOrder(a[1..], b, taken);
    }
  }

  /** A single requested date is to be cancelled exactly when it is booked. */
  lemma CancelableSingle(d: string, taken: seq<string>)
    ensures Cancelable([d], taken) == if d in taken then [d] else []
  {
  }

  /** The cancelable dates can all be removed exactly when no booked date is
      requested more often than it is booked. */
  lemma CancelableFits(dates: seq<string>, taken: seq<string>)
    ensures multiset(Cancelable(dates, taken)) <= multiset(taken) <==>
            forall d :: d in taken ==> multiset(dates)[d] <= multiset(taken)[d]
  {
    var c := Cancelable(dates, taken);
    if forall d :: d in taken ==> multiset(dates)[d] <= multiset(taken)[d] {
      forall d ensures multiset(c)[d] <= multiset(taken)[d] {
        if d !in taken {
          assert multiset(c)[d] == 0;
        }
      }
    } else {
      var d :| d in taken && multiset(dates)[d] > multiset(taken)[d];
      assert multiset(c)[d] > multiset(taken)[d];
    }
  }

  /** Pairwise distinct dates occur at most once each. */
  lemma {:induction false} DistinctOnce(dates: seq<string>, d: string)
    requires forall a, b :: 0 <= a < b < |dates| ==> dates[a] != dates[b]
    ensures multiset(dates)[d] <= 1
  {
    if dates != [] {
      assert dates == [dates[0]] + dates[1..];
      DistinctOnce(dates[1..], d);
      if dates[0] == d {
        assert d !in dates[1..] by {
          forall b | 0 <= b < |dates[1..]| ensures dates[1..][b] != d {
            assert dates[1..][b] == dates[b + 1];
          }
        }
      }
    }
  }

  /** `remove` takes away one occurrence of `x` and keeps every other element. */
  lemma {:induction false} RemoveFirstCount(s: seq<string>, x: string)
    requires x in s
    ensures multiset(RemoveFirst(s, x)) == multiset(s) - multiset{x}
  {
    assert s == [s[0]] + s[1..];
    if s[0] != x {
      RemoveFirstCount(s[1..], x);
    }
  }

  /** State of the booked list after a run of `remove` calls: `rest` is the list
      after every removal that succeeded, and `missing` is the date whose
      `remove` raised, which also ends the run. */
  datatype Removal = Removal(rest: seq<string>, missing: Option<string>)

  /** The loop `for date in ds: taken.remove(date)`, one call at a time in input
      order.  The run stops at the first date no longer in the list, and the
      removals made before it stay made. */
  function RemoveEach(taken: seq<string>, ds: seq<string>): (r: Removal)
    ensures |r.rest| <= |taken|
    ensures r.missing.Some? ==> r.missing.value in ds
    ensures r.missing.None? ==> |r.rest| == |taken| - |ds|
    decreases |ds|
  {
    if ds == [] then Removal(taken, None)
    else
      var prev := RemoveEach(taken, ds[..|ds| - 1]);
      var d := ds[|ds| - 1];
      assert ds == ds[..|ds| - 1] + [d];
      if prev.missing.Some? then prev
      else if d in prev.rest then Removal(RemoveFirst(prev.rest, d), None)
      else Removal(prev.rest, Some(d))
  }

  /** A run that completes takes away exactly the dates removed, counted with
      their repeats. */
  lemma {:induction false} RemoveEachCount(taken: seq<string>, ds: seq<string>)
    requires RemoveEach(taken, ds).missing.None?
    ensures multiset(RemoveEach(taken, ds).rest) == multiset(taken) - multiset(ds)
    decreases |ds|
  {
    if ds != [] {
      var init, d := ds[..|ds| - 1], ds[|ds| - 1];
      assert ds == init + [d];
      RemoveEachCount(taken, init);
      var prev := RemoveEach(taken, init);
      RemoveFirstCount(prev.rest, d);
      forall y ensures multiset(RemoveEach(taken, ds).rest)[y] == (multiset(taken) - multiset(ds))[y] {
        assert multiset(ds)[y] == multiset(init)[y] + (if y == d then 1 else 0);
      }
    }
  }

  /** One more turn of the removal loop. */
  lemma RemoveEachStep(taken: seq<string>, ds: seq<string>, k: nat, rest: seq<string>)
    requires k < |ds|
    requires RemoveEach(taken, ds[..k]) == Removal(rest, None)
    ensures RemoveEach(taken, ds[..k + 1]) ==
      if ds[k] in rest then Removal(RemoveFirst(rest, ds[k]), None) else Removal(rest, Some(ds[k]))
  {
    assert ds[..k + 1][..k] == ds[..k];
  }

  /** Once a removal has raised, the later dates are never tried. */
  lemma {:induction false} RemoveEachStops(taken: seq<string>, ds: seq<string>, k: nat)
    requires k <= |ds|
    requires RemoveEach(taken, ds[..k]).missing.Some?
    ensures RemoveEach(taken, ds) == RemoveEach(taken, ds[..k])
    decreases |ds| - k
  {
    if k < |ds| {
      assert ds[..k + 1][..k] == ds[..k];
      RemoveEachStops(taken, ds, k + 1);
    } else {
      assert ds[..k] == ds;
    }
  }

  /** A run that raises on `d` stopped at a position `k` holding `d`: the list
      it leaves is exactly the one the removals of the dates before `k` made,
      and `d` was no longer in it. */
  lemma {:induction false} RemoveEachRaises(taken: seq<string>, ds: seq<string>, rest: seq<string>, d: string)
    requires RemoveEach(taken, ds) == Removal(rest, Some(d))
    ensures d !in rest
    ensures exists k :: 0 <= k < |ds| && ds[k] == d && RemoveEach(taken, ds[..k]) == Removal(rest, None)
    decreases |ds|
  {
    var init := ds[..|ds| - 1];
    if RemoveEach(taken, init).missing.Some? {
      RemoveEachRaises(taken, init, rest, d);
      var k :| 0 <= k < |init| && init[k] == d && RemoveEach(taken, init[..k]) == Removal(rest, None);
      assert init[..k] == ds[..k];
    } else {
      assert ds[..|ds| - 1] == init;
    }
  }

  /** A run whose first date is booked removes at least that one, whether or
      not a later date raises. */
  lemma {:induction false} RemoveEachShrinks(taken: seq<string>, ds: seq<string>)
    requires ds != [] && ds[0] in taken
    ensures |RemoveEach(taken, ds).rest| < |taken|
    decreases |ds|
  {
    var init := ds[..|ds| - 1];
    if init != [] {
      assert init[0] == ds[0];
      RemoveEachShrinks(taken, init);
    }
  }

  /** `remove` takes out exactly the first occurrence: whatever precedes it is
      kept in place, and so is everything after it. */
  lemma {:induction false} RemoveFirstSplit(p: seq<string>, x: string, q: seq<string>)
    requires x !in p
    ensures RemoveFirst(p + [x] + q, x) == p + q
  {
    if p != [] {
      assert (p + [x] + q)[1..] == p[1..] + [x] + q;
      RemoveFirstSplit(p[1..], x, q);
      assert p == [p[0]] + p[1..];
    }
  }

  /** The run of removals completes exactly when every date occurs in the
      booked list at least as often as it occurs among the dates removed. */
  lemma {:induction false} RemoveEachCompletes(taken: seq<string>, ds: seq<string>)
    ensures RemoveEach(taken, ds).missing.None? <==> multiset(ds) <= multiset(taken)
    decreases |ds|
  {
    if ds != [] {
      var init, d := ds[..|ds| - 1], ds[|ds| - 1];
      assert ds == init + [d];
      RemoveEachCompletes(taken, init);
      var prev := RemoveEach(taken, init);
      if prev.missing.None? {
        RemoveEachCount(taken, init);
        StepCompletes(taken, init, d, prev.rest);
      } else {
        ExcessPersists(taken, init, d);
      }
    }
  }

  /** One more removal succeeds exactly when the date still has an occurrence
      left over once the earlier removals are accounted for. */
  lemma StepCompletes(taken: seq<string>, init: seq<string>, d: string, rest: seq<string>)
    requires multiset(init) <= multiset(taken)
    requires multiset(rest) == multiset(taken) - multiset(init)
    ensures d in rest <==> multiset(init + [d]) <= multiset(taken)
  {
    assert d in rest <==> multiset(rest)[d] > 0;
    if d in rest {
      forall y ensures multiset(init + [d])[y] <= multiset(taken)[y] {
        assert multiset(init + [d])[y] == multiset(init)[y] + (if y == d then 1 else 0);
      }
    } else {
      assert multiset(init + [d])[d] == multiset(init)[d] + 1;
    }
  }

  /** Once the dates removed outnumber some booked date, more dates do not help. */
  lemma ExcessPersists(taken: seq<string>, init: seq<string>, d: string)
    requires !(multiset(init) <= multiset(taken))
    ensures !(multiset(init + [d]) <= multiset(taken))
  {
    var y :| multiset(init)[y] > multiset(taken)[y];
    assert multiset(init + [d])[y] >= multiset(init)[y];
  }

  /** Removing, in order, dates that were appended to a list and that the list
      did not hold before gives back exactly the list before the append. */
  lemma {:induction false} RemoveEachUndoesAppend(taken: seq<string>, added: seq<string>)
    requires forall d :: d in added ==> d !in taken
    ensures RemoveEach(taken + added, added) == Removal(taken, None)
  {
    RemoveEachPrefix(taken, added, |added|);
    assert added[..|added|] == added;
    assert added[|added|..] == [];
    assert taken + [] == taken;
  }

  /** The first `k` appended dates removed leave the list with the other
      appended dates still after it. */
  lemma {:induction false} RemoveEachPrefix(taken: seq<string>, added: seq<string>, k: nat)
    requires forall d :: d in added ==> d !in taken
    requires k <= |added|
    ensures RemoveEach(taken + added, added[..k]) == Removal(taken + added[k..], None)
  {
    if k == 0 {
      assert added[..0] == [];
      assert added[0..] == added;
    } else {
      var d := added[k - 1];
      assert added[..k][..k - 1] == added[..k - 1];
      assert added[..k][k - 1] == d;
      RemoveEachPrefix(taken, added, k - 1);
      assert added[k - 1..] == [d] + added[k..];
      assert taken + added[k - 1..] == taken + [d] + added[k..];
      assert d !in taken;
      RemoveFirstSplit(taken, d, added[k..]);
    }
  }
}
