/** The schedule part of the user record: the admission check that runs
    before a new shift is appended to a user's schedule, and the read of the
    shifts lying inside a window, sorted by start. */
module UserSchema {
  import opened Shifts
  import opened AnalyzeSchedule

  /** moment's `x.isBetween(from, to)`: strictly after `from` and strictly before `to`. */
  predicate IsBetween(x: Instant, from: Instant, to: Instant) {
    from < x < to
  }

  /** A shift that ends after it starts. */
  predicate Proper(s: Shift) {
    s.start < s.end
  }

  predicate AllProper(items: seq<Shift>) {
    forall i :: 0 <= i < |items| ==> Proper(items[i])
  }

  /** The two shifts share some instant other than a common boundary. */
  predicate Overlaps(a: Shift, b: Shift) {
    a.start < b.end && b.start < a.end
  }

  /** `a` begins strictly before `b` begins and ends strictly after `b` ends. */
  predicate StrictlyContains(a: Shift, b: Shift) {
    a.start < b.start && b.end < a.end
  }

  // ---------------------------------------------------------------------------
  // Admission

  /** The callback given to `_.some`: equal starts, equal ends, or an end of
      the candidate strictly inside the existing item. Between proper shifts
      this is overlap, except that a candidate strictly containing the item
      slips through. */
  function ConflictsWith(candidate: Shift, item: Shift): (r: bool)
    ensures Proper(candidate) && Proper(item) ==>
      (r <==> Overlaps(candidate, item) && !StrictlyContains(candidate, item))
  {
    candidate.start == item.start || candidate.end == item.end ||
    IsBetween(candidate.start, item.start, item.end) || IsBetween(candidate.end, item.start, item.end)
  }

  /** `_.some(user.schedule, callback)`, scanned from the first item. */
  function SomeConflict(items: seq<Shift>, candidate: Shift): (r: bool)
    ensures r <==> exists i :: 0 <= i < |items| && ConflictsWith(candidate, items[i])
  {
    if items == [] then false
    else ConflictsWith(candidate, items[0]) || SomeConflict(items[1..], candidate)
  }

  /** The rejection condition of `addScheduleItem`: a conflict with some
      existing item, or a start that is after or the same as the end. */
  function IsConflicting(items: seq<Shift>, candidate: Shift): (r: bool)
    ensures !Proper(candidate) ==> r
    ensures AllProper(items) ==>
      (r <==> (!Proper(candidate) ||
               exists i :: 0 <= i < |items| && Overlaps(candidate, items[i]) && !StrictlyContains(candidate, items[i])))
  {
    SomeConflict(items, candidate) || candidate.start > candidate.end || candidate.start == candidate.end
  }

  datatype ScheduleError = InvalidScheduleItem

  /** Every item passed the admission check against every item stored before it. */
  predicate AdmittedInOrder(items: seq<Shift>) {
    forall i, j :: 0 <= i < j < |items| ==> !ConflictsWith(items[j], items[i])
  }

  /** Appending a proper candidate the check lets through keeps a schedule
      proper and admitted in order. */
  lemma AdmitPreserves(items: seq<Shift>, candidate: Shift)
    requires AllProper(items) && AdmittedInOrder(items)
    requires !IsConflicting(items, candidate)
    ensures AllProper(items + [candidate]) && AdmittedInOrder(items + [candidate])
  {
    var s := items + [candidate];
    forall i, j | 0 <= i < j < |s| ensures !ConflictsWith(s[j], s[i]) {
      if j == |items| {
        assert !ConflictsWith(candidate, items[i]);
      }
    }
  }

  /** In a schedule built by admission no two items share a start or an end,
      and no item has an end strictly inside an item stored before it. */
  lemma AdmittedDistinct(items: seq<Shift>)
    requires AdmittedInOrder(items)
    ensures forall i, j :: 0 <= i < |items| && 0 <= j < |items| && i != j ==>
      items[i].start != items[j].start && items[i].end != items[j].end
    ensures forall i, j :: 0 <= i < j < |items| ==>
      !IsBetween(items[j].start, items[i].start, items[i].end) &&
      !IsBetween(items[j].end, items[i].start, items[i].end)
  {
    forall i, j | 0 <= i < |items| && 0 <= j < |items| && i != j
      ensures items[i].start != items[j].start && items[i].end != items[j].end
    {
      if i < j {
        assert !ConflictsWith(items[j], items[i]);
      } else {
        assert !ConflictsWith(items[i], items[j]);
      }
    }
  }

  /** A user record, reduced to the schedule the core reads and appends to. */
  class User {
    var schedule: seq<Shift>

    /** Every stored shift ends after it starts and passed the admission check
        against every shift stored before it. */
    ghost predicate Valid()
      reads this
    {
      AllProper(schedule) && AdmittedInOrder(schedule)
    }

    /** A new user has an empty schedule. */
    constructor ()
      ensures schedule == [] && Valid()
    {
      schedule := [];
    }

    /** `addScheduleItem` up to the save: reject a conflicting candidate and
        leave the schedule alone, or append the candidate at the end. */
    method AddScheduleItem(candidate: Shift) returns (r: Outcome<ScheduleError>)
      modifies this
      ensures r.Fail? <==> IsConflicting(old(schedule), candidate)
      ensures r.Fail? ==> r.error == InvalidScheduleItem && schedule == old(schedule)
      ensures r.Pass? ==> schedule == old(schedule) + [candidate]
      ensures old(Valid()) ==> Valid()
    {
      if IsConflicting(schedule, candidate) {
        return Fail(InvalidScheduleItem);
      }
      if old(Valid()) {
        AdmitPreserves(schedule, candidate);
      }
      schedule := schedule + [candidate];
      r := Pass;
    }
  }

  /** A candidate sharing its start or its end with an existing item is rejected. */
  lemma SharedEndpointRejected(items: seq<Shift>, candidate: Shift, i: nat)
    requires i < |items|
    requires candidate.start == items[i].start || candidate.end == items[i].end
    ensures IsConflicting(items, candidate)
  {
    assert ConflictsWith(candidate, items[i]);
  }

  /** A candidate with an end strictly inside an existing item is rejected. */
  lemma EndpointInsideRejected(items: seq<Shift>, candidate: Shift, i: nat)
    requires i < |items|
    requires IsBetween(candidate.start, items[i].start, items[i].end) ||
             IsBetween(candidate.end, items[i].start, items[i].end)
    ensures IsConflicting(items, candidate)
  {
    assert ConflictsWith(candidate, items[i]);
  }

  /** A proper candidate that meets every existing item at most at a boundary
      (back-to-back shifts included) is admitted. */
  lemma TouchingAdmitted(items: seq<Shift>, candidate: Shift)
    requires AllProper(items) && Proper(candidate)
    requires forall i :: 0 <= i < |items| ==> candidate.end <= items[i].start || items[i].end <= candidate.start
    ensures !IsConflicting(items, candidate)
  {
  }

  /** A candidate that strictly contains an existing item overlaps it and is
      still admitted: admission does not keep a schedule free of overlaps. */
  lemma ContainingCandidateAdmitted(item: Shift, candidate: Shift)
    requires Proper(item) && StrictlyContains(candidate, item)
    ensures Overlaps(candidate, item)
    ensures !IsConflicting([item], candidate)
  {
  }

  // ---------------------------------------------------------------------------
  // Windowed read

  /** The items `f` keeps, in their order: underscore's `filter`. */
  function Keep(items: seq<Shift>, f: Shift -> bool): seq<Shift> {
    if items == [] then []
    else (if f(items[0]) then [items[0]] else []) + Keep(items[1..], f)
  }

  /** Filtering keeps every copy of each item `f` accepts and no other item. */
  lemma {:induction false} KeepCounts(items: seq<Shift>, f: Shift -> bool)
    ensures forall x :: multiset(Keep(items, f))[x] == if f(x) then multiset(items)[x] else 0
  {
    if items != [] {
      assert items == [items[0]] + items[1..];
      KeepCounts(items[1..], f);
    }
  }

  lemma {:induction false} KeepConcat(a: seq<Shift>, b: seq<Shift>, f: Shift -> bool)
    ensures Keep(a + b, f) == Keep(a, f) + Keep(b, f)
  {
    if a == [] {
      assert a + b == b;
    } else {
      assert (a + b)[0] == a[0];
      assert (a + b)[1..] == a[1..] + b;
      KeepConcat(a[1..], b, f);
      var head := if f(a[0]) then [a[0]] else [];
      calc {
        Keep(a + b, f);
        head + Keep(a[1..] + b, f);
        head + (Keep(a[1..], f) + Keep(b, f));
        (head + Keep(a[1..], f)) + Keep(b, f);
        Keep(a, f) + Keep(b, f);
      }
    }
  }

  /** Concatenation is associative; stated apart because the step is cheap
      here and expensive inside the stability proof. */
  lemma ConcatAssoc(a: seq<Shift>, b: seq<Shift>, c: seq<Shift>)
    ensures a + (b + c) == (a + b) + c
  {
  }

  lemma KeepCons(a: Shift, t: seq<Shift>, f: Shift -> bool)
    ensures Keep([a] + t, f) == (if f(a) then [a] else []) + Keep(t, f)
  {
    assert ([a] + t)[0] == a;
    assert ([a] + t)[1..] == t;
  }

  function StartsAt(k: Instant): Shift -> bool {
    (x: Shift) => x.start == k
  }

  /** The items that start at instant `k`, in their order. */
  function WithStart(items: seq<Shift>, k: Instant): seq<Shift> {
    Keep(items, StartsAt(k))
  }

  lemma {:induction false} WithStartNone(items: seq<Shift>, k: Instant)
    requires forall i :: 0 <= i < |items| ==> items[i].start != k
    ensures WithStart(items, k) == []
  {
    if items != [] {
      WithStartNone(items[1..], k);
    }
  }

  predicate SortedByStart(s: seq<Shift>) {
    forall i, j :: 0 <= i < j < |s| ==> s[i].start <= s[j].start
  }

  lemma PrependSorted(y: Shift, rest: seq<Shift>)
    requires SortedByStart(rest)
    requires forall j :: 0 <= j < |rest| ==> y.start <= rest[j].start
    ensures SortedByStart([y] + rest)
  {
  }

  /** Places `x` after every item of `s` that starts no later than it. */
  function Insert(x: Shift, s: seq<Shift>): (r: seq<Shift>)
    ensures multiset(r) == multiset(s) + multiset{x}
  {
    if s == [] then [x]
    else if x.start < s[0].start then [x] + s
    else
      assert s == [s[0]] + s[1..];
      [s[0]] + Insert(x, s[1..])
  }

  /** Inserting into a list sorted by start keeps it sorted. */
  lemma {:induction false} InsertSorted(x: Shift, s: seq<Shift>)
    requires SortedByStart(s)
    ensures SortedByStart(Insert(x, s))
  {
    if s == [] {
    } else if x.start < s[0].start {
      PrependSorted(x, s);
    } else {
      var tail := s[1..];
      assert SortedByStart(tail);
      InsertSorted(x, tail);
      var rest := Insert(x, tail);
      forall j | 0 <= j < |rest| ensures s[0].start <= rest[j].start {
        assert rest[j] in multiset(rest);
        if rest[j] != x {
          assert rest[j] in multiset(tail);
          var i :| 0 <= i < |tail| && tail[i] == rest[j];
          assert tail[i] == s[i + 1];
        }
      }
      PrependSorted(s[0], rest);
    }
  }

  /** Inserting keeps the items of every start instant in their order, with
      `x` after those already there. */
  lemma {:induction false} InsertStable(x: Shift, s: seq<Shift>, k: Instant)
    requires SortedByStart(s)
    ensures WithStart(Insert(x, s), k) == WithStart(s, k) + (if x.start == k then [x] else [])
  {
    var f := StartsAt(k);
    var hx := if x.start == k then [x] else [];
    if s == [] {
      assert Keep([x], f) == hx + Keep([], f) by { assert [x][1..] == []; }
    } else if x.start < s[0].start {
      KeepCons(x, s, f);
      if x.start == k {
        WithStartNone(s, k);
      }
      assert Keep([x] + s, f) == hx + Keep(s, f);
    } else {
      assert SortedByStart(s[1..]);
      InsertStable(x, s[1..], k);
      InsertStableStep(x, s, k);
    }
  }

  /** When `x` goes past the first item, stability of the insertion into the
      tail carries over to the whole list. */
  lemma InsertStableStep(x: Shift, s: seq<Shift>, k: Instant)
    requires s != [] && s[0].start <= x.start
    requires WithStart(Insert(x, s[1..]), k) == WithStart(s[1..], k) + (if x.start == k then [x] else [])
    ensures WithStart(Insert(x, s), k) == WithStart(s, k) + (if x.start == k then [x] else [])
  {
    var f := StartsAt(k);
    var hx := if x.start == k then [x] else [];
    var rest := Insert(x, s[1..]);
    var h0 := if f(s[0]) then [s[0]] else [];
    assert Insert(x, s) == [s[0]] + rest;
    KeepCons(s[0], rest, f);
    assert Keep(s, f) == h0 + Keep(s[1..], f);
    calc {
      Keep(Insert(x, s), f);
      Keep([s[0]] + rest, f);
      h0 + Keep(rest, f);
      h0 + (Keep(s[1..], f) + hx);
      { ConcatAssoc(h0, Keep(s[1..], f), hx); }
      (h0 + Keep(s[1..], f)) + hx;
      Keep(s, f) + hx;
    }
  }

  /** underscore's `sortBy` on the start: a stable insertion sort. */
  function SortByStart(items: seq<Shift>): (r: seq<Shift>)
    ensures SortedByStart(r)
    ensures multiset(r) == multiset(items)
  {
    if items == [] then []
    else
      var init := items[..|items| - 1];
      assert items == init + [items[|items| - 1]];
      InsertSorted(items[|items| - 1], SortByStart(init));
      Insert(items[|items| - 1], SortByStart(init))
  }

  /** Sorting keeps the items of every start instant in their input order. */
  lemma {:induction false} SortByStartStable(items: seq<Shift>, k: Instant)
    ensures WithStart(SortByStart(items), k) == WithStart(items, k)
  {
    if items != [] {
      var init, last := items[..|items| - 1], items[|items| - 1];
      assert items == init + [last];
      SortByStartStable(init, k);
      InsertStable(last, SortByStart(init), k);
      KeepConcat(init, [last], StartsAt(k));
      assert [last][1..] == [];
      var tail := if last.start == k then [last] else [];
      assert Keep([last], StartsAt(k)) == tail;
      calc {
        WithStart(SortByStart(items), k);
        WithStart(Insert(last, SortByStart(init)), k);
        WithStart(SortByStart(init), k) + tail;
        WithStart(init, k) + tail;
        Keep(init, StartsAt(k)) + Keep([last], StartsAt(k));
        Keep(init + [last], StartsAt(k));
        WithStart(items, k);
      }
    }
  }

  /** Both ends strictly inside the window. */
  predicate InWindow(item: Shift, startDate: Instant, endDate: Instant) {
    IsBetween(item.start, startDate, endDate) && IsBetween(item.end, startDate, endDate)
  }

  /** The items of `schedule` inside the window, in schedule order. */
  function Window(schedule: seq<Shift>, startDate: Instant, endDate: Instant): seq<Shift> {
    Keep(schedule, (x: Shift) => InWindow(x, startDate, endDate))
  }

  /** `filterSchedule`: the items lying strictly inside the window, sorted by
      start. It reads a copy of the schedule and changes nothing. */
  function FilterSchedule(schedule: seq<Shift>, startDate: Instant, endDate: Instant): (r: seq<Shift>)
    ensures SortedByStart(r)
    ensures forall x :: multiset(r)[x] == if InWindow(x, startDate, endDate) then multiset(schedule)[x] else 0
    ensures forall i :: 0 <= i < |r| ==> InWindow(r[i], startDate, endDate)
  {
    KeepCounts(schedule, (x: Shift) => InWindow(x, startDate, endDate));
    var r := SortByStart(Window(schedule, startDate, endDate));
    assert forall i :: 0 <= i < |r| ==> r[i] in multiset(r);
    r
  }

  /** Items of the window that start at the same instant keep their schedule
      order in the filtered schedule. */
  lemma FilterScheduleStable(schedule: seq<Shift>, startDate: Instant, endDate: Instant, k: Instant)
    ensures WithStart(FilterSchedule(schedule, startDate, endDate), k) ==
            WithStart(Window(schedule, startDate, endDate), k)
  {
    SortByStartStable(Window(schedule, startDate, endDate), k);
  }

  /** What the analyzer gets from a schedule of proper shifts: every shift
      length and the gaps at both ends of the window are positive. */
  lemma FilteredScheduleFeedsAnalyzer(schedule: seq<Shift>, startDate: Instant, endDate: Instant)
    requires AllProper(schedule)
    ensures var r := FilterSchedule(schedule, startDate, endDate);
      AllProper(r) &&
      (|r| != 1 ==> forall i :: 0 <= i < |r| ==> TimeOffDurations(startDate, endDate, r).value.shifts[i] > 0.0) &&
      (|r| >= 2 ==>
        TimeOffDurations(startDate, endDate, r).value.timeOff[0] > 0.0 &&
        TimeOffDurations(startDate, endDate, r).value.timeOff[|r|] > 0.0)
  {
    var r := FilterSchedule(schedule, startDate, endDate);
    forall i | 0 <= i < |r| ensures Proper(r[i]) {
      assert r[i] in multiset(r);
      assert r[i] in multiset(schedule);
      var j :| 0 <= j < |schedule| && schedule[j] == r[i];
    }
  }
}
