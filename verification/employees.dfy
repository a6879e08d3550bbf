/**
  The employee record: the shifts worked so far, leave intervals, recovery
  days, the eligible shift codes and the derived queries (consecutive days
  worked, total time worked).
*/
module Employees {
  import opened Shifts
  import opened Sorting

  /** One worked day: its day number and the shift code worked. */
  datatype Assignment = Assignment(day: int, code: Code)

  /** A leave interval; both ends are days of leave. */
  datatype Leave = Leave(first: int, last: int)

  /**
    `extraRest` and `priority` are recorded for the user interface and never
    read by the roster generator.
  */
  datatype Employee = Employee(
    name: string,
    shifts: seq<Assignment>,
    leave: seq<Leave>,
    extraRest: seq<int>,
    recovery: seq<int>,
    eligible: seq<Code>,
    priority: map<Code, int>)

  /** A new employee: nothing recorded, every code eligible, every priority 1. */
  function NewEmployee(name: string): (e: Employee)
    ensures e.name == name
    ensures e.shifts == [] && e.leave == [] && e.extraRest == [] && e.recovery == []
    ensures e.eligible == Catalog
    ensures forall c: Code :: c in e.eligible && c in e.priority && e.priority[c] == 1
  {
    CatalogComplete();
    Employee(name, [], [], [], [], Catalog, map c: Code | c in Catalog :: 1)
  }

  /** The day numbers of `s`, in order. */
  function Days(s: seq<Assignment>): (r: seq<int>)
    ensures |r| == |s|
    ensures forall i :: 0 <= i < |s| ==> r[i] == s[i].day
  {
    seq(|s|, i requires 0 <= i < |s| => s[i].day)
  }

  predicate Worked(e: Employee, d: int) {
    d in Days(e.shifts)
  }

  predicate OnLeave(e: Employee, d: int) {
    exists l :: l in e.leave && l.first <= d <= l.last
  }

  predicate OnRecovery(e: Employee, d: int) {
    d in e.recovery
  }

  /** Days the generator's first pass must not schedule the employee. */
  predicate Unavailable(e: Employee, d: int) {
    OnRecovery(e, d) || OnLeave(e, d)
  }

  // ---------------------------------------------------------------- time worked

  function SumMinutes(s: seq<Assignment>): nat {
    if s == [] then 0 else Duration(s[0].code) + SumMinutes(s[1..])
  }

  /** How many of the worked days in `s` carry shift code `c`. */
  function CountCode(s: seq<Assignment>, c: Code): nat {
    if s == [] then 0 else (if s[0].code == c then 1 else 0) + CountCode(s[1..], c)
  }

  /** The time worked counted per code: each code's count times its length, over `codes`. */
  function ByCode(s: seq<Assignment>, codes: seq<Code>): nat {
    if codes == [] then 0 else CountCode(s, codes[0]) * Duration(codes[0]) + ByCode(s, codes[1..])
  }

  /** One more worked day adds its shift's length to the per-code count, if its code is listed. */
  lemma {:induction false} ByCodeCons(a: Assignment, t: seq<Assignment>, codes: seq<Code>)
    requires forall i, j :: 0 <= i < j < |codes| ==> codes[i] != codes[j]
    ensures ByCode([a] + t, codes) == ByCode(t, codes) + (if a.code in codes then Duration(a.code) else 0)
  {
    if codes != [] {
      ByCodeCons(a, t, codes[1..]);
      CountStep(a, t, codes[0]);
      FirstOrRest(codes, a.code);
    }
  }

  lemma CountStep(a: Assignment, t: seq<Assignment>, c: Code)
    ensures CountCode([a] + t, c) * Duration(c)
         == CountCode(t, c) * Duration(c) + (if a.code == c then Duration(c) else 0)
  {
    var s := [a] + t;
    assert s[0] == a && s[1..] == t;
    var k, d := CountCode(t, c), Duration(c);
    if a.code == c {
      assert (k + 1) * d == k * d + d;
    }
  }

  /** In a list without repeats, a code is the first one or among the rest, never both. */
  lemma FirstOrRest(codes: seq<Code>, x: Code)
    requires codes != []
    requires forall i, j :: 0 <= i < j < |codes| ==> codes[i] != codes[j]
    ensures x in codes <==> x == codes[0] || x in codes[1..]
    ensures x == codes[0] ==> x !in codes[1..]
  {
    if x in codes && x != codes[0] {
      var j :| 0 <= j < |codes| && codes[j] == x;
      assert codes[1..][j - 1] == x;
    }
    if x == codes[0] {
      forall j | 0 <= j < |codes[1..]| ensures codes[1..][j] != x {
        assert codes[1..][j] == codes[j + 1];
      }
    }
  }

  /** Summing shift by shift and summing code by code over the catalogue agree. */
  lemma {:induction false} SumByCode(s: seq<Assignment>)
    ensures SumMinutes(s) == ByCode(s, Catalog)
  {
    if s == [] {
      ByCodeEmpty(Catalog);
    } else {
      CatalogComplete();
      SumByCode(s[1..]);
      assert s == [s[0]] + s[1..];
      ByCodeCons(s[0], s[1..], Catalog);
    }
  }

  lemma {:induction false} ByCodeEmpty(codes: seq<Code>)
    ensures ByCode([], codes) == 0
  {
    if codes != [] {
      ByCodeEmpty(codes[1..]);
    }
  }

  lemma {:induction false} SumMinutesAppend(a: seq<Assignment>, b: seq<Assignment>)
    ensures SumMinutes(a + b) == SumMinutes(a) + SumMinutes(b)
  {
    if a == [] {
      assert a + b == b;
    } else {
      assert (a + b)[0] == a[0];
      assert (a + b)[1..] == a[1..] + b;
      SumMinutesAppend(a[1..], b);
    }
  }

  /** Time worked in minutes (sixty times the hours the source reports). */
  function TotalMinutes(e: Employee): (r: nat)
    ensures r == ByCode(e.shifts, Catalog)
  {
    SumByCode(e.shifts);
    SumMinutes(e.shifts)
  }

  /** Appends one worked day; the time worked grows by exactly that shift's length. */
  function AddShift(e: Employee, day: int, code: Code): (r: Employee)
    ensures |r.shifts| == |e.shifts| + 1
    ensures r.shifts[..|e.shifts|] == e.shifts && r.shifts[|e.shifts|] == Assignment(day, code)
    ensures r.(shifts := e.shifts) == e
    ensures TotalMinutes(r) == TotalMinutes(e) + Duration(code)
  {
    SumMinutesAppend(e.shifts, [Assignment(day, code)]);
    e.(shifts := e.shifts + [Assignment(day, code)])
  }

  /** Empties the worked days and keeps everything else. */
  function ClearShifts(e: Employee): (r: Employee)
    ensures r.(shifts := e.shifts) == e
    ensures TotalMinutes(r) == 0
    ensures forall d :: !Worked(r, d)
  {
    e.(shifts := [])
  }

  lemma ClearShiftsIdempotent(e: Employee)
    ensures ClearShifts(ClearShifts(e)) == ClearShifts(e)
  {
  }

  /** An employee whose only shift is the overnight N has worked eight hours. */
  lemma OvernightTotal(e: Employee, day: int)
    ensures TotalMinutes(AddShift(ClearShifts(e), day, N)) == 8 * 60
  {
    var e1 := AddShift(ClearShifts(e), day, N);
    assert e1.shifts == [Assignment(day, N)];
    assert SumMinutes(e1.shifts) == Duration(N) + SumMinutes([]);
    OvernightShift(N);
  }

  // ---------------------------------------------------------------- editing a day

  /** Gives every entry dated `day` the code `code`; other entries stay as they are. */
  function Replace(s: seq<Assignment>, day: int, code: Code): (r: seq<Assignment>)
    ensures |r| == |s|
    ensures forall i :: 0 <= i < |s| ==> r[i].day == s[i].day
    ensures forall i :: 0 <= i < |s| && s[i].day != day ==> r[i] == s[i]
    ensures forall i :: 0 <= i < |s| && s[i].day == day ==> r[i].code == code
  {
    if s == [] then []
    else
      var head := if s[0].day == day then Assignment(day, code) else s[0];
      [head] + Replace(s[1..], day, code)
  }

  function ModifyShift(e: Employee, day: int, code: Code): (r: Employee)
    ensures r.(shifts := e.shifts) == e
    ensures Days(r.shifts) == Days(e.shifts)
    ensures forall i :: 0 <= i < |e.shifts| && e.shifts[i].day != day ==> r.shifts[i] == e.shifts[i]
    ensures forall i :: 0 <= i < |e.shifts| && e.shifts[i].day == day ==> r.shifts[i] == Assignment(day, code)
  {
    e.(shifts := Replace(e.shifts, day, code))
  }

  /** Editing the same day twice with the same code is editing it once. */
  lemma ModifyIdempotent(e: Employee, day: int, code: Code)
    ensures ModifyShift(ModifyShift(e, day, code), day, code) == ModifyShift(e, day, code)
  {
    var once := ModifyShift(e, day, code);
    var twice := ModifyShift(once, day, code);
    assert twice.shifts == once.shifts;
  }

  /** Editing a day that was not worked changes nothing: no entry is created. */
  lemma ModifyUnworkedDay(e: Employee, day: int, code: Code)
    requires !Worked(e, day)
    ensures ModifyShift(e, day, code) == e
  {
    var r := ModifyShift(e, day, code);
    forall i | 0 <= i < |e.shifts| ensures r.shifts[i] == e.shifts[i] {
      assert Days(e.shifts)[i] == e.shifts[i].day;
    }
  }

  /** The entries of `s` dated `day`. */
  function CountOn(s: seq<Assignment>, day: int): nat {
    if s == [] then 0 else (if s[0].day == day then 1 else 0) + CountOn(s[1..], day)
  }

  /** The number of entries dated `day` after an edit equals the number before. */
  lemma {:induction false} ModifyKeepsCount(s: seq<Assignment>, day: int, d: int, code: Code)
    ensures CountOn(Replace(s, day, code), d) == CountOn(s, d)
  {
    if s != [] {
      ModifyKeepsCount(s[1..], day, d, code);
      assert Replace(s, day, code)[1..] == Replace(s[1..], day, code);
    }
  }

  /**
    Replacement, not duplication: a day recorded once is still recorded once
    after the edit, now with the new code.
  */
  lemma ModifyReplaces(e: Employee, day: int, code: Code)
    requires CountOn(e.shifts, day) == 1
    ensures CountOn(ModifyShift(e, day, code).shifts, day) == 1
    ensures Assignment(day, code) in ModifyShift(e, day, code).shifts
  {
    ModifyKeepsCount(e.shifts, day, day, code);
    var i := FindDay(e.shifts, day);
    assert ModifyShift(e, day, code).shifts[i] == Assignment(day, code);
  }

  lemma {:induction false} FindDay(s: seq<Assignment>, day: int) returns (i: nat)
    requires CountOn(s, day) > 0
    ensures i < |s| && s[i].day == day
  {
    if s[0].day == day {
      i := 0;
    } else {
      var j := FindDay(s[1..], day);
      i := j + 1;
    }
  }

  // ---------------------------------------------------------------- leave and recovery

  function AssignLeave(e: Employee, first: int, last: int): (r: Employee)
    ensures r.(leave := e.leave) == e
    ensures forall d :: OnLeave(r, d) <==> OnLeave(e, d) || first <= d <= last
  {
    var r := e.(leave := e.leave + [Leave(first, last)]);
    assert Leave(first, last) in r.leave;
    r
  }

  function AssignRecovery(e: Employee, day: int): (r: Employee)
    ensures r.(recovery := e.recovery) == e
    ensures forall d :: OnRecovery(r, d) <==> OnRecovery(e, d) || d == day
  {
    e.(recovery := e.recovery + [day])
  }

  /** Records an extra rest day; the generator's availability test does not see it. */
  function AddExtraRest(e: Employee, day: int): (r: Employee)
    ensures r.(extraRest := e.extraRest) == e
    ensures day in r.extraRest
    ensures forall d :: Unavailable(r, d) <==> Unavailable(e, d)
  {
    e.(extraRest := e.extraRest + [day])
  }

  // ---------------------------------------------------------------- consecutive days worked

  /**
    Walks the sorted worked days from the latest backwards. Days from `asOf`
    on are skipped; the count grows while the day met is exactly one before
    the last counted one, and the walk stops at the first day that is not.
  */
  function WalkBack(ds: seq<int>, asOf: int, count: nat): (k: nat)
    ensures k >= count
    ensures forall x :: asOf - k <= x < asOf - count ==> x in ds
    decreases |ds|
  {
    if ds == [] then count
    else
      var init, d := ds[..|ds| - 1], ds[|ds| - 1];
      assert ds == init + [d];
      assert forall x :: x in init ==> x in ds;
      if d < asOf then
        if asOf - d == count + 1 then WalkBack(init, asOf, count + 1) else count
      else
        WalkBack(init, asOf, count)
  }

  /** The walk never looks at days from `asOf` on. */
  lemma {:induction false} WalkBackBelow(ds: seq<int>, asOf: int, count: nat)
    ensures WalkBack(ds, asOf, count) == WalkBack(Below(ds, asOf), asOf, count)
  {
    if ds != [] {
      var init, d := ds[..|ds| - 1], ds[|ds| - 1];
      var b := Below(init, asOf);
      if d < asOf {
        assert Below(ds, asOf) == b + [d];
        assert (b + [d])[..|b|] == b;
        if asOf - d == count + 1 {
          WalkBackBelow(init, asOf, count + 1);
        }
      } else {
        assert Below(ds, asOf) == b;
        WalkBackBelow(init, asOf, count);
      }
    }
  }

  /**
    On strictly increasing days, when every day below `asOf` is already below
    the counted run, the walk stops exactly where the run of worked days ends.
  */
  lemma {:induction false} WalkBackMaximal(ds: seq<int>, asOf: int, count: nat)
    requires StrictlySorted(ds)
    requires forall x :: x in ds && x < asOf ==> x < asOf - count
    ensures asOf - WalkBack(ds, asOf, count) - 1 !in ds
  {
    if ds != [] {
      var init, d := ds[..|ds| - 1], ds[|ds| - 1];
      LastIsLargest(ds);
      if d < asOf {
        if asOf - d == count + 1 {
          assert WalkBack(ds, asOf, count) == WalkBack(init, asOf, count + 1);
          WalkBackMaximal(init, asOf, count + 1);
        } else {
          assert WalkBack(ds, asOf, count) == count;
          assert d < asOf - count - 1 by {
            assert d in ds;
          }
        }
      } else {
        assert WalkBack(ds, asOf, count) == WalkBack(init, asOf, count);
        forall x | x in init && x < asOf ensures x < asOf - count {
          assert x in ds;
        }
        WalkBackMaximal(init, asOf, count);
      }
    }
  }

  /** Dropping the last day of a strictly increasing list keeps it strictly increasing and below that day. */
  lemma LastIsLargest(ds: seq<int>)
    requires StrictlySorted(ds) && ds != []
    ensures StrictlySorted(ds[..|ds| - 1])
    ensures forall x :: x in ds[..|ds| - 1] ==> x in ds && x < ds[|ds| - 1]
  {
    var init := ds[..|ds| - 1];
    assert ds == init + [ds[|ds| - 1]];
    forall x | x in init ensures x in ds && x < ds[|ds| - 1] {
      var i :| 0 <= i < |init| && init[i] == x;
      assert ds[i] == x;
    }
  }

  /**
    The number of consecutive days worked immediately before `asOf`: the
    days asOf-1, ..., asOf-k are all worked, and when no day is recorded twice
    asOf-k-1 is not, so `k` is the length of that run.
  */
  function ConsecutiveDaysWorked(e: Employee, asOf: int): (k: nat)
    ensures forall d :: asOf - k <= d < asOf ==> Worked(e, d)
    ensures Distinct(Days(e.shifts)) ==> !Worked(e, asOf - k - 1)
  {
    var ds := Days(e.shifts);
    var sorted := Sort(ds);
    var k := WalkBack(sorted, asOf, 0);
    RunFacts(ds, sorted, asOf, k);
    k
  }

  /**
    The walk over a sorted rearrangement of the worked days counts only
    worked days and, without repeated days, stops where their run ends.
  */
  lemma RunFacts(ds: seq<int>, sorted: seq<int>, asOf: int, k: nat)
    requires Sorted(sorted) && multiset(sorted) == multiset(ds)
    requires k == WalkBack(sorted, asOf, 0)
    ensures forall d :: asOf - k <= d < asOf ==> d in ds
    ensures Distinct(ds) ==> asOf - k - 1 !in ds
  {
    forall d | asOf - k <= d < asOf ensures d in ds {
      RearrangeKeepsMember(ds, sorted, d);
    }
    if Distinct(ds) {
      RearrangeKeepsDistinct(ds, sorted);
      SortedDistinctIsStrict(sorted);
      WalkBackMaximal(sorted, asOf, 0);
      RearrangeKeepsMember(ds, sorted, asOf - k - 1);
    }
  }

  /**
    Only the worked days before `asOf` matter: two employees whose worked days
    below `asOf` agree (as multisets) get the same count.
  */
  lemma ConsecutiveIgnoresLater(e1: Employee, e2: Employee, asOf: int)
    requires multiset(Below(Days(e1.shifts), asOf)) == multiset(Below(Days(e2.shifts), asOf))
    ensures ConsecutiveDaysWorked(e1, asOf) == ConsecutiveDaysWorked(e2, asOf)
  {
    var d1, d2 := Days(e1.shifts), Days(e2.shifts);
    WalkBackBelow(Sort(d1), asOf, 0);
    WalkBackBelow(Sort(d2), asOf, 0);
    SortBelowCommute(d1, asOf);
    SortBelowCommute(d2, asOf);
    SortedUnique(Sort(Below(d1, asOf)), Sort(Below(d2, asOf)));
  }

  /** Recording a shift on or after `asOf` leaves the count as of `asOf` unchanged. */
  lemma ConsecutiveAfterLaterShift(e: Employee, asOf: int, day: int, code: Code)
    requires day >= asOf
    ensures ConsecutiveDaysWorked(AddShift(e, day, code), asOf) == ConsecutiveDaysWorked(e, asOf)
  {
    var r := AddShift(e, day, code);
    assert Days(r.shifts) == Days(e.shifts) + [day];
    assert Days(r.shifts)[..|e.shifts|] == Days(e.shifts);
    assert Below(Days(r.shifts), asOf) == Below(Days(e.shifts), asOf);
    ConsecutiveIgnoresLater(r, e, asOf);
  }
}
