/**
  The roster of one month: the day step folded over the days of the month,
  with the caller's per-day choices (the shuffled order and the template).
*/
module Month {
  import opened Dates
  import opened Shifts
  import opened Employees
  import opened Sorting
  import opened Generator

  /** One day of the roster: its day number and who works which shift. */
  datatype RosterDay = RosterDay(date: int, shifts: DayMap)

  /**
    A run over consecutive days: each employee's final state, the roster, and
    for every day the employees (by position) whose rest was recorded that day.
  */
  datatype Run = Run(staff: seq<Worker>, roster: seq<RosterDay>, rested: seq<set<nat>>)

  /** The entry one roster day implies for an employee: their shift, if they have one. */
  function Entry(d: RosterDay, name: string): seq<Assignment> {
    if name in d.shifts then [Assignment(d.date, d.shifts[name])] else []
  }

  /** The entries a roster implies for an employee, in roster order. */
  function History(roster: seq<RosterDay>, name: string): seq<Assignment> {
    if roster == [] then [] else Entry(roster[0], name) + History(roster[1..], name)
  }

  predicate Orders(choices: seq<DayChoice>, n: nat) {
    forall k :: 0 <= k < |choices| ==> IsOrder(choices[k].order, n)
  }

  /** One roster day per choice, on consecutive day numbers from `first`. */
  predicate Shaped(r: Run, first: int, days: nat, n: nat) {
    && |r.roster| == days && |r.rested| == days && |r.staff| == n
    && forall k :: 0 <= k < days ==> r.roster[k].date == first + k
  }

  /** Each employee's record is the starting record plus exactly their roster entries. */
  predicate Recorded(staff: seq<Worker>, r: Run) {
    && |r.staff| == |staff|
    && forall i :: 0 <= i < |staff| ==>
         r.staff[i].emp == staff[i].emp.(shifts := staff[i].emp.shifts + History(r.roster, staff[i].emp.name))
  }

  /** Every roster entry names an employee for whom its code is eligible. */
  predicate EligibleEntries(staff: seq<Worker>, roster: seq<RosterDay>) {
    forall k, n :: 0 <= k < |roster| && n in roster[k].shifts ==>
      exists i :: 0 <= i < |staff| && staff[i].emp.name == n && roster[k].shifts[n] in staff[i].emp.eligible
  }

  /** A rest is recorded only for an employee without a shift that day. */
  predicate RestsOffDuty(staff: seq<Worker>, r: Run) {
    && |r.rested| == |r.roster|
    && forall k :: 0 <= k < |r.rested| ==> OffDuty(staff, r.rested[k], r.roster[k].shifts)
  }

  /** Everyone in `rested` is an employee without a shift in `day`. */
  predicate OffDuty(staff: seq<Worker>, rested: set<nat>, day: DayMap) {
    forall i :: i in rested ==> i < |staff| && staff[i].emp.name !in day
  }

  /** No employee has rests recorded on two consecutive days. */
  predicate RestsApart(rested: seq<set<nat>>) {
    forall k :: 0 <= k < |rested| - 1 ==> rested[k] !! rested[k + 1]
  }

  /** The day after a recorded rest the employee works, when any code is eligible for them. */
  predicate WorkAfterRest(staff: seq<Worker>, r: Run) {
    && |r.rested| == |r.roster|
    && forall k, i :: 0 <= k < |r.rested| - 1 && i in r.rested[k] && i < |staff| && |staff[i].emp.eligible| > 0 ==>
         staff[i].emp.name in r.roster[k + 1].shifts
  }

  /**
    Exactly who rests: on each day, a rest is recorded for an employee
    exactly when they have no shift that day and did not rest the day
    before (on the first day, read from the starting flag).
  */
  predicate RestsExact(staff: seq<Worker>, r: Run) {
    && |r.rested| == |r.roster|
    && forall k :: 0 <= k < |r.rested| ==> ExactOn(staff, r, k)
  }

  predicate ExactOn(staff: seq<Worker>, r: Run, k: nat)
    requires k < |r.rested| && k < |r.roster|
  {
    forall i :: 0 <= i < |staff| ==>
      (i in r.rested[k] <==>
         && staff[i].emp.name !in r.roster[k].shifts
         && if k == 0 then !staff[i].rest.restedYesterday else i !in r.rested[k - 1])
  }

  /**
    Nobody who can work any code goes two consecutive roster days without
    a shift.
  */
  predicate NoTwoDaysOff(staff: seq<Worker>, roster: seq<RosterDay>) {
    forall k :: 0 <= k < |roster| - 1 ==> OnOneOfTwo(staff, roster, k)
  }

  predicate OnOneOfTwo(staff: seq<Worker>, roster: seq<RosterDay>, k: nat)
    requires k + 1 < |roster|
  {
    forall i :: 0 <= i < |staff| && |staff[i].emp.eligible| > 0 ==>
      staff[i].emp.name in roster[k].shifts || staff[i].emp.name in roster[k + 1].shifts
  }

  /** A day off that is not a recorded rest follows a recorded rest, so the day after a day off is a working day. */
  lemma NoTwoDaysOffHolds(staff: seq<Worker>, r: Run)
    requires RestsExact(staff, r) && WorkAfterRest(staff, r) && OpensFrom(staff, r)
    ensures NoTwoDaysOff(staff, r.roster)
  {
    forall k | 0 <= k < |r.roster| - 1 ensures OnOneOfTwo(staff, r.roster, k) {
      forall i | 0 <= i < |staff| && |staff[i].emp.eligible| > 0 && staff[i].emp.name !in r.roster[k].shifts
        ensures staff[i].emp.name in r.roster[k + 1].shifts
      {
        assert ExactOn(staff, r, k);
        assert i in r.rested[k];
      }
    }
  }

  /** The first day continues from the starting rest flags. */
  predicate OpensFrom(staff: seq<Worker>, r: Run) {
    && |r.rested| == |r.roster|
    && (|r.rested| > 0 ==> forall i :: i in r.rested[0] ==> i < |staff| && !staff[i].rest.restedYesterday)
    && (|r.roster| > 0 ==> forall i :: 0 <= i < |staff| && staff[i].rest.restedYesterday && |staff[i].emp.eligible| > 0 ==>
          staff[i].emp.name in r.roster[0].shifts)
  }

  /**
    Runs the day step over the days `first`, `first + 1`, ... one per choice.
    Every employee's record gains exactly the roster's entries for them; every
    roster entry names an employee eligible for its code; nobody rests on a
    day they work; rests are never recorded on two consecutive days; and the
    day after a recorded rest the employee works, if any code is eligible.
  */
  function RunDays(staff: seq<Worker>, first: int, choices: seq<DayChoice>): (r: Run)
    requires DistinctNames(staff) && Orders(choices, |staff|)
    ensures Shaped(r, first, |choices|, |staff|)
    ensures Recorded(staff, r)
    ensures EligibleEntries(staff, r.roster)
    ensures RestsOffDuty(staff, r)
    ensures RestsApart(r.rested)
    ensures WorkAfterRest(staff, r)
    ensures OpensFrom(staff, r)
    ensures RestsExact(staff, r)
    ensures NoTwoDaysOff(staff, r.roster)
    decreases |choices|
  {
    if choices == [] then
      Run(staff, [], [])
    else
      var s := DayStep(staff, choices[0], first);
      ExtendsKeepsNames(DayState(staff, map[]), s, first);
      ExtendsKeepsSize(staff, s, first);
      OrdersTail(choices, |staff|);
      var rest := RunDays(s.staff, first + 1, choices[1..]);
      var rested := RestedToday(s.staff);
      var r := Run(rest.staff, [RosterDay(first, s.day)] + rest.roster, [rested] + rest.rested);
      RunStep(staff, first, |choices|, s, rested, rest, r);
      NoTwoDaysOffHolds(staff, r);
      r
  }

  /** The positions of the employees whose rest flag is set. */
  function RestedToday(staff: seq<Worker>): set<nat> {
    set i | 0 <= i < |staff| && staff[i].rest.restedYesterday
  }

  /** Prefixing one day's outcome to the run of the following days keeps every run fact. */
  lemma RunStep(staff: seq<Worker>, first: int, days: nat, s: DayState, rested: set<nat>, rest: Run, r: Run)
    requires days > 0
    requires Extends(DayState(staff, map[]), s, first)
    requires forall i :: 0 <= i < |staff| ==> Settles(staff[i], s.staff[i], s.day, first)
    requires rested == RestedToday(s.staff)
    requires Shaped(rest, first + 1, days - 1, |s.staff|) && Recorded(s.staff, rest) && EligibleEntries(s.staff, rest.roster)
    requires RestsOffDuty(s.staff, rest) && RestsApart(rest.rested) && WorkAfterRest(s.staff, rest) && OpensFrom(s.staff, rest)
    requires RestsExact(s.staff, rest)
    requires r == Run(rest.staff, [RosterDay(first, s.day)] + rest.roster, [rested] + rest.rested)
    ensures Shaped(r, first, days, |staff|) && Recorded(staff, r) && EligibleEntries(staff, r.roster)
    ensures RestsOffDuty(staff, r) && RestsApart(r.rested) && WorkAfterRest(staff, r) && OpensFrom(staff, r)
    ensures RestsExact(staff, r)
  {
    ExtendsKeepsSize(staff, s, first);
    StepShaped(first, days, |staff|, s.day, rested, rest, r);
    SameStaff(staff, s, first);
    StepRecorded(staff, s, first, rest, r);
    StepEligible(staff, s, first, rest, r);
    StepRests(staff, s, first, rested, rest, r);
    StepExact(staff, s, first, rested, rest, r);
  }

  lemma StepExact(staff: seq<Worker>, s: DayState, first: int, rested: set<nat>, rest: Run, r: Run)
    requires |s.staff| == |staff|
    requires forall i :: 0 <= i < |staff| ==> Settles(staff[i], s.staff[i], s.day, first)
    requires forall i :: 0 <= i < |staff| ==> s.staff[i].emp.name == staff[i].emp.name
    requires rested == RestedToday(s.staff)
    requires RestsExact(s.staff, rest)
    requires r.roster == [RosterDay(first, s.day)] + rest.roster && r.rested == [rested] + rest.rested
    ensures RestsExact(staff, r)
  {
    forall k | 0 <= k < |r.rested| ensures ExactOn(staff, r, k) {
      if k == 0 {
        assert r.rested[0] == rested && r.roster[0].shifts == s.day;
        forall i | 0 <= i < |staff|
          ensures i in rested <==> staff[i].emp.name !in s.day && !staff[i].rest.restedYesterday
        {
          assert Settles(staff[i], s.staff[i], s.day, first);
        }
      } else {
        assert r.rested[k] == rest.rested[k - 1] && r.roster[k] == rest.roster[k - 1];
        assert ExactOn(s.staff, rest, k - 1);
        if k == 1 {
          assert r.rested[0] == RestedToday(s.staff);
        } else {
          assert r.rested[k - 1] == rest.rested[k - 2];
        }
      }
    }
  }

  lemma ExtendsKeepsSize(staff: seq<Worker>, s: DayState, today: int)
    requires Extends(DayState(staff, map[]), s, today)
    ensures |s.staff| == |staff|
  {
  }

  lemma OrdersTail(choices: seq<DayChoice>, n: nat)
    requires Orders(choices, n) && choices != []
    ensures Orders(choices[1..], n)
  {
    forall k | 0 <= k < |choices| - 1 ensures IsOrder(choices[1..][k].order, n) {
      assert choices[1..][k] == choices[k + 1];
    }
  }

  lemma StepShaped(first: int, days: nat, n: nat, day: DayMap, rested: set<nat>, rest: Run, r: Run)
    requires days > 0 && Shaped(rest, first + 1, days - 1, n)
    requires r == Run(rest.staff, [RosterDay(first, day)] + rest.roster, [rested] + rest.rested)
    ensures Shaped(r, first, days, n)
  {
    forall k | 0 <= k < days ensures r.roster[k].date == first + k {
      if k > 0 {
        assert r.roster[k] == rest.roster[k - 1];
      }
    }
  }

  /** A day changes no name, eligible list, leave or recovery. */
  lemma SameStaff(staff: seq<Worker>, s: DayState, today: int)
    requires Extends(DayState(staff, map[]), s, today)
    ensures forall i :: 0 <= i < |staff| ==>
              s.staff[i].emp.name == staff[i].emp.name && s.staff[i].emp.eligible == staff[i].emp.eligible
  {
    forall i | 0 <= i < |staff|
      ensures s.staff[i].emp.name == staff[i].emp.name && s.staff[i].emp.eligible == staff[i].emp.eligible
    {
      ExtendsKeepsStaff(DayState(staff, map[]), s, today, i);
    }
  }

  lemma StepRecorded(staff: seq<Worker>, s: DayState, first: int, rest: Run, r: Run)
    requires Extends(DayState(staff, map[]), s, first)
    requires Recorded(s.staff, rest)
    requires r.staff == rest.staff && r.roster == [RosterDay(first, s.day)] + rest.roster
    ensures Recorded(staff, r)
  {
    forall i | 0 <= i < |staff|
      ensures r.staff[i].emp == staff[i].emp.(shifts := staff[i].emp.shifts + History(r.roster, staff[i].emp.name))
    {
      ExtendsKeepsStaff(DayState(staff, map[]), s, first, i);
      RecordedOne(staff[i].emp, s.staff[i].emp, r.staff[i].emp, first, s.day, rest.roster, r.roster);
    }
  }

  /** One employee's record over the first day and the days after it. */
  lemma RecordedOne(e: Employee, mid: Employee, last: Employee, first: int, day: DayMap, later: seq<RosterDay>, roster: seq<RosterDay>)
    requires mid == e.(shifts := e.shifts + Added(map[], day, e.name, first))
    requires last == mid.(shifts := mid.shifts + History(later, mid.name))
    requires roster == [RosterDay(first, day)] + later
    ensures last == e.(shifts := e.shifts + History(roster, e.name))
  {
    var d0 := RosterDay(first, day);
    assert roster[1..] == later;
    assert Added(map[], day, e.name, first) == Entry(d0, e.name);
    assert History(roster, e.name) == Entry(d0, e.name) + History(later, e.name);
    assert e.shifts + Entry(d0, e.name) + History(later, e.name) == e.shifts + History(roster, e.name);
  }

  lemma StepEligible(staff: seq<Worker>, s: DayState, first: int, rest: Run, r: Run)
    requires Extends(DayState(staff, map[]), s, first)
    requires forall i :: 0 <= i < |staff| ==>
               s.staff[i].emp.name == staff[i].emp.name && s.staff[i].emp.eligible == staff[i].emp.eligible
    requires EligibleEntries(s.staff, rest.roster)
    requires r.roster == [RosterDay(first, s.day)] + rest.roster
    ensures EligibleEntries(staff, r.roster)
  {
    forall k, n | 0 <= k < |r.roster| && n in r.roster[k].shifts
      ensures exists i :: 0 <= i < |staff| && staff[i].emp.name == n && r.roster[k].shifts[n] in staff[i].emp.eligible
    {
      if k == 0 {
        assert n in s.day && n !in DayState(staff, map[]).day;
      } else {
        assert r.roster[k] == rest.roster[k - 1];
        var i :| 0 <= i < |s.staff| && s.staff[i].emp.name == n && rest.roster[k - 1].shifts[n] in s.staff[i].emp.eligible;
      }
    }
  }

  lemma StepRests(staff: seq<Worker>, s: DayState, first: int, rested: set<nat>, rest: Run, r: Run)
    requires Extends(DayState(staff, map[]), s, first)
    requires forall i :: 0 <= i < |staff| ==> Settles(staff[i], s.staff[i], s.day, first)
    requires forall i :: 0 <= i < |staff| ==>
               s.staff[i].emp.name == staff[i].emp.name && s.staff[i].emp.eligible == staff[i].emp.eligible
    requires rested == RestedToday(s.staff)
    requires RestsOffDuty(s.staff, rest) && RestsApart(rest.rested) && WorkAfterRest(s.staff, rest) && OpensFrom(s.staff, rest)
    requires r.roster == [RosterDay(first, s.day)] + rest.roster && r.rested == [rested] + rest.rested
    ensures RestsOffDuty(staff, r) && RestsApart(r.rested) && WorkAfterRest(staff, r) && OpensFrom(staff, r)
  {
    ExtendsKeepsSize(staff, s, first);
    StepOffDuty(staff, s, first, rested, rest, r);
    StepApart(staff, s, first, rested, rest, r);
    StepWorkAfter(staff, s, first, rested, rest, r);
    StepOpens(staff, s, first, rested, rest, r);
  }

  lemma InRestedToday(staff: seq<Worker>, i: nat)
    requires i in RestedToday(staff)
    ensures i < |staff| && staff[i].rest.restedYesterday
  {
  }

  lemma StepOffDuty(staff: seq<Worker>, s: DayState, first: int, rested: set<nat>, rest: Run, r: Run)
    requires |s.staff| == |staff|
    requires forall i :: 0 <= i < |staff| ==> Settles(staff[i], s.staff[i], s.day, first)
    requires forall i :: 0 <= i < |staff| ==> s.staff[i].emp.name == staff[i].emp.name
    requires rested == RestedToday(s.staff)
    requires RestsOffDuty(s.staff, rest)
    requires r.roster == [RosterDay(first, s.day)] + rest.roster && r.rested == [rested] + rest.rested
    ensures RestsOffDuty(staff, r)
  {
    forall k | 0 <= k < |r.rested| ensures OffDuty(staff, r.rested[k], r.roster[k].shifts) {
      if k == 0 {
        assert r.rested[0] == rested && r.roster[0].shifts == s.day;
        forall i | i in rested ensures i < |staff| && staff[i].emp.name !in s.day {
          InRestedToday(s.staff, i);
          assert Settles(staff[i], s.staff[i], s.day, first);
        }
      } else {
        assert r.rested[k] == rest.rested[k - 1] && r.roster[k] == rest.roster[k - 1];
        assert OffDuty(s.staff, rest.rested[k - 1], rest.roster[k - 1].shifts);
      }
    }
  }

  lemma StepApart(staff: seq<Worker>, s: DayState, first: int, rested: set<nat>, rest: Run, r: Run)
    requires |s.staff| == |staff|
    requires forall i :: 0 <= i < |staff| ==> Settles(staff[i], s.staff[i], s.day, first)
    requires rested == RestedToday(s.staff)
    requires RestsApart(rest.rested) && OpensFrom(s.staff, rest)
    requires r.roster == [RosterDay(first, s.day)] + rest.roster && r.rested == [rested] + rest.rested
    ensures RestsApart(r.rested)
  {
    forall k | 0 <= k < |r.rested| - 1 ensures r.rested[k] !! r.rested[k + 1] {
      if k == 0 {
        forall i | i in r.rested[0] ensures i !in r.rested[1] {
          InRestedToday(s.staff, i);
          assert r.rested[1] == rest.rested[0];
        }
      } else {
        assert r.rested[k] == rest.rested[k - 1] && r.rested[k + 1] == rest.rested[k];
      }
    }
  }

  lemma StepWorkAfter(staff: seq<Worker>, s: DayState, first: int, rested: set<nat>, rest: Run, r: Run)
    requires |s.staff| == |staff|
    requires forall i :: 0 <= i < |staff| ==>
               s.staff[i].emp.name == staff[i].emp.name && s.staff[i].emp.eligible == staff[i].emp.eligible
    requires rested == RestedToday(s.staff)
    requires WorkAfterRest(s.staff, rest) && OpensFrom(s.staff, rest)
    requires r.roster == [RosterDay(first, s.day)] + rest.roster && r.rested == [rested] + rest.rested
    ensures WorkAfterRest(staff, r)
  {
    forall k, i | 0 <= k < |r.rested| - 1 && i in r.rested[k] && i < |staff| && |staff[i].emp.eligible| > 0
      ensures staff[i].emp.name in r.roster[k + 1].shifts
    {
      assert r.roster[k + 1] == rest.roster[k];
      if k == 0 {
        InRestedToday(s.staff, i);
      } else {
        assert r.rested[k] == rest.rested[k - 1];
      }
    }
  }

  lemma StepOpens(staff: seq<Worker>, s: DayState, first: int, rested: set<nat>, rest: Run, r: Run)
    requires |s.staff| == |staff|
    requires forall i :: 0 <= i < |staff| ==> Settles(staff[i], s.staff[i], s.day, first)
    requires rested == RestedToday(s.staff)
    requires |rest.rested| == |rest.roster|
    requires r.roster == [RosterDay(first, s.day)] + rest.roster && r.rested == [rested] + rest.rested
    ensures OpensFrom(staff, r)
  {
    assert r.roster[0].shifts == s.day && r.rested[0] == rested;
    forall i | i in r.rested[0] ensures i < |staff| && !staff[i].rest.restedYesterday {
      InRestedToday(s.staff, i);
      assert Settles(staff[i], s.staff[i], s.day, first);
    }
    forall i | 0 <= i < |staff| && staff[i].rest.restedYesterday && |staff[i].emp.eligible| > 0
      ensures staff[i].emp.name in r.roster[0].shifts
    {
      assert Settles(staff[i], s.staff[i], s.day, first);
    }
  }

  // ---------------------------------------------------------------- the whole month

  datatype Error = InvalidMonth | InvalidYear

  datatype Result<T> = Ok(value: T) | Err(error: Error)

  /** What a generation leaves behind: the staff list, in its last shuffled order, and the roster. */
  datatype Outcome = Outcome(staff: seq<Employee>, roster: seq<RosterDay>)

  predicate UniqueNames(staff: seq<Employee>) {
    forall i, j :: 0 <= i < j < |staff| ==> staff[i].name != staff[j].name
  }

  /** The caller's choices fit the month: one per day, each a shuffle of the whole staff. */
  predicate ChoicesFit(month: int, year: int, n: nat, choices: seq<DayChoice>) {
    ValidMonth(month) ==> |choices| == DaysInMonth(year, month) && Orders(choices, n)
  }

  /** The returned list holds, in the order `last`, every employee with exactly their roster entries added. */
  predicate ReturnedInOrder(staff: seq<Employee>, last: seq<nat>, out: Outcome) {
    && |out.staff| == |staff| && InRange(last, |staff|) && |last| == |staff|
    && forall k :: 0 <= k < |staff| ==>
         var e := staff[last[k]];
         out.staff[k] == e.(shifts := e.shifts + History(out.roster, e.name))
  }

  /**
    What a generated month is: one roster day per day of the month, in date
    order; the staff list back in the last day's shuffled order, each
    employee's record extended by exactly their roster entries; and every
    roster entry naming an employee eligible for its code; and nobody who
    can work any code goes two consecutive days of the month without a shift.
  */
  predicate MonthRoster(month: int, year: int, staff: seq<Employee>, choices: seq<DayChoice>, out: Outcome)
    requires ValidMonth(month) && ValidYear(year)
  {
    && |out.roster| == DaysInMonth(year, month)
    && (forall k :: 0 <= k < |out.roster| ==> out.roster[k].date == Ordinal(year, month, k + 1))
    && |out.staff| == |staff| && |choices| > 0 && ReturnedInOrder(staff, choices[|choices| - 1].order, out)
    && (forall k, n :: 0 <= k < |out.roster| && n in out.roster[k].shifts ==>
         exists i :: 0 <= i < |staff| && staff[i].name == n && out.roster[k].shifts[n] in staff[i].eligible)
    && forall k :: 0 <= k < |out.roster| - 1 ==> WorksOneOfTwo(staff, out.roster, k)
  }

  predicate WorksOneOfTwo(staff: seq<Employee>, roster: seq<RosterDay>, k: nat)
    requires k + 1 < |roster|
  {
    forall i :: 0 <= i < |staff| && |staff[i].eligible| > 0 ==>
      staff[i].name in roster[k].shifts || staff[i].name in roster[k + 1].shifts
  }

  /**
    Generates the roster of `month` of `year`. An invalid month or year is an
    error; otherwise the month is generated.
  */
  function Generate(month: int, year: int, staff: seq<Employee>, choices: seq<DayChoice>): (r: Result<Outcome>)
    requires UniqueNames(staff)
    requires ChoicesFit(month, year, |staff|, choices)
    ensures !ValidMonth(month) ==> r == Err(InvalidMonth)
    ensures ValidMonth(month) && !ValidYear(year) ==> r == Err(InvalidYear)
    ensures ValidMonth(month) && ValidYear(year) ==> r.Ok? && MonthRoster(month, year, staff, choices, r.value)
  {
    if !ValidMonth(month) then Err(InvalidMonth)
    else if !ValidYear(year) then Err(InvalidYear)
    else Ok(Build(month, year, staff, choices))
  }

  /** The month of a valid month and year. */
  function Build(month: int, year: int, staff: seq<Employee>, choices: seq<DayChoice>): (out: Outcome)
    requires ValidMonth(month) && ValidYear(year)
    requires UniqueNames(staff)
    requires ChoicesFit(month, year, |staff|, choices)
    ensures MonthRoster(month, year, staff, choices, out)
  {
    var workers := Hire(staff);
    var run := RunDays(workers, Ordinal(year, month, 1), choices);
    var last := choices[|choices| - 1].order;
    assert IsOrder(last, |staff|);
    var out := Outcome(Arrange(run.staff, last), run.roster);
    BuildFacts(month, year, staff, choices, workers, run, out);
    out
  }

  lemma BuildFacts(month: int, year: int, staff: seq<Employee>, choices: seq<DayChoice>, workers: seq<Worker>, run: Run, out: Outcome)
    requires ValidMonth(month) && ValidYear(year) && ChoicesFit(month, year, |staff|, choices)
    requires workers == Hire(staff)
    requires Shaped(run, Ordinal(year, month, 1), |choices|, |workers|) && Recorded(workers, run)
    requires EligibleEntries(workers, run.roster) && NoTwoDaysOff(workers, run.roster)
    requires IsOrder(choices[|choices| - 1].order, |staff|)
    requires out == Outcome(Arrange(run.staff, choices[|choices| - 1].order), run.roster)
    ensures MonthRoster(month, year, staff, choices, out)
  {
    GenerateDates(year, month, run, out);
    GenerateStaff(staff, workers, run, choices[|choices| - 1].order, out);
    GenerateEntries(staff, workers, run, out);
    GenerateNoTwoOff(staff, workers, run, out);
  }

  lemma GenerateNoTwoOff(staff: seq<Employee>, workers: seq<Worker>, run: Run, out: Outcome)
    requires workers == Hire(staff) && NoTwoDaysOff(workers, run.roster)
    requires out.roster == run.roster
    ensures forall k :: 0 <= k < |out.roster| - 1 ==> WorksOneOfTwo(staff, out.roster, k)
  {
    forall k | 0 <= k < |out.roster| - 1 ensures WorksOneOfTwo(staff, out.roster, k) {
      assert OnOneOfTwo(workers, run.roster, k);
    }
  }

  /** Every employee starts the month with no rest recorded and the flag clear. */
  function Hire(staff: seq<Employee>): (w: seq<Worker>)
    ensures |w| == |staff| && forall i :: 0 <= i < |staff| ==> w[i] == Worker(staff[i], Fresh)
  {
    if staff == [] then [] else [Worker(staff[0], Fresh)] + Hire(staff[1..])
  }

  /** The employees' records, listed in the order `last`. */
  function Arrange(ws: seq<Worker>, last: seq<nat>): (r: seq<Employee>)
    requires InRange(last, |ws|)
    ensures |r| == |last| && forall k :: 0 <= k < |last| ==> r[k] == ws[last[k]].emp
  {
    if last == [] then [] else [ws[last[0]].emp] + Arrange(ws, last[1..])
  }

  lemma GenerateDates(year: int, month: int, run: Run, out: Outcome)
    requires ValidYear(year) && ValidMonth(month)
    requires Shaped(run, Ordinal(year, month, 1), DaysInMonth(year, month), |run.staff|)
    requires out.roster == run.roster
    ensures |out.roster| == DaysInMonth(year, month)
    ensures forall k :: 0 <= k < |out.roster| ==> out.roster[k].date == Ordinal(year, month, k + 1)
  {
  }

  lemma GenerateStaff(staff: seq<Employee>, workers: seq<Worker>, run: Run, last: seq<nat>, out: Outcome)
    requires workers == Hire(staff) && Recorded(workers, run)
    requires IsOrder(last, |staff|)
    requires out == Outcome(Arrange(run.staff, last), run.roster)
    ensures ReturnedInOrder(staff, last, out)
  {
    forall k | 0 <= k < |staff|
      ensures out.staff[k] == staff[last[k]].(shifts := staff[last[k]].shifts + History(out.roster, staff[last[k]].name))
    {
      assert last[k] < |staff|;
    }
  }

  lemma GenerateEntries(staff: seq<Employee>, workers: seq<Worker>, run: Run, out: Outcome)
    requires workers == Hire(staff) && EligibleEntries(workers, run.roster)
    requires out.roster == run.roster
    ensures forall k, n :: 0 <= k < |out.roster| && n in out.roster[k].shifts ==>
              exists i :: 0 <= i < |staff| && staff[i].name == n && out.roster[k].shifts[n] in staff[i].eligible
  {
    forall k, n | 0 <= k < |out.roster| && n in out.roster[k].shifts
      ensures exists i :: 0 <= i < |staff| && staff[i].name == n && out.roster[k].shifts[n] in staff[i].eligible
    {
      var i :| 0 <= i < |workers| && workers[i].emp.name == n && run.roster[k].shifts[n] in workers[i].emp.eligible;
      assert staff[i] == workers[i].emp;
    }
  }

  // ---------------------------------------------------------------- the records the month leaves

  lemma DaysConcat(a: seq<Assignment>, b: seq<Assignment>)
    ensures Days(a + b) == Days(a) + Days(b)
  {
  }

  /** A roster's entries for one employee: the first day's entry, then the rest. */
  lemma HistoryDays(roster: seq<RosterDay>, name: string)
    requires roster != []
    ensures Days(History(roster, name)) == Days(Entry(roster[0], name)) + Days(History(roster[1..], name))
    ensures Days(Entry(roster[0], name)) == if name in roster[0].shifts then [roster[0].date] else []
  {
    DaysConcat(Entry(roster[0], name), History(roster[1..], name));
  }

  lemma TailDates(roster: seq<RosterDay>, first: int)
    requires roster != [] && forall k :: 0 <= k < |roster| ==> roster[k].date == first + k
    ensures forall k :: 0 <= k < |roster[1..]| ==> roster[1..][k].date == first + 1 + k
  {
    forall k | 0 <= k < |roster[1..]| ensures roster[1..][k].date == first + 1 + k {
      assert roster[1..][k] == roster[k + 1];
    }
  }

  /**
    On a roster of consecutive days, the entries for one employee come in
    strictly increasing date order, all within the roster's days.
  */
  lemma {:induction false} HistoryAscending(roster: seq<RosterDay>, name: string, first: int)
    requires forall k :: 0 <= k < |roster| ==> roster[k].date == first + k
    ensures StrictlySorted(Days(History(roster, name)))
    ensures forall x :: x in Days(History(roster, name)) ==> first <= x < first + |roster|
  {
    if roster != [] {
      TailDates(roster, first);
      HistoryAscending(roster[1..], name, first + 1);
      HistoryDays(roster, name);
      var e, t := Days(Entry(roster[0], name)), Days(History(roster[1..], name));
      var h := e + t;
      forall i, j | 0 <= i < j < |h| ensures h[i] < h[j] {
        assert h[j] == t[j - |e|] && t[j - |e|] in t;
        if i >= |e| {
          assert h[i] == t[i - |e|];
        }
      }
    }
  }

  /**
    The roster and an employee's entries mirror each other: the employee has
    a shift on roster day `k` exactly when that date appears among the
    entries, and the entry carries the roster's code.
  */
  lemma {:induction false} HistoryMirror(roster: seq<RosterDay>, name: string, first: int, k: nat)
    requires forall j :: 0 <= j < |roster| ==> roster[j].date == first + j
    requires k < |roster|
    ensures name in roster[k].shifts <==> roster[k].date in Days(History(roster, name))
    ensures name in roster[k].shifts ==> Assignment(roster[k].date, roster[k].shifts[name]) in History(roster, name)
  {
    TailDates(roster, first);
    HistoryAscending(roster[1..], name, first + 1);
    HistoryDays(roster, name);
    var e, t := Entry(roster[0], name), History(roster[1..], name);
    assert History(roster, name) == e + t;
    if k == 0 {
      if name in roster[0].shifts {
        assert (e + t)[0] == Assignment(roster[0].date, roster[0].shifts[name]);
      }
    } else {
      assert roster[1..][k - 1] == roster[k];
      HistoryMirror(roster[1..], name, first + 1, k - 1);
      if name in roster[k].shifts {
        var a := Assignment(roster[k].date, roster[k].shifts[name]);
        var i :| 0 <= i < |t| && t[i] == a;
        assert (e + t)[|e| + i] == a;
      }
    }
  }

  /**
    For a staff whose records start empty (as after the reset), every
    record the month returns lists each date at most once, in increasing
    order, and has a date exactly when the roster gives that employee a
    shift on it.
  */
  lemma GeneratedRecords(month: int, year: int, staff: seq<Employee>, choices: seq<DayChoice>, out: Outcome)
    requires UniqueNames(staff) && ChoicesFit(month, year, |staff|, choices)
    requires forall i :: 0 <= i < |staff| ==> staff[i].shifts == []
    requires Generate(month, year, staff, choices) == Ok(out)
    ensures forall k :: 0 <= k < |out.staff| ==> StrictlySorted(Days(out.staff[k].shifts)) && Distinct(Days(out.staff[k].shifts))
    ensures forall k, d :: 0 <= k < |out.staff| && 0 <= d < |out.roster| ==>
              (out.staff[k].name in out.roster[d].shifts <==> out.roster[d].date in Days(out.staff[k].shifts))
  {
    GeneratedIsMonth(month, year, staff, choices, out);
    MonthRecords(month, year, staff, choices, out);
  }

  lemma GeneratedIsMonth(month: int, year: int, staff: seq<Employee>, choices: seq<DayChoice>, out: Outcome)
    requires UniqueNames(staff) && ChoicesFit(month, year, |staff|, choices)
    requires Generate(month, year, staff, choices) == Ok(out)
    ensures ValidMonth(month) && ValidYear(year) && MonthRoster(month, year, staff, choices, out)
  {
  }

  lemma MonthRecords(month: int, year: int, staff: seq<Employee>, choices: seq<DayChoice>, out: Outcome)
    requires ValidMonth(month) && ValidYear(year) && MonthRoster(month, year, staff, choices, out)
    requires forall i :: 0 <= i < |staff| ==> staff[i].shifts == []
    ensures forall k :: 0 <= k < |out.staff| ==> StrictlySorted(Days(out.staff[k].shifts)) && Distinct(Days(out.staff[k].shifts))
    ensures forall k, d :: 0 <= k < |out.staff| && 0 <= d < |out.roster| ==>
              (out.staff[k].name in out.roster[d].shifts <==> out.roster[d].date in Days(out.staff[k].shifts))
  {
    MonthDates(year, month, out.roster);
    RecordsFromRoster(staff, choices[|choices| - 1].order, out, Ordinal(year, month, 1));
  }

  /** The days of a month are consecutive day numbers from its first day. */
  lemma MonthDates(year: int, month: int, roster: seq<RosterDay>)
    requires ValidYear(year) && ValidMonth(month) && |roster| == DaysInMonth(year, month)
    requires forall k :: 0 <= k < |roster| ==> roster[k].date == Ordinal(year, month, k + 1)
    ensures forall k :: 0 <= k < |roster| ==> roster[k].date == Ordinal(year, month, 1) + k
  {
  }

  lemma RecordsFromRoster(staff: seq<Employee>, last: seq<nat>, out: Outcome, first: int)
    requires forall i :: 0 <= i < |staff| ==> staff[i].shifts == []
    requires ReturnedInOrder(staff, last, out)
    requires forall d :: 0 <= d < |out.roster| ==> out.roster[d].date == first + d
    ensures forall k :: 0 <= k < |out.staff| ==> StrictlySorted(Days(out.staff[k].shifts)) && Distinct(Days(out.staff[k].shifts))
    ensures forall k, d :: 0 <= k < |out.staff| && 0 <= d < |out.roster| ==>
              (out.staff[k].name in out.roster[d].shifts <==> out.roster[d].date in Days(out.staff[k].shifts))
  {
    forall k | 0 <= k < |out.staff|
      ensures StrictlySorted(Days(out.staff[k].shifts)) && Distinct(Days(out.staff[k].shifts))
    {
      var e := staff[last[k]];
      assert out.staff[k].shifts == [] + History(out.roster, e.name);
      HistoryAscending(out.roster, e.name, first);
    }
    forall k, d | 0 <= k < |out.staff| && 0 <= d < |out.roster|
      ensures out.staff[k].name in out.roster[d].shifts <==> out.roster[d].date in Days(out.staff[k].shifts)
    {
      var e := staff[last[k]];
      assert out.staff[k].name == e.name;
      assert out.staff[k].shifts == [] + History(out.roster, e.name) == History(out.roster, e.name);
      HistoryMirror(out.roster, e.name, first, d);
    }
  }
}
