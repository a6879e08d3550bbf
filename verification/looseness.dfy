/**
  Where the rostering rules are looser than their comments suggest: leave
  protects an employee only in the first pass, the forced shift after a
  rest does not look at who already holds the code, and the six-day rest
  gap gates only the first pass, so rests may come two days apart.
*/
module Looseness {
  import opened Shifts
  import opened Employees
  import opened Generator

  /**
    The fallback gives M to the first employee of the day's order who is
    free, may work M and did not rest yesterday, whenever the day is short;
    leave and recovery days are not consulted.
  */
  lemma FallbackTakesFirstFree(s: DayState, order: seq<nat>, today: int, target: nat)
    requires IsOrder(order, |s.staff|) && DistinctNames(s.staff) && |order| > 0
    requires |s.day| < target
    requires FitsFallback(s.staff[order[0]], s.day, M)
    ensures Name(s, order[0]) in Fallback(s, order, today, target).day
    ensures Fallback(s, order, today, target).day[Name(s, order[0])] == M
  {
    var n := Name(s, order[0]);
    var g := Give(s, order[0], today, M);
    ExtendsKeepsNames(s, g, today);
    var s1 := FallbackScan(s, order, today, M, target, 0);
    if |g.day| < target {
      var t := FallbackScan(g, order, today, M, target, 1);
      assert s1 == t;
      assert n in t.day && t.day[n] == M;
    } else {
      assert s1 == g;
    }
    var r := Fallback(s, order, today, target);
    if |s1.day| < target {
      ExtendsKeepsNames(s, s1, today);
      assert r == FallbackScan(s1, order, today, P, target, 0);
    }
  }

  /** With everyone away, the first pass leaves every slot empty. */
  lemma FirstPassEmptyWhenAllAway(staff: seq<Worker>, order: seq<nat>, today: int, slots: seq<Code>)
    requires IsOrder(order, |staff|) && DistinctNames(staff)
    requires forall j :: 0 <= j < |staff| ==> Unavailable(staff[j].emp, today)
    ensures FillSlots(DayState(staff, map[]), order, today, slots).day == map[]
  {
    var s0 := DayState(staff, map[]);
    var s1 := FillSlots(s0, order, today, slots);
    assert forall m :: m !in s1.day;
  }

  /** With everyone away, the fallback still puts the first of the order on M. */
  lemma CoveredWhenAllAway(staff: seq<Worker>, choice: DayChoice, today: int)
    requires IsOrder(choice.order, |staff|) && DistinctNames(staff) && |staff| > 0
    requires forall j :: 0 <= j < |staff| ==> Unavailable(staff[j].emp, today)
    requires !staff[choice.order[0]].rest.restedYesterday && M in staff[choice.order[0]].emp.eligible
    ensures staff[choice.order[0]].emp.name in Covered(staff, choice, today).day
    ensures Covered(staff, choice, today).day[staff[choice.order[0]].emp.name] == M
  {
    var i := choice.order[0];
    var s0 := DayState(staff, map[]);
    var template := Template(choice.full);
    var s1 := FillSlots(s0, choice.order, today, template);
    FirstPassEmptyWhenAllAway(staff, choice.order, today, template);
    ExtendsKeepsNames(s0, s1, today);
    ExtendsKeepsStaff(s0, s1, today, i);
    assert s1.staff[i].rest == staff[i].rest;
    FallbackTakesFirstFree(s1, choice.order, today, |template|);
    assert Name(s1, i) == staff[i].emp.name;
  }

  /**
    An employee on leave or on a recovery day can still be scheduled: when
    nobody may take a slot in the first pass (here everyone is away) and the
    first employee of the day's order did not rest yesterday and may work M,
    the fallback puts them on M although they are away.
  */
  lemma AwayYetScheduled(staff: seq<Worker>, choice: DayChoice, today: int)
    requires IsOrder(choice.order, |staff|) && DistinctNames(staff) && |staff| > 0
    requires forall j :: 0 <= j < |staff| ==> Unavailable(staff[j].emp, today)
    requires !staff[choice.order[0]].rest.restedYesterday && M in staff[choice.order[0]].emp.eligible
    ensures Unavailable(staff[choice.order[0]].emp, today)
    ensures staff[choice.order[0]].emp.name in DayStep(staff, choice, today).day
    ensures DayStep(staff, choice, today).day[staff[choice.order[0]].emp.name] == M
  {
    var c := Covered(staff, choice, today);
    CoveredWhenAllAway(staff, choice, today);
    ExtendsKeepsNames(DayState(staff, map[]), c, today);
    var r := Settle(c, choice.order, today, 0);
    assert r == DayStep(staff, choice, today);
  }

  /**
    The forced shift after a rest ignores occupancy: two employees who both
    rested yesterday and list the same first eligible code both get that
    code today.
  */
  lemma ForcedShiftsShareCode(staff: seq<Worker>, choice: DayChoice, today: int, i: nat, j: nat)
    requires IsOrder(choice.order, |staff|) && DistinctNames(staff)
    requires i < |staff| && j < |staff| && i != j
    requires staff[i].rest.restedYesterday && staff[j].rest.restedYesterday
    requires |staff[i].emp.eligible| > 0 && |staff[j].emp.eligible| > 0
    requires staff[i].emp.eligible[0] == staff[j].emp.eligible[0]
    ensures var r := DayStep(staff, choice, today);
            && staff[i].emp.name in r.day && staff[j].emp.name in r.day
            && r.day[staff[i].emp.name] == r.day[staff[j].emp.name] == staff[i].emp.eligible[0]
  {
    var r := DayStep(staff, choice, today);
    assert Settles(staff[i], r.staff[i], r.day, today);
    assert Settles(staff[j], r.staff[j], r.day, today);
  }

  /**
    The six-day gap is no spacing guarantee: someone with no eligible code
    who did not rest yesterday rests today whatever the date of their last
    rest, so with a rest two days ago (the day in between clears the flag)
    a new rest is recorded only two days after the previous one.
  */
  lemma RestWithoutGap(staff: seq<Worker>, choice: DayChoice, today: int, i: nat)
    requires IsOrder(choice.order, |staff|) && DistinctNames(staff) && i < |staff|
    requires staff[i].emp.eligible == [] && !staff[i].rest.restedYesterday
    ensures DayStep(staff, choice, today).staff[i].rest == RestState(Some(today), true)
  {
    var r := DayStep(staff, choice, today);
    NoEligibleNoShift(staff, r, today, i);
    assert Settles(staff[i], r.staff[i], r.day, today);
  }

  /** Someone with no eligible code gets no shift from any extension of an empty day. */
  lemma NoEligibleNoShift(staff: seq<Worker>, r: DayState, today: int, i: nat)
    requires DistinctNames(staff) && i < |staff| && staff[i].emp.eligible == []
    requires Extends(DayState(staff, map[]), r, today)
    ensures staff[i].emp.name !in r.day
  {
    var n := staff[i].emp.name;
    if n in r.day {
      var j :| 0 <= j < |staff| && staff[j].emp.name == n && r.day[n] in staff[j].emp.eligible;
      assert false;
    }
  }

  /**
    The same for someone who works: rested on day `d`, forced back to work
    on `d + 1`, and on `d + 2` left without a shift because the first pass
    skips them (their last rest is only two days back) and fills the day
    without them, so no fallback runs. Their flag is clear, so a new rest is
    recorded on `d + 2`, two days after the previous one.
  */
  lemma RestTwoDaysApart(staff: seq<Worker>, choice: DayChoice, next: DayChoice, d: int, i: nat, s1: DayState)
    requires IsOrder(choice.order, |staff|) && IsOrder(next.order, |staff|) && DistinctNames(staff) && i < |staff|
    requires staff[i].rest == RestState(Some(d), true) && |staff[i].emp.eligible| > 0
    requires s1 == DayStep(staff, choice, d + 1)
    requires |FillSlots(DayState(s1.staff, map[]), next.order, d + 2, Template(next.full)).day| >= |Template(next.full)|
    ensures staff[i].emp.name in s1.day && s1.day[staff[i].emp.name] == staff[i].emp.eligible[0]
    ensures s1.staff[i].rest == RestState(Some(d), false)
    ensures DayStep(s1.staff, next, d + 2).staff[i].rest == RestState(Some(d + 2), true)
  {
    assert Settles(staff[i], s1.staff[i], s1.day, d + 1);
    assert s1.staff[i].rest == RestState(Some(d), false);
    ExtendsKeepsNames(DayState(staff, map[]), s1, d + 1);
    RestWhenDayFull(s1.staff, next, d + 2, i);
  }

  /**
    Someone who did not rest yesterday and last rested two days ago is left
    out of a day the first pass fills, and so rests that day.
  */
  lemma RestWhenDayFull(staff: seq<Worker>, choice: DayChoice, today: int, i: nat)
    requires IsOrder(choice.order, |staff|) && DistinctNames(staff) && i < |staff|
    requires staff[i].rest == RestState(Some(today - 2), false)
    requires |FillSlots(DayState(staff, map[]), choice.order, today, Template(choice.full)).day| >= |Template(choice.full)|
    ensures DayStep(staff, choice, today).staff[i].rest == RestState(Some(today), true)
  {
    var s0 := DayState(staff, map[]);
    var c := Covered(staff, choice, today);
    assert c == FillSlots(s0, choice.order, today, Template(choice.full));
    SkippedByFirstPass(s0, choice.order, today, Template(choice.full), i);
    var r := DayStep(staff, choice, today);
    assert staff[i].emp.name !in r.day;
    assert Settles(staff[i], r.staff[i], r.day, today);
  }

  /** Whoever does not fit the first-pass rules gets no slot in it. */
  lemma SkippedByFirstPass(s0: DayState, order: seq<nat>, today: int, slots: seq<Code>, i: nat)
    requires InRange(order, |s0.staff|) && DistinctNames(s0.staff) && i < |s0.staff| && s0.day == map[]
    requires !FirstPassFit(s0.staff[i], today)
    ensures Name(s0, i) !in FillSlots(s0, order, today, slots).day
  {
  }

  /** The day between: the flag set yesterday is cleared and the recorded rest date kept. */
  lemma IdleDayAfterRest(staff: seq<Worker>, choice: DayChoice, today: int, i: nat)
    requires IsOrder(choice.order, |staff|) && DistinctNames(staff) && i < |staff|
    requires staff[i].emp.eligible == [] && staff[i].rest.restedYesterday
    ensures DayStep(staff, choice, today).staff[i].rest == staff[i].rest.(restedYesterday := false)
    ensures staff[i].emp.name !in DayStep(staff, choice, today).day
  {
    var r := DayStep(staff, choice, today);
    assert Settles(staff[i], r.staff[i], r.day, today);
  }
}
