/**
  One day of the roster generator: the first-fit pass over the day's
  template, the M/P under-coverage fallback, and the rest bookkeeping that
  forces back to work anyone who rested yesterday.

  Employees are identified by their position in the staff list as it was
  passed in; the shuffled order of a day is a permutation of those positions
  and is supplied by the caller, like the choice of template.
*/
module Generator {
  import opened Shifts
  import opened Employees

  datatype Option<T> = None | Some(value: T)

  /** What the generator remembers about an employee from one day to the next. */
  datatype RestState = RestState(lastRest: Option<int>, restedYesterday: bool)

  /** Rest state at the start of a run: never rested, did not rest yesterday. */
  const Fresh := RestState(None, false)

  datatype Worker = Worker(emp: Employee, rest: RestState)

  /** The shifts of one day, by employee name. */
  type DayMap = map<string, Code>

  datatype DayState = DayState(staff: seq<Worker>, day: DayMap)

  /** The two daily staffing templates. */
  const FullTemplate: seq<Code> := [M2, P2, S, P]
  const LightTemplate: seq<Code> := [M, P, P]

  /** The first pass skips anyone who rested fewer than this many days ago. */
  const MinRestGap := 6
  /** Days since the last rest of an employee who has not rested in this run. */
  const NeverRestedGap := 7

  function Template(full: bool): (t: seq<Code>)
    ensures |t| == if full then 4 else 3
  {
    if full then FullTemplate else LightTemplate
  }

  function DaysSinceRest(r: RestState, today: int): int {
    match r.lastRest
    case None => NeverRestedGap
    case Some(d) => today - d
  }

  // ---------------------------------------------------------------- staff and orders

  predicate DistinctNames(staff: seq<Worker>) {
    forall i, j :: 0 <= i < j < |staff| ==> staff[i].emp.name != staff[j].emp.name
  }

  predicate InRange(order: seq<nat>, n: nat) {
    forall k :: 0 <= k < |order| ==> order[k] < n
  }

  predicate NoRepeats(order: seq<nat>) {
    forall k, l :: 0 <= k < l < |order| ==> order[k] != order[l]
  }

  /** `order` lists each of the positions 0 .. n-1 exactly once. */
  predicate IsOrder(order: seq<nat>, n: nat) {
    && |order| == n
    && InRange(order, n)
    && NoRepeats(order)
    && forall i :: 0 <= i < n ==> i in order
  }

  function Name(s: DayState, i: nat): string
    requires i < |s.staff|
  {
    s.staff[i].emp.name
  }

  /** The entry a day adds to one employee's record: one shift if they work, none otherwise. */
  function Added(before: DayMap, after: DayMap, name: string, today: int): seq<Assignment> {
    if name !in before && name in after then [Assignment(today, after[name])] else []
  }

  /**
    `r` is `s` with more employees given a shift today: shifts already given
    stay, every new entry of the day names an employee for whom that code is
    eligible, and each employee's record gains exactly the entry the day map
    gained for them and changes in nothing else.
  */
  predicate Extends(s: DayState, r: DayState, today: int) {
    && |r.staff| == |s.staff|
    && (forall n :: n in s.day ==> n in r.day && r.day[n] == s.day[n])
    && (forall i :: 0 <= i < |s.staff| ==>
          r.staff[i].emp == s.staff[i].emp.(shifts := s.staff[i].emp.shifts + Added(s.day, r.day, s.staff[i].emp.name, today)))
    && (forall n :: n in r.day && n !in s.day ==>
          exists i :: 0 <= i < |s.staff| && s.staff[i].emp.name == n && r.day[n] in s.staff[i].emp.eligible)
  }

  predicate SameRest(s: DayState, r: DayState) {
    |r.staff| == |s.staff| && forall i :: 0 <= i < |s.staff| ==> r.staff[i].rest == s.staff[i].rest
  }

  lemma ExtendsRefl(s: DayState, today: int)
    ensures Extends(s, s, today)
  {
    forall i | 0 <= i < |s.staff|
      ensures s.staff[i].emp == s.staff[i].emp.(shifts := s.staff[i].emp.shifts + Added(s.day, s.day, s.staff[i].emp.name, today))
    {
      assert s.staff[i].emp.shifts + [] == s.staff[i].emp.shifts;
    }
  }

  lemma ExtendsTrans(s: DayState, r: DayState, t: DayState, today: int)
    requires Extends(s, r, today) && Extends(r, t, today)
    ensures Extends(s, t, today)
  {
    forall i | 0 <= i < |s.staff|
      ensures t.staff[i].emp == s.staff[i].emp.(shifts := s.staff[i].emp.shifts + Added(s.day, t.day, s.staff[i].emp.name, today))
    {
      AddedTwice(s.staff[i].emp, r.staff[i].emp, t.staff[i].emp, s.day, r.day, t.day, today);
    }
    forall n | n in t.day && n !in s.day
      ensures exists i :: 0 <= i < |s.staff| && s.staff[i].emp.name == n && t.day[n] in s.staff[i].emp.eligible
    {
      if n in r.day {
        var i :| 0 <= i < |s.staff| && s.staff[i].emp.name == n && r.day[n] in s.staff[i].emp.eligible;
      } else {
        var i :| 0 <= i < |r.staff| && r.staff[i].emp.name == n && t.day[n] in r.staff[i].emp.eligible;
        assert r.staff[i].emp.eligible == s.staff[i].emp.eligible;
      }
    }
  }

  /** One employee's record over two extensions of the same day. */
  lemma AddedTwice(e: Employee, e1: Employee, e2: Employee, d: DayMap, d1: DayMap, d2: DayMap, today: int)
    requires forall n :: n in d ==> n in d1 && d1[n] == d[n]
    requires forall n :: n in d1 ==> n in d2 && d2[n] == d1[n]
    requires e1 == e.(shifts := e.shifts + Added(d, d1, e.name, today))
    requires e2 == e1.(shifts := e1.shifts + Added(d1, d2, e1.name, today))
    ensures e2 == e.(shifts := e.shifts + Added(d, d2, e.name, today))
  {
    var a1, a2 := Added(d, d1, e.name, today), Added(d1, d2, e.name, today);
    assert a1 + a2 == Added(d, d2, e.name, today);
    assert e.shifts + a1 + a2 == e.shifts + (a1 + a2);
  }

  /** Names, eligibility, leave and recovery are the same before and after an extension. */
  lemma ExtendsKeepsStaff(s: DayState, r: DayState, today: int, i: nat)
    requires Extends(s, r, today) && i < |s.staff|
    ensures r.staff[i].emp.name == s.staff[i].emp.name
    ensures r.staff[i].emp.eligible == s.staff[i].emp.eligible
    ensures Unavailable(r.staff[i].emp, today) == Unavailable(s.staff[i].emp, today)
  {
    assert r.staff[i].emp.leave == s.staff[i].emp.leave;
    assert r.staff[i].emp.recovery == s.staff[i].emp.recovery;
  }

  lemma ExtendsKeepsNames(s: DayState, r: DayState, today: int)
    requires Extends(s, r, today) && DistinctNames(s.staff)
    ensures DistinctNames(r.staff)
  {
    forall i | 0 <= i < |s.staff| ensures r.staff[i].emp.name == s.staff[i].emp.name {
      ExtendsKeepsStaff(s, r, today, i);
    }
  }

  // ---------------------------------------------------------------- giving a shift

  /** Records `code` for employee `i` today, in the day map and in the employee's record. */
  function Give(s: DayState, i: nat, today: int, code: Code): (r: DayState)
    requires i < |s.staff|
    requires DistinctNames(s.staff)
    requires Name(s, i) !in s.day && code in s.staff[i].emp.eligible
    ensures Extends(s, r, today) && SameRest(s, r)
    ensures r.day == s.day[Name(s, i) := code]
    ensures |r.day| == |s.day| + 1
  {
    var w := s.staff[i];
    var r := DayState(s.staff[i := w.(emp := AddShift(w.emp, today, code))], s.day[w.emp.name := code]);
    assert r.day.Keys == s.day.Keys + {w.emp.name};
    forall j | 0 <= j < |s.staff|
      ensures r.staff[j].emp == s.staff[j].emp.(shifts := s.staff[j].emp.shifts + Added(s.day, r.day, s.staff[j].emp.name, today))
    {
      if j != i {
        assert s.staff[j].emp.name != w.emp.name;
        assert s.staff[j].emp.shifts + [] == s.staff[j].emp.shifts;
      }
    }
    r
  }

  /** Every entry `r` has and `s` had not is one of `codes`. */
  predicate AddsOnly(s: DayState, r: DayState, codes: set<Code>) {
    forall n :: n in r.day && n !in s.day ==> r.day[n] in codes
  }

  /** Nobody `r` adds to the day of `s` rested yesterday. */
  predicate AddsNoneRested(s: DayState, r: DayState) {
    forall i :: 0 <= i < |s.staff| && Name(s, i) in r.day && Name(s, i) !in s.day ==> !s.staff[i].rest.restedYesterday
  }

  /** Everyone `r` adds to the day of `s` passes every first-pass rule. */
  predicate AddsFirstPassFits(s: DayState, r: DayState, today: int) {
    forall i :: 0 <= i < |s.staff| && Name(s, i) in r.day && Name(s, i) !in s.day ==> FirstPassFit(s.staff[i], today)
  }

  /** Nobody from position `k` of the order may take `code` by the fallback rules on `day`. */
  predicate NoneFitsFallback(staff: seq<Worker>, order: seq<nat>, k: nat, day: DayMap, code: Code)
    requires InRange(order, |staff|)
  {
    forall j :: k <= j < |order| ==> !FitsFallback(staff[order[j]], day, code)
  }

  // ---------------------------------------------------------------- the first pass

  /** Not resting by rule today: rested six or more days ago, not yesterday, not on leave or recovery. */
  predicate FirstPassFit(w: Worker, today: int) {
    && DaysSinceRest(w.rest, today) >= MinRestGap
    && !w.rest.restedYesterday
    && !Unavailable(w.emp, today)
  }

  /** May take slot `code` in the first pass. */
  predicate FitsSlot(w: Worker, day: DayMap, today: int, code: Code) {
    FirstPassFit(w, today) && w.emp.name !in day && code in w.emp.eligible
  }

  /** First-fit: the first position of `order`, from `k` on, whose employee may take the slot. */
  function FindFirst(staff: seq<Worker>, order: seq<nat>, day: DayMap, today: int, code: Code, k: nat): (r: Option<nat>)
    requires InRange(order, |staff|) && k <= |order|
    ensures r.Some? ==> k <= r.value < |order| && FitsSlot(staff[order[r.value]], day, today, code)
    ensures forall j :: k <= j < |order| && (r.None? || j < r.value) ==> !FitsSlot(staff[order[j]], day, today, code)
    decreases |order| - k
  {
    if k == |order| then None
    else if FitsSlot(staff[order[k]], day, today, code) then Some(k)
    else FindFirst(staff, order, day, today, code, k + 1)
  }

  /**
    Fills the template's slots in turn, each with the first fitting employee
    of the day's order; a slot nobody fits stays empty. Everyone it adds fits
    the first-pass rules and got one of the template's codes.
  */
  function FillSlots(s: DayState, order: seq<nat>, today: int, slots: seq<Code>): (r: DayState)
    requires InRange(order, |s.staff|) && DistinctNames(s.staff)
    ensures Extends(s, r, today) && SameRest(s, r)
    ensures |r.day| <= |s.day| + |slots|
    ensures forall i :: 0 <= i < |s.staff| && Name(s, i) in r.day && Name(s, i) !in s.day ==>
              FirstPassFit(s.staff[i], today) && r.day[Name(s, i)] in slots
    ensures |r.day| < |s.day| + |slots| ==>
              exists c :: c in slots && forall j :: 0 <= j < |order| ==> !FitsSlot(s.staff[order[j]], r.day, today, c)
    ensures forall c :: NewCount(s, r, c, |s.staff|) <= multiset(slots)[c]
    decreases |slots|
  {
    if slots == [] then
      ExtendsRefl(s, today);
      NothingNew(s);
      s
    else
      var s1 := FillOne(s, order, today, slots[0]);
      ExtendsKeepsNames(s, s1, today);
      var r := FillSlots(s1, order, today, slots[1..]);
      FillSlotsStep(s, s1, r, today, slots[0], slots);
      FillSlotsShort(s, s1, r, order, today, slots);
      FillSlotsCount(s, s1, r, today, slots);
      r
  }

  /** How many of the employees at positions below `n` have no shift in `s` and got `code` in `r`. */
  function NewCount(s: DayState, r: DayState, code: Code, n: nat): nat {
    if n == 0 then 0 else NewCount(s, r, code, n - 1) + (if NewWith(s, r, n - 1, code) then 1 else 0)
  }

  lemma {:induction false} NewCountZero(s: DayState, r: DayState, code: Code, n: nat)
    requires forall i: nat :: i < n ==> !NewWith(s, r, i, code)
    ensures NewCount(s, r, code, n) == 0
  {
    if n > 0 {
      NewCountZero(s, r, code, n - 1);
    }
  }

  /** When at most the employee at position `g` got `code`, at most one did. */
  lemma {:induction false} NewCountOne(s: DayState, r: DayState, code: Code, n: nat, g: nat)
    requires forall i: nat :: i < n && NewWith(s, r, i, code) ==> i == g
    ensures NewCount(s, r, code, n) <= 1
  {
    if n > 0 {
      if n - 1 == g {
        NewCountZero(s, r, code, n - 1);
      } else {
        NewCountOne(s, r, code, n - 1, g);
      }
    }
  }

  /** Over two extensions, the new holders of a code are those of the first plus those of the second. */
  lemma {:induction false} NewCountSplit(s: DayState, s1: DayState, r: DayState, today: int, code: Code, n: nat)
    requires Extends(s, s1, today) && Extends(s1, r, today) && n <= |s.staff|
    ensures NewCount(s, r, code, n) == NewCount(s, s1, code, n) + NewCount(s1, r, code, n)
  {
    if n > 0 {
      NewCountSplit(s, s1, r, today, code, n - 1);
      ExtendsKeepsStaff(s, s1, today, n - 1);
    }
  }

  /** An unchanged day gives nobody a new code. */
  lemma NothingNew(s: DayState)
    ensures forall c :: NewCount(s, s, c, |s.staff|) == 0
  {
    forall c ensures NewCount(s, s, c, |s.staff|) == 0 {
      NewCountZero(s, s, c, |s.staff|);
    }
  }

  /** A single gift of `code` gives that code to one employee and no other code to anyone. */
  lemma GiftCount(s: DayState, r: DayState, g: nat, code: Code)
    requires DistinctNames(s.staff) && g < |s.staff|
    requires r.day == s.day[Name(s, g) := code]
    ensures forall c :: NewCount(s, r, c, |s.staff|) <= if c == code then 1 else 0
  {
    forall c ensures NewCount(s, r, c, |s.staff|) <= if c == code then 1 else 0 {
      if c == code {
        forall i: nat | i < |s.staff| && NewWith(s, r, i, c) ensures i == g {
          assert Name(s, i) == Name(s, g);
        }
        NewCountOne(s, r, c, |s.staff|, g);
      } else {
        NewCountZero(s, r, c, |s.staff|);
      }
    }
  }

  /** Slot by slot, no code goes to more employees than the template lists it. */
  lemma FillSlotsCount(s: DayState, s1: DayState, r: DayState, today: int, slots: seq<Code>)
    requires slots != []
    requires Extends(s, s1, today) && Extends(s1, r, today)
    requires forall c :: NewCount(s, s1, c, |s.staff|) <= if c == slots[0] then 1 else 0
    requires forall c :: NewCount(s1, r, c, |s1.staff|) <= multiset(slots[1..])[c]
    ensures forall c :: NewCount(s, r, c, |s.staff|) <= multiset(slots)[c]
  {
    assert slots == [slots[0]] + slots[1..];
    assert |s1.staff| == |s.staff|;
    forall c ensures NewCount(s, r, c, |s.staff|) <= multiset(slots)[c] {
      assert multiset(slots)[c] == multiset([slots[0]])[c] + multiset(slots[1..])[c];
      NewCountSplit(s, s1, r, today, c, |s.staff|);
    }
  }

  /** Position `j` holds the first employee of the order who may take slot `code`. */
  predicate FirstFit(staff: seq<Worker>, order: seq<nat>, day: DayMap, today: int, code: Code, j: int) {
    && 0 <= j < |order| && order[j] < |staff|
    && FitsSlot(staff[order[j]], day, today, code)
    && forall l :: 0 <= l < j && order[l] < |staff| ==> !FitsSlot(staff[order[l]], day, today, code)
  }

  /** One slot: the first fitting employee of the order takes `code`; if nobody fits, nothing changes. */
  function FillOne(s: DayState, order: seq<nat>, today: int, code: Code): (r: DayState)
    requires InRange(order, |s.staff|) && DistinctNames(s.staff)
    ensures Extends(s, r, today) && SameRest(s, r)
    ensures AddsOnly(s, r, {code})
    ensures AddsFirstPassFits(s, r, today)
    ensures |r.day| <= |s.day| + 1
    ensures forall j :: FirstFit(s.staff, order, s.day, today, code, j) ==> r.day == s.day[Name(s, order[j]) := code]
    ensures (forall j :: 0 <= j < |order| ==> !FitsSlot(s.staff[order[j]], s.day, today, code)) ==> r == s
    ensures |r.day| <= |s.day| ==> forall j :: 0 <= j < |order| ==> !FitsSlot(s.staff[order[j]], s.day, today, code)
    ensures forall c :: NewCount(s, r, c, |s.staff|) <= if c == code then 1 else 0
  {
    match FindFirst(s.staff, order, s.day, today, code, 0)
    case None =>
      ExtendsRefl(s, today);
      NothingNew(s);
      s
    case Some(k) =>
      FirstFitUnique(s.staff, order, s.day, today, code, k);
      var r := Give(s, order[k], today, code);
      GiftCount(s, r, order[k], code);
      r
  }

  /** There is only one first fitting position. */
  lemma FirstFitUnique(staff: seq<Worker>, order: seq<nat>, day: DayMap, today: int, code: Code, k: int)
    requires FirstFit(staff, order, day, today, code, k)
    ensures forall j :: FirstFit(staff, order, day, today, code, j) ==> j == k
  {
  }

  /**
    Whether the first pass lets an employee take a slot depends on the day
    only through whether they already have a shift, so a slot nobody could
    take stays so as the day fills up, and extensions do not change it.
  */
  lemma NoFitLater(s: DayState, r: DayState, order: seq<nat>, d: DayMap, today: int, code: Code)
    requires InRange(order, |s.staff|)
    requires Extends(s, r, today) && SameRest(s, r)
    requires forall j :: 0 <= j < |order| ==> !FitsSlot(r.staff[order[j]], d, today, code)
    ensures forall j :: 0 <= j < |order| ==> !FitsSlot(s.staff[order[j]], d, today, code)
  {
    forall j | 0 <= j < |order| ensures !FitsSlot(s.staff[order[j]], d, today, code) {
      ExtendsKeepsStaff(s, r, today, order[j]);
    }
  }

  lemma NoFitGrows(staff: seq<Worker>, order: seq<nat>, d: DayMap, d': DayMap, today: int, code: Code)
    requires InRange(order, |staff|)
    requires forall n :: n in d ==> n in d'
    requires forall j :: 0 <= j < |order| ==> !FitsSlot(staff[order[j]], d, today, code)
    ensures forall j :: 0 <= j < |order| ==> !FitsSlot(staff[order[j]], d', today, code)
  {
  }

  /** When the slots end up short, one of them is one nobody could take. */
  lemma FillSlotsShort(s: DayState, s1: DayState, r: DayState, order: seq<nat>, today: int, slots: seq<Code>)
    requires slots != [] && InRange(order, |s.staff|)
    requires Extends(s, s1, today) && SameRest(s, s1) && Extends(s1, r, today) && SameRest(s1, r)
    requires |s1.day| <= |s.day| + 1
    requires |s1.day| <= |s.day| ==> forall j :: 0 <= j < |order| ==> !FitsSlot(s.staff[order[j]], s.day, today, slots[0])
    requires |r.day| < |s1.day| + |slots[1..]| ==>
               exists c :: c in slots[1..] && forall j :: 0 <= j < |order| ==> !FitsSlot(s1.staff[order[j]], r.day, today, c)
    ensures |r.day| < |s.day| + |slots| ==>
              exists c :: c in slots && forall j :: 0 <= j < |order| ==> !FitsSlot(s.staff[order[j]], r.day, today, c)
  {
    if |r.day| >= |s.day| + |slots| {
    } else if |r.day| < |s1.day| + |slots[1..]| {
      var c :| c in slots[1..] && forall j :: 0 <= j < |order| ==> !FitsSlot(s1.staff[order[j]], r.day, today, c);
      NoFitLater(s, s1, order, r.day, today, c);
      assert c in slots;
    } else {
      ExtendsTrans(s, s1, r, today);
      NoFitGrows(s.staff, order, s.day, r.day, today, slots[0]);
      assert slots[0] in slots;
    }
  }

  lemma FillSlotsStep(s: DayState, s1: DayState, r: DayState, today: int, code: Code, slots: seq<Code>)
    requires slots != [] && code == slots[0]
    requires DistinctNames(s.staff)
    requires Extends(s, s1, today) && SameRest(s, s1) && Extends(s1, r, today) && SameRest(s1, r)
    requires AddsOnly(s, s1, {code})
    requires AddsFirstPassFits(s, s1, today)
    requires |s1.day| <= |s.day| + 1
    requires |r.day| <= |s1.day| + |slots[1..]|
    requires forall i :: 0 <= i < |s1.staff| && Name(s1, i) in r.day && Name(s1, i) !in s1.day ==>
               FirstPassFit(s1.staff[i], today) && r.day[Name(s1, i)] in slots[1..]
    ensures Extends(s, r, today) && SameRest(s, r)
    ensures |r.day| <= |s.day| + |slots|
    ensures forall i :: 0 <= i < |s.staff| && Name(s, i) in r.day && Name(s, i) !in s.day ==>
              FirstPassFit(s.staff[i], today) && r.day[Name(s, i)] in slots
  {
    ExtendsTrans(s, s1, r, today);
    forall i | 0 <= i < |s.staff| && Name(s, i) in r.day && Name(s, i) !in s.day
      ensures FirstPassFit(s.staff[i], today) && r.day[Name(s, i)] in slots
    {
      ExtendsKeepsStaff(s, s1, today, i);
      if Name(s, i) !in s1.day {
        assert Name(s1, i) == Name(s, i);
        assert r.day[Name(s, i)] in slots[1..];
      }
    }
  }

  // ---------------------------------------------------------------- the fallback

  /** May be added by the fallback with `code`: unassigned, eligible, did not rest yesterday. */
  predicate FitsFallback(w: Worker, day: DayMap, code: Code) {
    w.emp.name !in day && code in w.emp.eligible && !w.rest.restedYesterday
  }

  /** Employee `i` has no shift in `s` and got `code` in `r`. */
  predicate NewWith(s: DayState, r: DayState, i: nat, code: Code) {
    && i < |s.staff|
    && s.staff[i].emp.name !in s.day
    && s.staff[i].emp.name in r.day
    && r.day[s.staff[i].emp.name] == code
  }

  /**
    From position `k` of the order on, whoever got `code` is preceded in the
    order only by employees who could not take `code` by the fallback rules
    or who were given a shift as well: the fallback takes fitting employees
    in the order of the day, skipping none.
  */
  predicate TakenInOrder(s: DayState, r: DayState, order: seq<nat>, code: Code, k: nat) {
    forall j :: k <= j < |order| && NewWith(s, r, order[j], code) ==>
      forall l :: k <= l < j && order[l] < |s.staff| && FitsFallback(s.staff[order[l]], s.day, code) ==>
        s.staff[order[l]].emp.name in r.day
  }

  /**
    Scans the day's order from position `k`, giving `code` to every employee
    that fits the fallback, and stops right after the day reaches `target`
    entries. Leave, recovery and the rest gap are not looked at.
  */
  function FallbackScan(s: DayState, order: seq<nat>, today: int, code: Code, target: nat, k: nat): (r: DayState)
    requires InRange(order, |s.staff|) && NoRepeats(order) && DistinctNames(s.staff) && k <= |order|
    ensures Extends(s, r, today) && SameRest(s, r)
    ensures AddsOnly(s, r, {code})
    ensures AddsNoneRested(s, r)
    ensures |s.day| < target ==> |r.day| <= target
    ensures |r.day| < target ==> NoneFitsFallback(s.staff, order, k, r.day, code)
    ensures TakenInOrder(s, r, order, code, k)
    decreases |order| - k
  {
    if k == |order| then
      ExtendsRefl(s, today);
      s
    else if FitsFallback(s.staff[order[k]], s.day, code) then
      var s1 := Give(s, order[k], today, code);
      ExtendsKeepsNames(s, s1, today);
      if |s1.day| >= target then
        GiftOnlyInOrder(s, s1, order, code, k);
        s1
      else
        var r := FallbackScan(s1, order, today, code, target, k + 1);
        FallbackStep(s, s1, r, order, today, code, target, k);
        GiftThenScanInOrder(s, s1, r, order, today, code, k);
        r
    else
      var r := FallbackScan(s, order, today, code, target, k + 1);
      assert !FitsFallback(s.staff[order[k]], r.day, code) by {
        ExtendsKeepsStaff(s, r, today, order[k]);
      }
      SkipInOrder(s, r, order, code, k);
      NoneFitsFrom(s.staff, order, k, r.day, code);
      r
  }

  /** Position `k` does not fit, nor does anyone after it, so nobody from `k` does. */
  lemma NoneFitsFrom(staff: seq<Worker>, order: seq<nat>, k: nat, day: DayMap, code: Code)
    requires InRange(order, |staff|) && k < |order|
    requires !FitsFallback(staff[order[k]], day, code)
    ensures NoneFitsFallback(staff, order, k + 1, day, code) ==> NoneFitsFallback(staff, order, k, day, code)
  {
  }

  /** Two positions of the order whose employees share a name are the same position. */
  lemma SamePosition(s: DayState, order: seq<nat>, j: nat, k: nat)
    requires InRange(order, |s.staff|) && NoRepeats(order) && DistinctNames(s.staff)
    requires j < |order| && k < |order| && Name(s, order[j]) == Name(s, order[k])
    ensures j == k
  {
  }

  /** A scan that gives `code` to position `k` and stops has taken the employees in order. */
  lemma GiftOnlyInOrder(s: DayState, s1: DayState, order: seq<nat>, code: Code, k: nat)
    requires InRange(order, |s.staff|) && NoRepeats(order) && DistinctNames(s.staff) && k < |order|
    requires s1.day == s.day[Name(s, order[k]) := code]
    ensures TakenInOrder(s, s1, order, code, k)
  {
    forall j | k <= j < |order| && NewWith(s, s1, order[j], code) ensures j == k {
      SamePosition(s, order, j, k);
    }
  }

  /** Position `k` skipped because it does not fit keeps the scan from `k + 1` in order. */
  lemma SkipInOrder(s: DayState, r: DayState, order: seq<nat>, code: Code, k: nat)
    requires InRange(order, |s.staff|) && k < |order|
    requires !FitsFallback(s.staff[order[k]], s.day, code)
    requires TakenInOrder(s, r, order, code, k + 1)
    ensures TakenInOrder(s, r, order, code, k)
  {
  }

  /** A gift to position `k` followed by an in-order scan from `k + 1` is in order from `k`. */
  lemma GiftThenScanInOrder(s: DayState, s1: DayState, r: DayState, order: seq<nat>, today: int, code: Code, k: nat)
    requires InRange(order, |s.staff|) && NoRepeats(order) && DistinctNames(s.staff) && k < |order|
    requires Extends(s, s1, today) && SameRest(s, s1) && s1.day == s.day[Name(s, order[k]) := code]
    requires Extends(s1, r, today)
    requires TakenInOrder(s1, r, order, code, k + 1)
    ensures TakenInOrder(s, r, order, code, k)
  {
    forall j, l | k <= l < j < |order| && NewWith(s, r, order[j], code) && FitsFallback(s.staff[order[l]], s.day, code)
      ensures Name(s, order[l]) in r.day
    {
      ExtendsKeepsStaff(s, s1, today, order[j]);
      ExtendsKeepsStaff(s, s1, today, order[l]);
      if l > k {
        if Name(s, order[j]) == Name(s, order[k]) {
          SamePosition(s, order, j, k);
        }
        assert NewWith(s1, r, order[j], code);
        if Name(s, order[l]) == Name(s, order[k]) {
          SamePosition(s, order, l, k);
        }
        assert FitsFallback(s1.staff[order[l]], s1.day, code);
      }
    }
  }

  lemma FallbackStep(s: DayState, s1: DayState, r: DayState, order: seq<nat>, today: int, code: Code, target: nat, k: nat)
    requires InRange(order, |s.staff|) && DistinctNames(s.staff) && k < |order|
    requires FitsFallback(s.staff[order[k]], s.day, code)
    requires Extends(s, s1, today) && SameRest(s, s1) && s1.day == s.day[Name(s, order[k]) := code]
    requires Extends(s1, r, today) && SameRest(s1, r)
    requires AddsOnly(s1, r, {code})
    requires AddsNoneRested(s1, r)
    requires |s1.day| < target ==> |r.day| <= target
    requires |r.day| < target ==> NoneFitsFallback(s1.staff, order, k + 1, r.day, code)
    requires |s1.day| < target
    ensures Extends(s, r, today) && SameRest(s, r)
    ensures AddsOnly(s, r, {code})
    ensures AddsNoneRested(s, r)
    ensures |s.day| < target ==> |r.day| <= target
    ensures |r.day| < target ==> NoneFitsFallback(s.staff, order, k, r.day, code)
  {
    ExtendsTrans(s, s1, r, today);
    if |r.day| < target {
      FallbackStepNoFit(s, s1, r, order, today, code, k);
    }
    FallbackStepRested(s, s1, r, order[k], today, code);
  }

  /** Everyone the gift or the rest of the scan added did not rest yesterday. */
  lemma FallbackStepRested(s: DayState, s1: DayState, r: DayState, g: nat, today: int, code: Code)
    requires DistinctNames(s.staff) && g < |s.staff| && !s.staff[g].rest.restedYesterday
    requires Extends(s, s1, today) && SameRest(s, s1) && s1.day == s.day[Name(s, g) := code]
    requires AddsNoneRested(s1, r)
    ensures AddsNoneRested(s, r)
  {
    forall i | 0 <= i < |s.staff| && Name(s, i) in r.day && Name(s, i) !in s.day
      ensures !s.staff[i].rest.restedYesterday
    {
      ExtendsKeepsStaff(s, s1, today, i);
      if i != g {
        assert Name(s, i) != Name(s, g);
        assert Name(s1, i) !in s1.day;
      }
    }
  }

  /** Whoever fitted the fallback before the gift and after it no longer fits once the scan is over. */
  lemma FallbackStepNoFit(s: DayState, s1: DayState, r: DayState, order: seq<nat>, today: int, code: Code, k: nat)
    requires InRange(order, |s.staff|) && k < |order|
    requires Extends(s, s1, today) && SameRest(s, s1) && Name(s, order[k]) in s1.day
    requires Extends(s1, r, today)
    requires NoneFitsFallback(s1.staff, order, k + 1, r.day, code)
    ensures NoneFitsFallback(s.staff, order, k, r.day, code)
  {
    forall j | k <= j < |order| ensures !FitsFallback(s.staff[order[j]], r.day, code) {
      var i := order[j];
      ExtendsKeepsStaff(s, s1, today, i);
      if j == k {
        assert Name(s, i) in r.day;
      } else {
        assert s1.staff[i].rest == s.staff[i].rest;
        assert !FitsFallback(s1.staff[i], r.day, code);
      }
    }
  }

  /**
    The under-coverage fallback: only when the day has fewer entries than the
    template has slots, M and then P are offered in the day's order until the
    day reaches that size. It never takes the day past the target, and when
    it stops short nobody is left who is free, did not rest yesterday and may
    work M or P.
  */
  function Fallback(s: DayState, order: seq<nat>, today: int, target: nat): (r: DayState)
    requires IsOrder(order, |s.staff|) && DistinctNames(s.staff)
    ensures Extends(s, r, today) && SameRest(s, r)
    ensures |s.day| >= target ==> r == s
    ensures |s.day| < target ==> |r.day| <= target
    ensures AddsOnly(s, r, {M, P})
    ensures AddsNoneRested(s, r)
    ensures |r.day| < target ==> forall i :: 0 <= i < |s.staff| && Name(s, i) !in r.day && !s.staff[i].rest.restedYesterday ==>
              M !in s.staff[i].emp.eligible && P !in s.staff[i].emp.eligible
    ensures TakenInOrder(s, r, order, M, 0) && TakenInOrder(s, r, order, P, 0)
    ensures forall i :: NewWith(s, r, i, P) ==> MTakenFirst(s, r)
  {
    if |s.day| >= target then
      ExtendsRefl(s, today);
      s
    else
      var s1 := FallbackScan(s, order, today, M, target, 0);
      ExtendsKeepsNames(s, s1, today);
      if |s1.day| >= target then
        assert forall i :: !NewWith(s, s1, i, P);
        s1
      else
        var r := FallbackScan(s1, order, today, P, target, 0);
        FallbackBoth(s, s1, r, order, today, target);
        FallbackBothM(s, s1, r, order, today);
        FallbackBothP(s, s1, r, order, today);
        FallbackMFirst(s, s1, r, order, today);
        r
  }

  /** Everyone who could take M by the fallback rules in `s` has M in `r`. */
  predicate MTakenFirst(s: DayState, r: DayState) {
    forall i :: 0 <= i < |s.staff| && FitsFallback(s.staff[i], s.day, M) ==>
      s.staff[i].emp.name in r.day && r.day[s.staff[i].emp.name] == M
  }

  /** The M scan was in order, and the P scan added no M. */
  lemma FallbackBothM(s: DayState, s1: DayState, r: DayState, order: seq<nat>, today: int)
    requires Extends(s, s1, today) && Extends(s1, r, today)
    requires AddsOnly(s1, r, {P})
    requires TakenInOrder(s, s1, order, M, 0)
    ensures TakenInOrder(s, r, order, M, 0)
  {
    forall j | 0 <= j < |order| && NewWith(s, r, order[j], M) ensures NewWith(s, s1, order[j], M) {
    }
  }

  /** The P scan over the day after the M scan is in order against the day before it. */
  lemma FallbackBothP(s: DayState, s1: DayState, r: DayState, order: seq<nat>, today: int)
    requires InRange(order, |s.staff|)
    requires Extends(s, s1, today) && SameRest(s, s1) && Extends(s1, r, today)
    requires AddsOnly(s, s1, {M})
    requires TakenInOrder(s1, r, order, P, 0)
    ensures TakenInOrder(s, r, order, P, 0)
  {
    forall j, l | 0 <= l < j < |order| && NewWith(s, r, order[j], P) && FitsFallback(s.staff[order[l]], s.day, P)
      ensures Name(s, order[l]) in r.day
    {
      ExtendsKeepsStaff(s, s1, today, order[j]);
      ExtendsKeepsStaff(s, s1, today, order[l]);
      assert NewWith(s1, r, order[j], P);
      if Name(s, order[l]) !in s1.day {
        assert FitsFallback(s1.staff[order[l]], s1.day, P);
      }
    }
  }

  /** An M scan that stopped short gave M to everyone who could take it. */
  lemma FallbackMFirst(s: DayState, s1: DayState, r: DayState, order: seq<nat>, today: int)
    requires IsOrder(order, |s.staff|)
    requires Extends(s, s1, today) && Extends(s1, r, today)
    requires AddsOnly(s, s1, {M})
    requires NoneFitsFallback(s.staff, order, 0, s1.day, M)
    ensures MTakenFirst(s, r)
  {
    forall i | 0 <= i < |s.staff| && FitsFallback(s.staff[i], s.day, M) ensures Name(s, i) in r.day && r.day[Name(s, i)] == M {
      assert i in order;
      var j :| 0 <= j < |order| && order[j] == i;
      assert !FitsFallback(s.staff[order[j]], s1.day, M);
    }
  }

  lemma FallbackBoth(s: DayState, s1: DayState, r: DayState, order: seq<nat>, today: int, target: nat)
    requires IsOrder(order, |s.staff|) && DistinctNames(s.staff)
    requires Extends(s, s1, today) && SameRest(s, s1) && Extends(s1, r, today) && SameRest(s1, r)
    requires AddsOnly(s, s1, {M})
    requires AddsOnly(s1, r, {P})
    requires AddsNoneRested(s, s1)
    requires AddsNoneRested(s1, r)
    requires |s1.day| < target
    requires NoneFitsFallback(s.staff, order, 0, s1.day, M)
    requires |r.day| < target ==> NoneFitsFallback(s1.staff, order, 0, r.day, P)
    ensures Extends(s, r, today) && SameRest(s, r)
    ensures AddsOnly(s, r, {M, P})
    ensures AddsNoneRested(s, r)
    ensures |r.day| < target ==> forall i :: 0 <= i < |s.staff| && Name(s, i) !in r.day && !s.staff[i].rest.restedYesterday ==>
              M !in s.staff[i].emp.eligible && P !in s.staff[i].emp.eligible
  {
    ExtendsTrans(s, s1, r, today);
    FallbackBothRested(s, s1, r, today);
    if |r.day| < target {
      FallbackBothNoFit(s, s1, r, order, today);
    }
  }

  /** Nobody either scan added rested yesterday. */
  lemma FallbackBothRested(s: DayState, s1: DayState, r: DayState, today: int)
    requires Extends(s, s1, today) && SameRest(s, s1)
    requires AddsNoneRested(s, s1)
    requires AddsNoneRested(s1, r)
    ensures AddsNoneRested(s, r)
  {
    forall i | 0 <= i < |s.staff| && Name(s, i) in r.day && Name(s, i) !in s.day
      ensures !s.staff[i].rest.restedYesterday
    {
      ExtendsKeepsStaff(s, s1, today, i);
    }
  }

  /** When both scans stop short, whoever is left free and did not rest yesterday may work neither M nor P. */
  lemma FallbackBothNoFit(s: DayState, s1: DayState, r: DayState, order: seq<nat>, today: int)
    requires IsOrder(order, |s.staff|)
    requires Extends(s, s1, today) && SameRest(s, s1) && Extends(s1, r, today)
    requires NoneFitsFallback(s.staff, order, 0, s1.day, M)
    requires NoneFitsFallback(s1.staff, order, 0, r.day, P)
    ensures forall i :: 0 <= i < |s.staff| && Name(s, i) !in r.day && !s.staff[i].rest.restedYesterday ==>
              M !in s.staff[i].emp.eligible && P !in s.staff[i].emp.eligible
  {
    forall i | 0 <= i < |s.staff| && Name(s, i) !in r.day && !s.staff[i].rest.restedYesterday
      ensures M !in s.staff[i].emp.eligible && P !in s.staff[i].emp.eligible
    {
      ExtendsKeepsStaff(s, s1, today, i);
      assert i in order;
      var j :| 0 <= j < |order| && order[j] == i;
      assert !FitsFallback(s.staff[i], s1.day, M);
      assert !FitsFallback(s1.staff[i], r.day, P);
    }
  }

  // ---------------------------------------------------------------- rest bookkeeping

  /**
    What the bookkeeping does for employee `i`, from `s` to `r`: someone
    already working today keeps their shift and the flag is cleared; someone
    free who rested yesterday is put on their first eligible code, if any,
    and the flag is cleared; anyone else rests today.
  */
  predicate Settled(s: DayState, r: DayState, i: nat, today: int)
    requires i < |s.staff| && i < |r.staff|
  {
    var w, w', n := s.staff[i], r.staff[i], Name(s, i);
    && (n in s.day ==> w'.rest == w.rest.(restedYesterday := false))
    && (n !in s.day && w.rest.restedYesterday ==>
          && w'.rest == w.rest.(restedYesterday := false)
          && (if |w.emp.eligible| > 0 then n in r.day && r.day[n] == w.emp.eligible[0] else n !in r.day))
    && (n !in s.day && !w.rest.restedYesterday ==> w'.rest == RestState(Some(today), true) && n !in r.day)
  }

  /** The bookkeeping for one employee. */
  function SettleOne(s: DayState, i: nat, today: int): (r: DayState)
    requires i < |s.staff| && DistinctNames(s.staff)
    ensures Extends(s, r, today) && Settled(s, r, i, today)
    ensures forall j :: 0 <= j < |s.staff| && j != i ==> r.staff[j] == s.staff[j] && (Name(s, j) in r.day <==> Name(s, j) in s.day)
  {
    var w := s.staff[i];
    if w.emp.name in s.day then
      SetRest(s, i, w.rest.(restedYesterday := false), today)
    else if w.rest.restedYesterday then
      ForceBack(s, i, today)
    else
      SetRest(s, i, RestState(Some(today), true), today)
  }

  /** Someone free who rested yesterday: on their first eligible code, if any, with the flag cleared. */
  function ForceBack(s: DayState, i: nat, today: int): (r: DayState)
    requires i < |s.staff| && DistinctNames(s.staff) && Name(s, i) !in s.day
    ensures Extends(s, r, today)
    ensures r.staff[i].rest == s.staff[i].rest.(restedYesterday := false)
    ensures var e := s.staff[i].emp;
            if |e.eligible| > 0 then Name(s, i) in r.day && r.day[Name(s, i)] == e.eligible[0] else Name(s, i) !in r.day
    ensures forall j :: 0 <= j < |s.staff| && j != i ==> r.staff[j] == s.staff[j] && (Name(s, j) in r.day <==> Name(s, j) in s.day)
  {
    var w := s.staff[i];
    ExtendsRefl(s, today);
    var s1 := if |w.emp.eligible| > 0 then Give(s, i, today, w.emp.eligible[0]) else s;
    var r := SetRest(s1, i, w.rest.(restedYesterday := false), today);
    ExtendsTrans(s, s1, r, today);
    forall j | 0 <= j < |s.staff| && j != i ensures Name(s, j) in r.day <==> Name(s, j) in s.day {
      assert Name(s, j) != Name(s, i);
    }
    r
  }

  /** Replaces the rest state of employee `i` and nothing else. */
  function SetRest(s: DayState, i: nat, rest: RestState, today: int): (r: DayState)
    requires i < |s.staff|
    ensures Extends(s, r, today) && r.day == s.day
    ensures |r.staff| == |s.staff| && r.staff[i] == s.staff[i].(rest := rest)
    ensures forall j :: 0 <= j < |s.staff| && j != i ==> r.staff[j] == s.staff[j]
  {
    var r := DayState(s.staff[i := s.staff[i].(rest := rest)], s.day);
    ExtendsSameDay(s, r, today);
    r
  }

  /** Changing only rest states is an extension that adds nothing. */
  lemma ExtendsSameDay(s: DayState, r: DayState, today: int)
    requires r.day == s.day && |r.staff| == |s.staff|
    requires forall i :: 0 <= i < |s.staff| ==> r.staff[i].emp == s.staff[i].emp
    ensures Extends(s, r, today)
  {
    forall i | 0 <= i < |s.staff|
      ensures r.staff[i].emp == s.staff[i].emp.(shifts := s.staff[i].emp.shifts + Added(s.day, r.day, s.staff[i].emp.name, today))
    {
      assert s.staff[i].emp.shifts + [] == s.staff[i].emp.shifts;
    }
  }

  /**
    The bookkeeping pass over the day's order from position `k`: each visited
    employee is settled exactly as if alone, and nobody else is touched.
  */
  function Settle(s: DayState, order: seq<nat>, today: int, k: nat): (r: DayState)
    requires InRange(order, |s.staff|) && NoRepeats(order) && DistinctNames(s.staff) && k <= |order|
    ensures Extends(s, r, today)
    ensures forall j :: k <= j < |order| ==> Settled(s, r, order[j], today)
    ensures forall i :: 0 <= i < |s.staff| && i !in order[k..] ==> r.staff[i] == s.staff[i] && (Name(s, i) in r.day <==> Name(s, i) in s.day)
    decreases |order| - k
  {
    if k == |order| then
      ExtendsRefl(s, today);
      s
    else
      var s1 := SettleOne(s, order[k], today);
      ExtendsKeepsNames(s, s1, today);
      var r := Settle(s1, order, today, k + 1);
      SettleStep(s, s1, r, order, today, k);
      r
  }

  lemma SettleStep(s: DayState, s1: DayState, r: DayState, order: seq<nat>, today: int, k: nat)
    requires InRange(order, |s.staff|) && NoRepeats(order) && DistinctNames(s.staff) && k < |order|
    requires Extends(s, s1, today) && Settled(s, s1, order[k], today)
    requires forall j :: 0 <= j < |s.staff| && j != order[k] ==> s1.staff[j] == s.staff[j] && (Name(s, j) in s1.day <==> Name(s, j) in s.day)
    requires Extends(s1, r, today)
    requires forall j :: k + 1 <= j < |order| ==> Settled(s1, r, order[j], today)
    requires forall i :: 0 <= i < |s1.staff| && i !in order[k + 1..] ==> r.staff[i] == s1.staff[i] && (Name(s1, i) in r.day <==> Name(s1, i) in s1.day)
    ensures Extends(s, r, today)
    ensures forall j :: k <= j < |order| ==> Settled(s, r, order[j], today)
    ensures forall i :: 0 <= i < |s.staff| && i !in order[k..] ==> r.staff[i] == s.staff[i] && (Name(s, i) in r.day <==> Name(s, i) in s.day)
  {
    ExtendsTrans(s, s1, r, today);
    var i0 := order[k];
    assert i0 !in order[k + 1..] by {
      forall j | k + 1 <= j < |order| ensures order[j] != i0 { }
    }
    ExtendsKeepsStaff(s, s1, today, i0);
    assert Settled(s, r, i0, today);
    forall j | k + 1 <= j < |order| ensures Settled(s, r, order[j], today) {
      var i := order[j];
      assert i != i0;
      assert s1.staff[i] == s.staff[i];
      assert Name(s1, i) == Name(s, i);
    }
    forall i | 0 <= i < |s.staff| && i !in order[k..]
      ensures r.staff[i] == s.staff[i] && (Name(s, i) in r.day <==> Name(s, i) in s.day)
    {
      assert order[k..] == [i0] + order[k + 1..];
    }
  }

  // ---------------------------------------------------------------- one day

  /** One day's choice of the caller: the shuffled order and which template. */
  datatype DayChoice = DayChoice(order: seq<nat>, full: bool)

  /** A shift the first pass can give: the employee fits its rules and the code is a template slot. */
  predicate FirstPassEntry(w: Worker, code: Code, today: int, template: seq<Code>) {
    FirstPassFit(w, today) && code in template
  }

  /** A shift the fallback can give: M or P, to someone who did not rest yesterday. */
  predicate FallbackEntry(w: Worker, code: Code) {
    !w.rest.restedYesterday && (code == M || code == P)
  }

  /** A shift the bookkeeping forces: the first eligible code, to someone who rested yesterday. */
  predicate ForcedEntry(w: Worker, code: Code) {
    w.rest.restedYesterday && |w.emp.eligible| > 0 && code == w.emp.eligible[0]
  }

  /** Every shift of the day came from the first pass or from the fallback. */
  predicate FromPassOrFallback(staff: seq<Worker>, day: DayMap, today: int, template: seq<Code>) {
    forall i :: 0 <= i < |staff| && staff[i].emp.name in day ==>
      FirstPassEntry(staff[i], day[staff[i].emp.name], today, template) || FallbackEntry(staff[i], day[staff[i].emp.name])
  }

  /** Every shift of the day came from the first pass, from the fallback or from the forced step. */
  predicate FromAnyStep(staff: seq<Worker>, day: DayMap, today: int, template: seq<Code>) {
    forall i :: 0 <= i < |staff| && staff[i].emp.name in day ==>
      || FirstPassEntry(staff[i], day[staff[i].emp.name], today, template)
      || FallbackEntry(staff[i], day[staff[i].emp.name])
      || ForcedEntry(staff[i], day[staff[i].emp.name])
  }

  /**
    A day with fewer entries than the template has slots is short only
    because nobody was left: some slot of the template is one nobody could
    take in the first pass, and everyone without a shift who did not rest
    yesterday may work neither M nor P.
  */
  predicate ShortOnlyIfStuck(staff: seq<Worker>, day: DayMap, today: int, template: seq<Code>) {
    |day| < |template| ==>
      && (forall i :: 0 <= i < |staff| && staff[i].emp.name !in day && !staff[i].rest.restedYesterday ==>
            M !in staff[i].emp.eligible && P !in staff[i].emp.eligible)
      && (exists c :: c in template && forall i :: 0 <= i < |staff| ==> !FitsSlot(staff[i], day, today, c))
  }

  /** An extension never has fewer entries. */
  lemma ExtendsGrows(s: DayState, r: DayState, today: int)
    requires Extends(s, r, today)
    ensures |s.day| <= |r.day|
  {
    assert s.day.Keys <= r.day.Keys;
    SubsetSize(s.day.Keys, r.day.Keys);
  }

  lemma SubsetSize<T>(a: set<T>, b: set<T>)
    requires a <= b
    ensures |a| <= |b|
  {
    assert b == a + (b - a) && a * (b - a) == {};
  }

  /** The day after the first pass and the fallback, before the bookkeeping. */
  function Covered(staff: seq<Worker>, choice: DayChoice, today: int): (r: DayState)
    requires IsOrder(choice.order, |staff|) && DistinctNames(staff)
    ensures Extends(DayState(staff, map[]), r, today) && SameRest(DayState(staff, map[]), r)
    ensures |r.day| <= |Template(choice.full)|
    ensures FromPassOrFallback(staff, r.day, today, Template(choice.full))
    ensures ShortOnlyIfStuck(staff, r.day, today, Template(choice.full))
  {
    var s0 := DayState(staff, map[]);
    var target := |Template(choice.full)|;
    var s1 := FillSlots(s0, choice.order, today, Template(choice.full));
    ExtendsKeepsNames(s0, s1, today);
    var r := Fallback(s1, choice.order, today, target);
    ExtendsTrans(s0, s1, r, today);
    CoveredEntries(staff, Template(choice.full), today, s1, r);
    CoveredShort(staff, choice.order, Template(choice.full), today, s1, r);
    r
  }

  /** Every entry of the covered day is a first-pass entry or a fallback entry. */
  lemma CoveredEntries(staff: seq<Worker>, template: seq<Code>, today: int, s1: DayState, r: DayState)
    requires Extends(DayState(staff, map[]), s1, today) && SameRest(DayState(staff, map[]), s1)
    requires forall i :: 0 <= i < |staff| && Name(DayState(staff, map[]), i) in s1.day ==>
               FirstPassFit(staff[i], today) && s1.day[Name(DayState(staff, map[]), i)] in template
    requires forall n :: n in s1.day ==> n in r.day && r.day[n] == s1.day[n]
    requires AddsOnly(s1, r, {M, P})
    requires AddsNoneRested(s1, r)
    ensures FromPassOrFallback(staff, r.day, today, template)
  {
    var s0 := DayState(staff, map[]);
    forall i | 0 <= i < |staff| && staff[i].emp.name in r.day
      ensures FirstPassEntry(staff[i], r.day[staff[i].emp.name], today, template)
           || FallbackEntry(staff[i], r.day[staff[i].emp.name])
    {
      ExtendsKeepsStaff(s0, s1, today, i);
      assert Name(s0, i) == Name(s1, i);
    }
  }

  /** Both short-day facts, carried from the first pass and the fallback to the covered day. */
  lemma CoveredShort(staff: seq<Worker>, order: seq<nat>, template: seq<Code>, today: int, s1: DayState, r: DayState)
    requires IsOrder(order, |staff|)
    requires Extends(DayState(staff, map[]), s1, today) && SameRest(DayState(staff, map[]), s1)
    requires Extends(s1, r, today) && SameRest(s1, r)
    requires |s1.day| < |template| ==>
               exists c :: c in template && forall j :: 0 <= j < |order| ==> !FitsSlot(staff[order[j]], s1.day, today, c)
    requires |r.day| < |template| ==> forall i :: 0 <= i < |s1.staff| && Name(s1, i) !in r.day && !s1.staff[i].rest.restedYesterday ==>
               M !in s1.staff[i].emp.eligible && P !in s1.staff[i].emp.eligible
    ensures ShortOnlyIfStuck(staff, r.day, today, template)
  {
    var s0 := DayState(staff, map[]);
    if |r.day| < |template| {
      ExtendsGrows(s1, r, today);
      var c :| c in template && forall j :: 0 <= j < |order| ==> !FitsSlot(staff[order[j]], s1.day, today, c);
      forall i | 0 <= i < |staff| ensures !FitsSlot(staff[i], r.day, today, c) {
        assert i in order;
        var j :| 0 <= j < |order| && order[j] == i;
        assert !FitsSlot(staff[order[j]], s1.day, today, c);
      }
      forall i | 0 <= i < |staff| && staff[i].emp.name !in r.day && !staff[i].rest.restedYesterday
        ensures M !in staff[i].emp.eligible && P !in staff[i].emp.eligible
      {
        ExtendsKeepsStaff(s0, s1, today, i);
        assert Name(s1, i) !in r.day;
      }
    }
  }

  /**
    One whole day: first pass, fallback, bookkeeping. Each employee's record
    gains exactly the day's entry for them; a rest is recorded only for
    someone who did not rest yesterday and has no shift today; whoever rested
    yesterday and has an eligible code works today. The bookkeeping keeps
    every shift of the covered day and adds only forced ones, and a day left
    short is short only because nobody was left.
  */
  function DayStep(staff: seq<Worker>, choice: DayChoice, today: int): (r: DayState)
    requires IsOrder(choice.order, |staff|) && DistinctNames(staff)
    ensures Extends(DayState(staff, map[]), r, today)
    ensures forall i :: 0 <= i < |staff| ==> Settles(staff[i], r.staff[i], r.day, today)
    ensures FromAnyStep(staff, r.day, today, Template(choice.full))
    ensures var c := Covered(staff, choice, today).day;
            && (forall n :: n in c ==> n in r.day && r.day[n] == c[n])
            && (forall i :: 0 <= i < |staff| && staff[i].emp.name in r.day && staff[i].emp.name !in c ==>
                  ForcedEntry(staff[i], r.day[staff[i].emp.name]))
    ensures ShortOnlyIfStuck(staff, r.day, today, Template(choice.full))
  {
    Finish(staff, choice.order, Template(choice.full), today, Covered(staff, choice, today))
  }

  /** The bookkeeping over the day covered so far, read against the staff as the day began. */
  function Finish(staff: seq<Worker>, order: seq<nat>, template: seq<Code>, today: int, s2: DayState): (r: DayState)
    requires IsOrder(order, |staff|) && DistinctNames(staff)
    requires Extends(DayState(staff, map[]), s2, today) && SameRest(DayState(staff, map[]), s2)
    requires FromPassOrFallback(staff, s2.day, today, template)
    requires ShortOnlyIfStuck(staff, s2.day, today, template)
    ensures Extends(DayState(staff, map[]), r, today)
    ensures forall i :: 0 <= i < |staff| ==> Settles(staff[i], r.staff[i], r.day, today)
    ensures FromAnyStep(staff, r.day, today, template)
    ensures forall n :: n in s2.day ==> n in r.day && r.day[n] == s2.day[n]
    ensures forall i :: 0 <= i < |staff| && staff[i].emp.name in r.day && staff[i].emp.name !in s2.day ==>
              ForcedEntry(staff[i], r.day[staff[i].emp.name])
    ensures ShortOnlyIfStuck(staff, r.day, today, template)
  {
    ExtendsKeepsNames(DayState(staff, map[]), s2, today);
    var r := Settle(s2, order, today, 0);
    DayStepFacts(staff, order, template, today, s2, r);
    FinishShort(staff, template, today, s2, r);
    r
  }

  /** The bookkeeping only adds shifts, so a day it leaves short was short before it. */
  lemma FinishShort(staff: seq<Worker>, template: seq<Code>, today: int, s2: DayState, r: DayState)
    requires Extends(s2, r, today)
    requires ShortOnlyIfStuck(staff, s2.day, today, template)
    ensures ShortOnlyIfStuck(staff, r.day, today, template)
  {
    if |r.day| < |template| {
      ExtendsGrows(s2, r, today);
      var c :| c in template && forall i :: 0 <= i < |staff| ==> !FitsSlot(staff[i], s2.day, today, c);
      assert forall i :: 0 <= i < |staff| ==> !FitsSlot(staff[i], r.day, today, c);
    }
  }

  /** The day's effect on one employee's rest state, read against their shift. */
  predicate Settles(w: Worker, w': Worker, day: DayMap, today: int) {
    var n := w.emp.name;
    && (w'.rest.restedYesterday ==> !w.rest.restedYesterday && n !in day && w'.rest.lastRest == Some(today))
    && (!w'.rest.restedYesterday ==> w'.rest.lastRest == w.rest.lastRest)
    && (n !in day && !w.rest.restedYesterday ==> w'.rest.restedYesterday)
    && (w.rest.restedYesterday && |w.emp.eligible| > 0 ==> n in day)
  }

  lemma DayStepFacts(staff: seq<Worker>, order: seq<nat>, template: seq<Code>, today: int, s2: DayState, r: DayState)
    requires IsOrder(order, |staff|) && DistinctNames(staff)
    requires Extends(DayState(staff, map[]), s2, today) && SameRest(DayState(staff, map[]), s2)
    requires FromPassOrFallback(staff, s2.day, today, template)
    requires Extends(s2, r, today)
    requires forall j :: 0 <= j < |order| ==> Settled(s2, r, order[j], today)
    ensures Extends(DayState(staff, map[]), r, today)
    ensures forall i :: 0 <= i < |staff| ==> Settles(staff[i], r.staff[i], r.day, today)
    ensures FromAnyStep(staff, r.day, today, template)
    ensures forall i :: 0 <= i < |staff| && staff[i].emp.name in r.day && staff[i].emp.name !in s2.day ==>
              ForcedEntry(staff[i], r.day[staff[i].emp.name])
  {
    var s0 := DayState(staff, map[]);
    ExtendsTrans(s0, s2, r, today);
    forall i | 0 <= i < |staff|
      ensures Settles(staff[i], r.staff[i], r.day, today)
      ensures staff[i].emp.name in r.day ==>
              || FirstPassEntry(staff[i], r.day[staff[i].emp.name], today, template)
              || FallbackEntry(staff[i], r.day[staff[i].emp.name])
              || ForcedEntry(staff[i], r.day[staff[i].emp.name])
      ensures staff[i].emp.name in r.day && staff[i].emp.name !in s2.day ==> ForcedEntry(staff[i], r.day[staff[i].emp.name])
    {
      assert i in order;
      var j :| 0 <= j < |order| && order[j] == i;
      DayStepOne(staff, template, today, s2, r, i);
    }
  }

  lemma DayStepOne(staff: seq<Worker>, template: seq<Code>, today: int, s2: DayState, r: DayState, i: nat)
    requires DistinctNames(staff) && i < |staff|
    requires Extends(DayState(staff, map[]), s2, today) && SameRest(DayState(staff, map[]), s2)
    requires FromPassOrFallback(staff, s2.day, today, template)
    requires Extends(s2, r, today)
    requires Settled(s2, r, i, today)
    ensures Settles(staff[i], r.staff[i], r.day, today)
    ensures staff[i].emp.name in r.day ==>
              || FirstPassEntry(staff[i], r.day[staff[i].emp.name], today, template)
              || FallbackEntry(staff[i], r.day[staff[i].emp.name])
              || ForcedEntry(staff[i], r.day[staff[i].emp.name])
    ensures staff[i].emp.name in r.day && staff[i].emp.name !in s2.day ==> ForcedEntry(staff[i], r.day[staff[i].emp.name])
  {
    var s0 := DayState(staff, map[]);
    ExtendsKeepsStaff(s0, s2, today, i);
    ExtendsKeepsStaff(s2, r, today, i);
    var n := staff[i].emp.name;
    assert Name(s2, i) == n;
    assert s2.staff[i].rest == staff[i].rest;
    if n in s2.day {
      assert r.day[n] == s2.day[n];
    }
  }
}
