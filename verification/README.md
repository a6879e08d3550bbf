# Orarirec shift rostering, modelled in Dafny

This project models the rostering engine of `orari.py`, a 24/7 hospitality
shift planner. It has three parts:

- **The shift table** (`TURNI`). Each code has a start and an end time of
  day. A shift's length is the clock difference taken modulo one day, so
  the overnight shift `N` (23:00 to 07:00) lasts eight hours.
- **The employee record** (`Dipendente`). It holds the append-only list of
  (date, code) assignments, plus leave intervals, recovery days, extra rest
  days, the eligible codes and their priorities. Its operations are:
  - adding, editing and clearing shifts;
  - recording leave, recovery and extra rest;
  - the backward walk that counts consecutive days worked;
  - the total time worked.
- **The monthly generator** (`genera_turni`). It works day by day. Each day:
  1. It picks a staffing template: `M2 P2 S P` or `M P P`.
  2. It fills each slot with the first employee of the day's order who passes
     the first-pass rules:
     - at least six days since the last rest (seven if never rested);
     - did not rest yesterday;
     - not on leave (both ends inclusive) and not on a recovery day;
     - not yet assigned today, and eligible for the code.
  3. If the day is short, it offers `M` and then `P` to anyone free who did
     not rest yesterday, until the day reaches the template's size.
  4. It updates each employee's rest state:
     - anyone who rested yesterday and is free is put on their first eligible
       code;
     - anyone else who is free rests today.

Modelling choices:

- **Dates** are day numbers in the proleptic Gregorian calendar, numbered as
  Python's `date.toordinal` numbers them.
- **Times** are minutes after midnight.
- **Employees** are identified by their position in the list passed in.
- **Randomness.** The two random choices of each day become an explicit
  input, `DayChoice`:
  - the shuffled order, as a permutation of positions;
  - which template is used.
- **The shuffle mutates the caller's list in place.** So the later loops of a
  day also run in that order, and the list comes back in the last day's
  order. The model returns the staff the same way.
- **Rest state.** The source keeps it in two dictionaries keyed by name. Here
  it travels with each employee (`Worker`). This is equivalent because names
  are distinct: the user interface refuses a duplicate name
  (orari.py:300-305).

Where the code is looser than its comments, the model follows the code, and
the `Looseness` module proves the consequences:

- **Leave protects an employee only in the first pass.** Neither the fallback
  (orari.py:121) nor the forced shift (orari.py:133-139) looks at leave or
  recovery days.
- **The forced shift ignores occupancy.** It does not check whether someone
  else already holds the code.
- **The six-day rule is not a spacing guarantee.** It gates only the first
  pass, so rests can be recorded two days apart.

The files are:

| file | module | contents |
|---|---|---|
| `dates.dfy` | `Dates` | Gregorian month lengths and day numbers |
| `shifts.dfy` | `Shifts` | the shift codes, their windows and lengths |
| `sorting.dfy` | `Sorting` | the ascending sort used by the consecutive-days count |
| `employees.dfy` | `Employees` | the employee record and its operations |
| `generator.dfy` | `Generator` | one day of the generator |
| `month.dfy` | `Month` | the day step folded over a month, and the generator's result |
| `looseness.dfy` | `Looseness` | consequences of the code's looser rules |

## Model

| member | source | states |
|---|---|---|
| Shifts.WindowOf | orari.py:14-25 | Every code's start and end lie within one day, at the clock readings of the table. |
| Shifts.Duration | orari.py:64-71 | A shift's length is below one day. Adding it to the start reaches the end modulo one day, as with `timedelta.seconds`. |
| Shifts.DurationUnique | orari.py:64-71 | That length is the only length below a day that leads from start to end. |
| Shifts.OvernightShift | orari.py:14-25 | `N` is the only window that passes midnight. Its length is 480 minutes (8h). Every other length is end minus start. |
| Shifts.CatalogComplete | orari.py:14-25 | The catalogue lists every code exactly once. |
| Dates.DaysInMonth | orari.py:79 | A month has 28 to 31 days. February has 29 in Gregorian leap years. |
| Dates.Ordinal | orari.py:80 | A date's day number lies within its year's span of day numbers, and within the span of its month inside that year. |
| Dates.MonthsFillYear | orari.py:79-80 | The twelve month lengths add up to the year's length. |
| Dates.NextYear | orari.py:80 | The closed-form count of days before a year advances by exactly one year length. |
| Dates.MonthsAreContiguous | orari.py:79-80 | Day numbers are contiguous across months and years: the last day of a month plus one is the first day of the next. |
| Employees.NewEmployee | orari.py:29-36 | A new employee has nothing recorded, the whole catalogue as eligible codes in table order (so the first eligible code is `M2`), and every priority 1. |
| Employees.AddShift | orari.py:38-39 | Appends exactly one (day, code) entry and changes nothing else. The total time grows by exactly that code's length. |
| Employees.SumMinutesAppend | orari.py:64-71 | The total over two lists of entries is the sum of their totals. |
| Employees.TotalMinutes | orari.py:64-71 | The time worked equals, over the catalogue, each code's number of worked days times that code's length. It depends only on how many shifts of each code were worked, not on their dates or order. |
| Employees.SumByCode | orari.py:64-71 | Summing shift by shift, as the source's loop does, agrees with summing code by code over the catalogue. |
| Employees.ClearShifts | orari.py:73-74 | The reset keeps every other field, leaves no day worked, and makes the total 0. |
| Employees.ClearShiftsIdempotent | orari.py:73-74 | Resetting twice is resetting once. |
| Employees.OvernightTotal | orari.py:64-74 | After a reset and one `N` shift, the total is eight hours. |
| Employees.ModifyShift | orari.py:41-42 | Keeps every other field, the length, the order and every date. Entries on other dates are unchanged. Every entry dated `day` gets the new code. |
| Employees.ModifyIdempotent | orari.py:41-42 | Editing a day twice with the same code is editing it once. |
| Employees.ModifyUnworkedDay | orari.py:41-42 | Editing a day that was not worked changes nothing and adds no entry. |
| Employees.ModifyKeepsCount | orari.py:41-42 | The number of entries on any date is the same after an edit. |
| Employees.ModifyReplaces | orari.py:41-42 | A day recorded once is still recorded once after the edit, now with the new code. |
| Employees.AssignLeave | orari.py:44-45 | Adds an inclusive leave interval. The employee is then on leave exactly on the old leave days and the days of the interval. |
| Employees.AddExtraRest | orari.py:47-48 | Records the day and does not change the days on which the employee counts as unavailable. |
| Employees.AssignRecovery | orari.py:50-51 | The recovery days become the old ones plus the new day; nothing else changes. |
| Employees.WalkBack | orari.py:55-61 | The backward walk counts only days that are worked: the days from the count back to the result are all in the list. |
| Employees.WalkBackBelow | orari.py:56-58 | The walk gives the same result when the days from `asOf` on are removed. |
| Employees.WalkBackMaximal | orari.py:55-61 | On strictly increasing days, the walk stops exactly where the run of worked days ends. |
| Employees.ConsecutiveDaysWorked | orari.py:53-62 | Every day from asOf-k to asOf-1 is worked, so the count is 0 unless asOf-1 is worked. When no date is recorded twice, asOf-k-1 is not worked, so k is exactly the length of the run. |
| Employees.RunFacts | orari.py:53-62 | Walking back over any ascending arrangement of the worked days counts only worked days. Without repeated dates, the day before the counted run is not worked. |
| Employees.ConsecutiveIgnoresLater | orari.py:53-62 | Two records with the same worked days before `asOf` get the same count: days from `asOf` on are ignored. |
| Employees.ConsecutiveAfterLaterShift | orari.py:53-62 | Recording a shift on or after `asOf` leaves the count as of `asOf` unchanged. |
| Sorting.Sort | orari.py:54 | The sort returns an ascending rearrangement of its input: the same multiset. |
| Sorting.SortedUnique | orari.py:54 | There is only one ascending arrangement of a multiset. |
| Sorting.SortBelowCommute | orari.py:54-56 | Sorting and then dropping the days from `asOf` on gives the same list as dropping first and then sorting. |
| Sorting.RearrangeKeepsDistinct | orari.py:54 | Any rearrangement with the same multiset, the sort in particular, keeps a list free of repeated dates. |
| Generator.Template | orari.py:94-97 | The full template has four slots and the light template has three. |
| Generator.Give | orari.py:112-115 | Giving a free, eligible employee a code adds exactly that one entry to the day. The employee's record gains exactly that entry and no one else's changes. |
| Generator.FindFirst | orari.py:100-116 | First fit: the position found fits the slot, and nobody earlier in the order does. Nothing found means nobody fits. |
| Generator.FillOne | orari.py:99-116 | One slot of the template. The first employee of the order who passes every first-pass rule gets the slot's code, and the day gains only that entry, so no other code goes to anyone. If nobody fits, the day is unchanged; a day that gains nothing means nobody fitted. Rest state is untouched. |
| Generator.FillSlots | orari.py:99-116 | For every code, no more employees get it than the template has slots of that code. Everyone added passes every first-pass rule (gap, no rest yesterday, not on leave or recovery), is eligible, and gets a code of the template. Rest state is untouched. If fewer employees were added than there are slots, some slot's code is one that no employee of the order may take under the first-pass rules at the end of the pass. |
| Generator.FallbackScan | orari.py:120-128 | Adds only the scanned code, only to free, eligible employees who did not rest yesterday. Stops on reaching the target. If it ends short, nobody left in the order fits. It takes employees in the day's order and skips none: whoever gets the code is preceded in the order only by employees who could not take it or who got it too. |
| Generator.Fallback | orari.py:117-128 | Does nothing unless the day is short. It never takes the day past the template's size, adds only `M` or `P`, and adds nobody who rested yesterday. When it ends short, every free employee who did not rest yesterday is eligible for neither `M` nor `P`. `M` and then `P` go to fitting employees in the day's order, skipping none. `P` is given only once everyone who could take `M` has `M`. |
| Generator.SettleOne | orari.py:130-145 | Handles one employee's rest: a worker's flag is cleared; a free employee who rested yesterday gets their first eligible code (if any) and the flag is cleared; anyone else rests today. |
| Generator.ForceBack | orari.py:133-140 | A free employee who rested yesterday is put on their first eligible code, or left free if no code is eligible. The flag is cleared, the last rest date is kept, and no other employee changes. |
| Generator.Settle | orari.py:129-145 | Every employee in the order is handled as above, and nobody outside it changes. |
| Generator.Covered | orari.py:99-128 | After the first pass and the fallback, the day has at most as many entries as the template has slots. Every entry comes from one of the two passes. If the day is left short, some template slot is one nobody could take in the first pass, and everyone free who did not rest yesterday may work neither `M` nor `P`. |
| Generator.DayStep | orari.py:88-145 | One day. Every record gains exactly its entry for the day, and every entry names an eligible employee. A rest is recorded only for someone free who did not rest yesterday, and everyone who works ends the day with the flag clear. Whoever rested yesterday and has an eligible code works. Every entry comes from the first pass, the fallback, or the forced shift. The bookkeeping keeps every entry of the covered day and adds only forced shifts: the first eligible code, for someone who rested yesterday. A day left short is short only because nobody was left, as for Covered. |
| Month.RunDays | orari.py:88-145 | Over consecutive days: one roster day per input. Each record gains exactly that employee's roster entries, and every entry is eligible. Nobody rests on a day they work, and no one's rests are recorded on two consecutive days. The day after a recorded rest the employee works, if any code is eligible for them. A rest is recorded on a day exactly when the employee has no shift that day and did not rest the day before. Nobody with an eligible code goes two consecutive days without a shift. |
| Month.NoTwoDaysOffHolds | orari.py:130-145 | Exact rest records, work after each rest and the opening flags together mean that nobody with an eligible code has two consecutive days without a shift. |
| Month.Generate | orari.py:78-146 | An invalid month is an error, checked before an invalid year. A valid month and year give one roster day per day of the month, dated day 1 to the last day in order. The staff list comes back in the last day's order, each record extended by exactly its roster entries. Every entry names an employee eligible for its code. Nobody with an eligible code goes two consecutive days of the month without a shift. |
| Month.HistoryAscending | orari.py:88-145 | Over consecutive days, an employee's entries come in strictly increasing date order and fall within the run's days. |
| Month.HistoryMirror | orari.py:88-145 | An employee has a roster entry on a day exactly when that date is among their entries, and the entry carries the roster's code. |
| Month.GeneratedRecords | orari.py:365-374 | For staff reset before generation, as the interface does, every returned record lists each date at most once. Each record has a date exactly when the roster gives that employee a shift on it. |
| Looseness.FallbackTakesFirstFree | orari.py:117-128 | When the day is short, the first employee of the order who is free, may work `M` and did not rest yesterday gets `M`, whether or not they are on leave. |
| Looseness.AwayYetScheduled | orari.py:117-128 | An employee on leave or on a recovery day can be scheduled: the fallback puts them on `M`. |
| Looseness.ForcedShiftsShareCode | orari.py:133-139 | Two employees who rested yesterday and have the same first eligible code both get that code on the same day. |
| Looseness.RestWithoutGap | orari.py:129-145 | An employee with no eligible code who did not rest yesterday rests today, however recent their last rest. |
| Looseness.IdleDayAfterRest | orari.py:131-140 | Such an employee, after a rest, is left without a shift, their flag is cleared and the rest date is kept. So the next rest comes two days later. |
| Looseness.RestTwoDaysApart | orari.py:99-145 | An employee who rested on day d is forced to work on d+1. If the first pass fills day d+2 (it skips them, since their last rest is only two days back), they rest again on d+2, two days after the previous rest. |
| Looseness.RestWhenDayFull | orari.py:99-145 | Someone who last rested two days ago and did not rest yesterday is skipped by the first pass. When the first pass fills the day, no fallback runs, and they rest that day. |

## Left out

- The Tkinter interface `TurniApp` (orari.py:239-495) is not modelled. It is dialogs, lists and a preview grid.
- Saving and loading the staff with pickle (orari.py:284-292) is not modelled. It is file input and output.
- The PDF export classes (orari.py:149-236) are not modelled. This includes the truncation of the total hours to an integer (orari.py:235). They render through a foreign library.
- Randomness is not modelled. The 0.8 probability and the shuffle algorithm (orari.py:90, 94) become the per-day `DayChoice` input: the shuffled order and the template choice.
- Employees.TotalMinutes: counts whole minutes instead of floating-point hours, because every window is a whole number of minutes. The source's hours are this value divided by 60, up to the floating-point rounding of its running sum, so the whole hours it prints can be one less (nine `M2` shifts sum to just under 51). The `strptime` parsing of the clock strings is replaced by integer minutes.
- The priorities and the extra rest days are stored but never read by the generator. They are carried as inert fields.
- A shift code that is not in the table is not modelled. The source would raise `KeyError`, but codes are a closed enumeration here, and the interface only ever stores codes from the table.
- Month.Generate: requires distinct employee names, which the interface enforces when an employee is added. With duplicate names the source's name-keyed dictionaries would merge two employees.
- Month.Generate: requires the per-day choices to be permutations of the staff, one per day of the month. This is what `random.shuffle` and `random.random` supply.
- Employees.ConsecutiveDaysWorked: when a date is recorded twice, the source's walk stops at the repeat. The contract then promises only that the counted days are worked, not that the run is maximal.
- Generator.Covered: does not repeat which employees the first pass and the fallback choose. Generator.FillOne, Generator.FallbackScan and Generator.Fallback state that, one pass at a time.
- Generator.DayStep: likewise states the day's selection only through Generator.Covered, whose entries it keeps.
- Month.GeneratedRecords: assumes the records are empty before generation, as both interface callers make them (orari.py:371-372, 432-433). Prior shifts are simply kept in front of the month's entries (Month.Generate).
