/**
  The shift catalogue: every shift code with its start and end time of day,
  in minutes after midnight, and the length of a shift.
*/
module Shifts {

  /** The shift codes, in the order the catalogue lists them. */
  datatype Code = M2 | P2 | S | P | M | N | C | CSabato | Bar | BarMatin

  const MinutesPerDay := 1440

  /** A time window of one day; `end` may be earlier than `start` (overnight). */
  datatype Window = Window(start: int, end: int)

  /** Every code, in catalogue order: the default eligible list of a new employee. */
  const Catalog: seq<Code> := [M2, P2, S, P, M, N, C, CSabato, Bar, BarMatin]

  function Clock(h: int, m: int): int { h * 60 + m }

  function WindowOf(c: Code): (w: Window)
    ensures 0 <= w.start < MinutesPerDay && 0 <= w.end < MinutesPerDay
  {
    match c
    case M2 => Window(Clock(7, 0), Clock(12, 40))
    case P2 => Window(Clock(12, 30), Clock(18, 10))
    case S => Window(Clock(18, 0), Clock(23, 0))
    case P => Window(Clock(15, 30), Clock(23, 0))
    case M => Window(Clock(8, 0), Clock(15, 0))
    case N => Window(Clock(23, 0), Clock(7, 0))
    case C => Window(Clock(8, 0), Clock(15, 0))
    case CSabato => Window(Clock(11, 30), Clock(18, 30))
    case Bar => Window(Clock(15, 30), Clock(22, 0))
    case BarMatin => Window(Clock(16, 0), Clock(21, 0))
  }

  /**
    Length of a shift in minutes: the difference of the two clock readings
    taken modulo one day, so a window that passes midnight wraps round.
  */
  function Duration(c: Code): (d: nat)
    ensures d < MinutesPerDay
    ensures (WindowOf(c).start + d) % MinutesPerDay == WindowOf(c).end
  {
    (WindowOf(c).end - WindowOf(c).start) % MinutesPerDay
  }

  /** The duration is the only length shorter than a day that leads from start to end. */
  lemma DurationUnique(c: Code, d: int)
    requires 0 <= d < MinutesPerDay
    requires (WindowOf(c).start + d) % MinutesPerDay == WindowOf(c).end
    ensures d == Duration(c)
  {
    var w := WindowOf(c);
    if w.start + d < MinutesPerDay {
      assert w.start + d == w.end;
    } else {
      assert w.start + d - MinutesPerDay == w.end;
    }
    if w.start <= w.end {
      assert Duration(c) == w.end - w.start;
    } else {
      assert Duration(c) == w.end - w.start + MinutesPerDay;
    }
  }

  /**
    Exactly one code, N, crosses midnight; its length is 24h - 23:00 + 07:00,
    that is eight hours, and every other length is plain end minus start.
  */
  lemma OvernightShift(c: Code)
    ensures WindowOf(c).end < WindowOf(c).start <==> c == N
    ensures c == N ==> Duration(c) == MinutesPerDay - WindowOf(c).start + WindowOf(c).end == 8 * 60
    ensures c != N ==> Duration(c) == WindowOf(c).end - WindowOf(c).start
  {
  }

  /** The catalogue lists every code exactly once. */
  lemma CatalogComplete()
    ensures forall c: Code :: c in Catalog
    ensures forall i, j :: 0 <= i < j < |Catalog| ==> Catalog[i] != Catalog[j]
  {
    forall c: Code ensures c in Catalog {
      match c
      case M2 => assert Catalog[0] == c;
      case P2 => assert Catalog[1] == c;
      case S => assert Catalog[2] == c;
      case P => assert Catalog[3] == c;
      case M => assert Catalog[4] == c;
      case N => assert Catalog[5] == c;
      case C => assert Catalog[6] == c;
      case CSabato => assert Catalog[7] == c;
      case Bar => assert Catalog[8] == c;
      case BarMatin => assert Catalog[9] == c;
    }
  }
}
