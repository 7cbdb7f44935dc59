/** The weekly schedule: for each of seven days and three shifts, the list of
    employees working it. */
module Schedules {
  import opened Employees

  const DAYS: seq<string> := ["Monday", "Tuesday", "Wednesday", "Thursday", "Friday", "Saturday", "Sunday"]
  const SHIFTS: seq<string> := ["morning", "afternoon", "evening"]
  /** The capacity `isShiftFull` uses when none is given. */
  const DEFAULT_MAX_PER_SHIFT: int := 4

  type Slot = (string, string)

  /** The position of the first occurrence of `x` in `s`, or |s|. */
  function IndexOf(s: seq<string>, x: string): (k: nat)
    ensures k <= |s|
    ensures k < |s| ==> s[k] == x
    ensures forall j :: 0 <= j < k ==> s[j] != x
  {
    if s == [] then 0 else if s[0] == x then 0 else 1 + IndexOf(s[1..], x)
  }

  /** A name is found by `IndexOf` exactly when it occurs. */
  lemma {:induction false} IndexOfFinds(s: seq<string>, x: string)
    ensures IndexOf(s, x) < |s| <==> x in s
  {
    if s != [] && s[0] != x {
      IndexOfFinds(s[1..], x);
      assert x in s <==> x in s[1..] by {
        assert s == [s[0]] + s[1..];
      }
    }
  }

  /** day -> shift -> the employees working it */
  type Table = map<string, map<string, seq<Employee>>>

  /** The employees of a slot of `table`; none for an unknown day or shift. */
  function RosterIn(table: Table, day: string, shift: string): seq<Employee> {
    if day in table && shift in table[day] then table[day][shift] else []
  }

  /** `table` with `employee` appended to the slot (day, shift). */
  function Appended(table: Table, day: string, shift: string, employee: Employee): (after: Table)
    requires day in table && shift in table[day]
    ensures after.Keys == table.Keys && forall d :: d in table ==> after[d].Keys == table[d].Keys
    ensures forall d, s :: RosterIn(after, d, s) == if d == day && s == shift then RosterIn(table, d, s) + [employee]
                                                    else RosterIn(table, d, s)
  {
    table[day := table[day][shift := table[day][shift] + [employee]]]
  }

  /** `row` has a list for each of `shifts`. */
  ghost predicate HasShifts(row: map<string, seq<Employee>>, shifts: seq<string>) {
    shifts == [] || (shifts[0] in row && HasShifts(row, shifts[1..]))
  }

  /** `table` has a row for each of `days`, with a list for each of `shifts`. */
  ghost predicate HasDays(table: Table, days: seq<string>, shifts: seq<string>) {
    days == [] || (days[0] in table && HasShifts(table[days[0]], shifts) && HasDays(table, days[1..], shifts))
  }

  lemma {:induction false} HasShiftsAt(row: map<string, seq<Employee>>, shifts: seq<string>, j: nat)
    requires HasShifts(row, shifts) && j < |shifts|
    ensures shifts[j] in row
  {
    if j > 0 {
      HasShiftsAt(row, shifts[1..], j - 1);
    }
  }

  /** A shaped table has the slot of the i-th day and the j-th shift. */
  lemma {:induction false} HasDaysAt(table: Table, days: seq<string>, shifts: seq<string>, i: nat, j: nat)
    requires HasDays(table, days, shifts) && i < |days| && j < |shifts|
    ensures days[i] in table && shifts[j] in table[days[i]]
  {
    if i == 0 {
      HasShiftsAt(table[days[0]], shifts, j);
    } else {
      HasDaysAt(table, days[1..], shifts, i - 1, j);
    }
  }

  lemma {:induction false} HasShiftsIfAll(row: map<string, seq<Employee>>, shifts: seq<string>)
    requires forall s :: s in shifts ==> s in row
    ensures HasShifts(row, shifts)
  {
    if shifts != [] {
      HasShiftsIfAll(row, shifts[1..]);
    }
  }

  /** A table with a list for every pair of one of `days` and one of
      `shifts` has that shape. */
  lemma {:induction false} HasDaysIfAll(table: Table, days: seq<string>, shifts: seq<string>)
    requires forall d :: d in days ==> d in table && forall s :: s in shifts ==> s in table[d]
    ensures HasDays(table, days, shifts)
  {
    if days != [] {
      HasShiftsIfAll(table[days[0]], shifts);
      HasDaysIfAll(table, days[1..], shifts);
    }
  }

  lemma {:induction false} HasShiftsKept(row: map<string, seq<Employee>>, row': map<string, seq<Employee>>, shifts: seq<string>)
    requires HasShifts(row, shifts) && row.Keys <= row'.Keys
    ensures HasShifts(row', shifts)
  {
    if shifts != [] {
      HasShiftsKept(row, row', shifts[1..]);
    }
  }

  /** The shape depends on the keys only. */
  lemma {:induction false} HasDaysKept(table: Table, table': Table, days: seq<string>, shifts: seq<string>)
    requires HasDays(table, days, shifts) && table.Keys <= table'.Keys
    requires forall d :: d in table ==> table[d].Keys <= table'[d].Keys
    ensures HasDays(table', days, shifts)
  {
    if days != [] {
      HasShiftsKept(table[days[0]], table'[days[0]], shifts);
      HasDaysKept(table, table', days[1..], shifts);
    }
  }

  /** A shaped table has the slot of every known day and known shift. */
  lemma HasDaysHas(table: Table, days: seq<string>, shifts: seq<string>, day: string, shift: string)
    requires HasDays(table, days, shifts) && day in days && shift in shifts
    ensures day in table && shift in table[day]
  {
    IndexOfFinds(days, day);
    IndexOfFinds(shifts, shift);
    HasDaysAt(table, days, shifts, IndexOf(days, day), IndexOf(shifts, shift));
  }

  /** The slots of one day, in the order of `shifts`. */
  function DaySlots(day: string, shifts: seq<string>): (slots: seq<Slot>)
    ensures |slots| == |shifts|
    ensures forall k :: 0 <= k < |shifts| ==> slots[k] == (day, shifts[k])
  {
    seq(|shifts|, k requires 0 <= k < |shifts| => (day, shifts[k]))
  }

  /** The slots of the first `n` of `days`, by day and then by shift. */
  function SlotsUpTo(days: seq<string>, shifts: seq<string>, n: nat): seq<Slot>
    requires n <= |days|
  {
    if n == 0 then [] else SlotsUpTo(days, shifts, n - 1) + DaySlots(days[n - 1], shifts)
  }

  /** Every slot of the week, by day and then by shift. */
  function AllSlots(days: seq<string>, shifts: seq<string>): seq<Slot> {
    SlotsUpTo(days, shifts, |days|)
  }

  lemma {:induction false} SlotsUpToMembers(days: seq<string>, shifts: seq<string>, n: nat, slot: Slot)
    requires n <= |days|
    ensures slot in SlotsUpTo(days, shifts, n) <==> slot.0 in days[..n] && slot.1 in shifts
  {
    if n > 0 {
      SlotsUpToMembers(days, shifts, n - 1, slot);
      assert days[..n] == days[..n - 1] + [days[n - 1]];
      if slot.0 == days[n - 1] && slot.1 in shifts {
        var k :| 0 <= k < |shifts| && shifts[k] == slot.1;
        assert DaySlots(days[n - 1], shifts)[k] == slot;
      }
    }
  }

  /** The week's slots are exactly the pairs of a known day and a known shift. */
  lemma AllSlotsMembers(days: seq<string>, shifts: seq<string>, slot: Slot)
    ensures slot in AllSlots(days, shifts) <==> slot.0 in days && slot.1 in shifts
  {
    SlotsUpToMembers(days, shifts, |days|, slot);
    assert days[..|days|] == days;
  }

  class Schedule {
    var schedule: Table
    const minEmployeesPerShift: int
    /** The day names and the shift names the table was built from. */
    const days: seq<string>
    const shifts: seq<string>

    /** The table has a list for every pair of known day and shift; the
        minimum staffing is two. */
    ghost predicate Shaped()
      reads this
    {
      minEmployeesPerShift == 2 && HasDays(schedule, days, shifts)
    }

    constructor ()
      ensures Shaped() && days == DAYS && shifts == SHIFTS
      ensures forall day :: day in schedule <==> day in DAYS
      ensures forall day, shift :: day in schedule ==> (shift in schedule[day] <==> shift in SHIFTS)
      ensures forall day, shift :: Roster(day, shift) == []
    {
      var table: map<string, map<string, seq<Employee>>> := map[];
      for i := 0 to |DAYS|
        invariant forall day :: day in table <==> day in DAYS[..i]
        invariant forall day :: day in table ==> forall shift :: shift in table[day] <==> shift in SHIFTS
        invariant forall day, shift :: day in table && shift in table[day] ==> table[day][shift] == []
      {
        var daySchedule: map<string, seq<Employee>> := map[];
        for j := 0 to |SHIFTS|
          invariant forall shift :: shift in daySchedule <==> shift in SHIFTS[..j]
          invariant forall shift :: shift in daySchedule ==> daySchedule[shift] == []
        {
          assert SHIFTS[..j + 1] == SHIFTS[..j] + [SHIFTS[j]];
          daySchedule := daySchedule[SHIFTS[j] := []];
        }
        assert SHIFTS[..|SHIFTS|] == SHIFTS;
        assert DAYS[..i + 1] == DAYS[..i] + [DAYS[i]];
        table := table[DAYS[i] := daySchedule];
      }
      assert DAYS[..|DAYS|] == DAYS;
      HasDaysIfAll(table, DAYS, SHIFTS);
      schedule := table;
      minEmployeesPerShift := 2;
      days, shifts := DAYS, SHIFTS;
    }

    /** The employees of a slot; none for an unknown day or shift. */
    function Roster(day: string, shift: string): (employees: seq<Employee>)
      reads this
    {
      RosterIn(schedule, day, shift)
    }

    /** A known slot's roster is its list in the table; any other is empty. */
    lemma RosterOfSlot(day: string, shift: string)
      ensures day in schedule && shift in schedule[day] ==> Roster(day, shift) == schedule[day][shift]
      ensures day !in schedule || shift !in schedule[day] ==> Roster(day, shift) == []
    {
    }

    /** Appends to the slot's list when the day and the shift are known;
        otherwise reports failure and changes nothing. */
    method AddEmployeeToShift(day: string, shift: string, employee: Employee) returns (ok: bool)
      modifies this
      ensures ok <==> day in old(schedule) && shift in old(schedule)[day]
      ensures schedule == if ok then Appended(old(schedule), day, shift, employee) else old(schedule)
      ensures old(Shaped()) ==> Shaped()
    {
      if day in schedule && shift in schedule[day] {
        schedule := Appended(schedule, day, shift, employee);
        if old(Shaped()) {
          HasDaysKept(old(schedule), schedule, days, shifts);
        }
        return true;
      }
      return false;
    }

    /** The number of employees of a slot; 0 for an unknown day or shift. */
    function GetShiftCount(day: string, shift: string): (count: nat)
      reads this
      ensures count == |Roster(day, shift)|
    {
      |Roster(day, shift)|
    }

    /** Full when the slot has reached `maxPerShift` employees; a slot of an
        unknown day or shift is empty, so full only for a capacity of at most
        zero. */
    predicate IsShiftFullFor(day: string, shift: string, maxPerShift: int): (full: bool)
      reads this
      ensures full <==> |Roster(day, shift)| >= maxPerShift
      ensures day !in schedule || shift !in schedule[day] ==> (full <==> maxPerShift <= 0)
    {
      GetShiftCount(day, shift) >= maxPerShift
    }

    /** Full at the default capacity of four. */
    predicate IsShiftFull(day: string, shift: string): (full: bool)
      reads this
      ensures full <==> |Roster(day, shift)| >= 4
      ensures day !in schedule || shift !in schedule[day] ==> !full
    {
      IsShiftFullFor(day, shift, DEFAULT_MAX_PER_SHIFT)
    }

    /** The slots among `slots` with fewer employees than the minimum, in
        the order of `slots`. */
    ghost function UnderstaffedAmong(slots: seq<Slot>): seq<Slot>
      reads this
    {
      if slots == [] then []
      else
        var last := slots[|slots| - 1];
        UnderstaffedAmong(slots[..|slots| - 1])
        + (if GetShiftCount(last.0, last.1) < minEmployeesPerShift then [last] else [])
    }

    lemma {:induction false} UnderstaffedAmongMembers(slots: seq<Slot>, slot: Slot)
      ensures slot in UnderstaffedAmong(slots) <==>
                slot in slots && GetShiftCount(slot.0, slot.1) < minEmployeesPerShift
    {
      if slots != [] {
        UnderstaffedAmongMembers(slots[..|slots| - 1], slot);
        assert slots == slots[..|slots| - 1] + [slots[|slots| - 1]];
      }
    }

    lemma UnderstaffedWeek()
      ensures forall slot :: slot in UnderstaffedAmong(AllSlots(days, shifts)) <==>
                slot.0 in days && slot.1 in shifts && GetShiftCount(slot.0, slot.1) < minEmployeesPerShift
    {
      forall slot
        ensures slot in UnderstaffedAmong(AllSlots(days, shifts)) <==>
                  slot.0 in days && slot.1 in shifts && GetShiftCount(slot.0, slot.1) < minEmployeesPerShift
      {
        UnderstaffedAmongMembers(AllSlots(days, shifts), slot);
        AllSlotsMembers(days, shifts, slot);
      }
    }

    /** The understaffed slots, by day and then by shift: every slot of the
        week with fewer employees than the minimum, and no other. */
    method GetUnderstaffedShifts() returns (understaffed: seq<Slot>)
      ensures understaffed == UnderstaffedAmong(AllSlots(days, shifts))
      ensures forall slot :: slot in understaffed <==>
                slot.0 in days && slot.1 in shifts && GetShiftCount(slot.0, slot.1) < minEmployeesPerShift
    {
      understaffed := [];
      for i := 0 to |days|
        invariant understaffed == UnderstaffedAmong(SlotsUpTo(days, shifts, i))
      {
        var day := days[i];
        assert SlotsUpTo(days, shifts, i) + DaySlots(day, shifts)[..0] == SlotsUpTo(days, shifts, i);
        for j := 0 to |shifts|
          invariant understaffed == UnderstaffedAmong(SlotsUpTo(days, shifts, i) + DaySlots(day, shifts)[..j])
        {
          var shift := shifts[j];
          ghost var before := SlotsUpTo(days, shifts, i) + DaySlots(day, shifts)[..j];
          ghost var after := SlotsUpTo(days, shifts, i) + DaySlots(day, shifts)[..j + 1];
          assert after[..|after| - 1] == before && after[|after| - 1] == (day, shift);
          if GetShiftCount(day, shift) < minEmployeesPerShift {
            understaffed := understaffed + [(day, shift)];
          }
        }
        assert DaySlots(day, shifts)[..|shifts|] == DaySlots(day, shifts);
      }
      UnderstaffedWeek();
    }
  }
}
