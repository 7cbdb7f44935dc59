/** An employee of the shift scheduler: ranked shift preferences per day, at
    most one assigned shift per day, and at most `maxDays` working days. */
module Employees {

  /** The most days anyone works in a week. */
  const MAX_DAYS: int := 5

  class Employee {
    const name: string
    /** day -> shifts, most wanted first */
    var preferences: map<string, seq<string>>
    /** day -> the shift worked that day */
    var assignedShifts: map<string, string>
    var daysWorked: int
    const maxDays: int

    /** The days worked are the assigned days, and there are at most five. */
    ghost predicate Valid()
      reads this
    {
      maxDays == MAX_DAYS && daysWorked == |assignedShifts| <= maxDays
    }

    constructor (name: string)
      ensures Valid()
      ensures this.name == name && preferences == map[] && assignedShifts == map[]
      ensures daysWorked == 0 && maxDays == MAX_DAYS
    {
      this.name := name;
      preferences := map[];
      assignedShifts := map[];
      daysWorked := 0;
      maxDays := MAX_DAYS;
    }

    /** Stores (a copy of) the ranked shifts for `day`, replacing any earlier
        ones. */
    method AddPreference(day: string, shiftPreferences: seq<string>)
      modifies this
      ensures preferences == old(preferences)[day := shiftPreferences]
      ensures assignedShifts == old(assignedShifts) && daysWorked == old(daysWorked)
    {
      preferences := preferences[day := shiftPreferences];
    }

    /** Free on `day`, and not yet at the limit of working days. */
    predicate IsAvailable(day: string): (available: bool)
      reads this
      ensures Valid() ==> (available <==> day !in assignedShifts && |assignedShifts| < MAX_DAYS)
    {
      day !in assignedShifts && daysWorked < maxDays
    }

    /** Succeeds exactly when the employee is available that day; then the day
        is booked on `shift` and counts as one more working day. A failed
        attempt changes nothing. */
    method AssignShift(day: string, shift: string) returns (ok: bool)
      requires Valid()
      modifies this
      ensures Valid()
      ensures ok == old(IsAvailable(day))
      ensures assignedShifts == if ok then old(assignedShifts)[day := shift] else old(assignedShifts)
      ensures daysWorked == if ok then old(daysWorked) + 1 else old(daysWorked)
      ensures preferences == old(preferences)
      ensures !ok ==> unchanged(this)
    {
      if daysWorked >= maxDays {
        return false;
      }
      if day !in assignedShifts {
        assignedShifts := assignedShifts[day := shift];
        daysWorked := daysWorked + 1;
        return true;
      }
      return false;
    }

    /** The ranked shifts for `day`; none when no preference was given. */
    function GetPreferredShifts(day: string): (ranked: seq<string>)
      reads this
      ensures day in preferences ==> ranked == preferences[day]
      ensures day !in preferences ==> ranked == []
    {
      if day in preferences then preferences[day] else []
    }

    method GetDaysWorked() returns (days: int)
      ensures days == daysWorked
    {
      days := daysWorked;
    }

    /** A copy of the assignments; the caller cannot reach the employee's own
        map through it. */
    method GetAssignedShifts() returns (copy: map<string, string>)
      ensures copy == assignedShifts
    {
      copy := assignedShifts;
    }
  }
}
