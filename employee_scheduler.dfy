/** The scheduler: a list of employees and one weekly schedule, filled by a
    three-pass greedy (first preference, ranked fallback, filling understaffed
    slots at random). Both the Java program and its Python port follow this
    algorithm step for step. */
module EmployeeSchedulers {
  import opened Employees
  import opened Schedules

  /** The shifts `collectEmployeeData` keeps from the ones typed in: those
      among the `known` shift names, in the order given. */
  function ValidShifts(tokens: seq<string>, known: seq<string>): (valid: seq<string>)
    ensures |valid| <= |tokens|
    ensures forall k :: 0 <= k < |valid| ==> valid[k] in known && valid[k] in tokens
    ensures forall t :: t in tokens && t in known ==> t in valid
  {
    if tokens == [] then []
    else
      var init := tokens[..|tokens| - 1];
      var last := tokens[|tokens| - 1];
      assert forall t :: t in tokens ==> t in init || t == last;
      ValidShifts(init, known) + (if last in known then [last] else [])
  }

  /** The filtering loop of `collectEmployeeData`. */
  method KeepKnownShifts(tokens: seq<string>, known: seq<string>) returns (valid: seq<string>)
    ensures valid == ValidShifts(tokens, known)
  {
    valid := [];
    for i := 0 to |tokens|
      invariant valid == ValidShifts(tokens[..i], known)
    {
      assert tokens[..i + 1][..i] == tokens[..i];
      if tokens[i] in known {
        valid := valid + [tokens[i]];
      }
    }
    assert tokens[..|tokens|] == tokens;
  }

  /** The preferences `collectEmployeeData` records from the answers for
      `days`: `requests` maps a day the employee wants to work to the shift
      names typed for it; a day is kept when at least one of them is known. */
  function PreferencesOf(days: seq<string>, requests: map<string, seq<string>>, known: seq<string>): (prefs: map<string, seq<string>>)
    ensures forall day :: day in prefs <==> day in days && day in requests && ValidShifts(requests[day], known) != []
    ensures forall day :: day in prefs ==> prefs[day] == ValidShifts(requests[day], known)
  {
    if days == [] then map[]
    else
      var earlier := PreferencesOf(days[..|days| - 1], requests, known);
      var day := days[|days| - 1];
      assert forall d :: d in days <==> d in days[..|days| - 1] || d == day;
      if day in requests && ValidShifts(requests[day], known) != [] then earlier[day := ValidShifts(requests[day], known)]
      else earlier
  }

  /** Every ranked shift is one of `shifts`. */
  ghost predicate KnownPreferences(preferences: map<string, seq<string>>, shifts: seq<string>) {
    forall day, k :: day in preferences && 0 <= k < |preferences[day]| ==> IndexOf(shifts, preferences[day][k]) < |shifts|
  }

  /** `after` keeps every assignment of `before`. */
  ghost predicate Extends(before: map<string, string>, after: map<string, string>) {
    forall day :: day in before ==> day in after && after[day] == before[day]
  }

  lemma ExtendsSize(before: map<string, string>, after: map<string, string>)
    requires Extends(before, after)
    ensures |before| <= |after|
  {
    assert after.Keys == before.Keys + (after.Keys - before.Keys);
  }

  /** employee -> day -> the shift booked that day */
  type Bookings = map<Employee, map<string, string>>

  /** employee -> day -> the shifts ranked for that day */
  type Rankings = map<Employee, map<string, seq<string>>>

  /** The bookings and the table agree: an employee is listed for a slot
      exactly when booked on that shift that day. */
  ghost predicate Agree(bookings: Bookings, table: Table) {
    && (forall e, day :: e in bookings && day in bookings[e] ==> e in RosterIn(table, day, bookings[e][day]))
    && (forall day, shift, x :: x in RosterIn(table, day, shift) ==>
          x in bookings && day in bookings[x] && bookings[x][day] == shift)
  }

  /** No slot of `table` holds more than four. */
  ghost predicate WithinCapacity(table: Table) {
    forall day, shift :: |RosterIn(table, day, shift)| <= DEFAULT_MAX_PER_SHIFT
  }

  /** Booking a free day of an employee and listing them on that slot keeps
      the agreement. */
  lemma BookKeepsAgree(bookings: Bookings, table: Table, e: Employee, day: string, shift: string)
    requires Agree(bookings, table) && e in bookings && day !in bookings[e]
    requires day in table && shift in table[day]
    ensures Agree(bookings[e := bookings[e][day := shift]], Appended(table, day, shift, e))
  {
    var bookings', table' := bookings[e := bookings[e][day := shift]], Appended(table, day, shift, e);
    forall x, d | x in bookings' && d in bookings'[x]
      ensures x in RosterIn(table', d, bookings'[x][d])
    {
      if x != e || d != day {
        assert x in RosterIn(table, d, bookings'[x][d]);
      }
    }
    forall d, s, x | x in RosterIn(table', d, s)
      ensures x in bookings' && d in bookings'[x] && bookings'[x][d] == s
    {
      if d != day || s != shift || x != e {
        assert x in RosterIn(table, d, s);
      }
    }
  }

  /** A newcomer without bookings keeps the agreement. */
  lemma JoinKeepsAgree(bookings: Bookings, table: Table, e: Employee)
    requires Agree(bookings, table) && e !in bookings
    ensures Agree(bookings[e := map[]], table)
  {
  }

  /** Appending to a slot below capacity keeps every slot within it. */
  lemma AppendKeepsCapacity(table: Table, day: string, shift: string, e: Employee)
    requires WithinCapacity(table) && day in table && shift in table[day]
    requires |RosterIn(table, day, shift)| < DEFAULT_MAX_PER_SHIFT
    ensures WithinCapacity(Appended(table, day, shift, e))
  {
    var table' := Appended(table, day, shift, e);
    forall d, s ensures |RosterIn(table', d, s)| <= DEFAULT_MAX_PER_SHIFT {
      assert |RosterIn(table, d, s)| <= DEFAULT_MAX_PER_SHIFT;
    }
  }

  /** The slot (day, shift) of `table` holds four or more. */
  ghost predicate Full(table: Table, day: string, shift: string) {
    |RosterIn(table, day, shift)| >= DEFAULT_MAX_PER_SHIFT
  }

  /** No slot of `after` holds fewer than the same slot of `before`. */
  ghost predicate Grows(before: Table, after: Table) {
    forall day, shift :: |RosterIn(before, day, shift)| <= |RosterIn(after, day, shift)|
  }

  lemma AppendedGrows(table: Table, day: string, shift: string, employee: Employee)
    requires day in table && shift in table[day]
    ensures Grows(table, Appended(table, day, shift, employee))
  {
  }

  lemma GrowsTransitive(t1: Table, t2: Table, t3: Table)
    requires Grows(t1, t2) && Grows(t2, t3)
    ensures Grows(t1, t3)
  {
    forall day, shift ensures |RosterIn(t1, day, shift)| <= |RosterIn(t3, day, shift)| {
      assert |RosterIn(t1, day, shift)| <= |RosterIn(t2, day, shift)|;
    }
  }

  /** `isAvailable` of an employee with these bookings, whose count of days
      worked is the number of bookings: not booked that day and below the
      cap of working days. */
  ghost predicate Free(booked: map<string, string>, day: string) {
    day !in booked && |booked| < MAX_DAYS
  }

  /** The two preference passes of `assignEmployees`: the first books the
      first ranked shift of a day, the second the first ranked shift that is
      not full. */
  datatype Pass = FirstPreference | RankedPreference

  /** What a pass leaves for one day of one employee: no longer free, no
      ranked shifts for the day, or the first of them (the first pass) or
      all of them (the second pass) full. */
  ghost predicate Settled(pass: Pass, booked: map<string, string>, prefs: map<string, seq<string>>, table: Table, day: string) {
    || !Free(booked, day)
    || day !in prefs
    || match pass
       case FirstPreference => prefs[day] == [] || Full(table, day, prefs[day][0])
       case RankedPreference => forall k :: 0 <= k < |prefs[day]| ==> Full(table, day, prefs[day][k])
  }

  /** A booking of `shift` on `day` a pass may make: the first ranked shift
      (the first pass), or a ranked shift every better-ranked one of which is
      full (the second pass). */
  ghost predicate Chosen(pass: Pass, prefs: map<string, seq<string>>, table: Table, day: string, shift: string) {
    && day in prefs
    && match pass
       case FirstPreference => prefs[day] != [] && shift == prefs[day][0]
       case RankedPreference =>
         IndexOf(prefs[day], shift) < |prefs[day]|
         && forall k :: 0 <= k < IndexOf(prefs[day], shift) ==> Full(table, day, prefs[day][k])
  }

  /** Every booking made since `before` is one the pass may make. */
  ghost predicate Choices(pass: Pass, before: map<string, string>, after: map<string, string>,
                          prefs: map<string, seq<string>>, table: Table)
  {
    forall day :: day in after && day !in before ==> Chosen(pass, prefs, table, day, after[day])
  }

  /** A settled day stays settled while the employee's bookings grow and the
      slots fill up. */
  lemma SettledKept(pass: Pass, booked: map<string, string>, booked': map<string, string>,
                    prefs: map<string, seq<string>>, table: Table, table': Table, day: string)
    requires Settled(pass, booked, prefs, table, day)
    requires Extends(booked, booked') && Grows(table, table')
    ensures Settled(pass, booked', prefs, table', day)
  {
    ExtendsSize(booked, booked');
    if Free(booked', day) && day in prefs {
      match pass
      case FirstPreference =>
        if prefs[day] != [] {
          assert |RosterIn(table, day, prefs[day][0])| <= |RosterIn(table', day, prefs[day][0])|;
        }
      case RankedPreference =>
        forall k | 0 <= k < |prefs[day]| ensures Full(table', day, prefs[day][k]) {
          assert |RosterIn(table, day, prefs[day][k])| <= |RosterIn(table', day, prefs[day][k])|;
        }
    }
  }

  /** The first `n` of `days` stay settled while the employee's bookings
      grow and the slots fill up. */
  lemma SettledKeptUpTo(pass: Pass, booked: map<string, string>, booked': map<string, string>,
                        prefs: map<string, seq<string>>, table: Table, table': Table, days: seq<string>, n: nat)
    requires n <= |days|
    requires forall k :: 0 <= k < n ==> Settled(pass, booked, prefs, table, days[k])
    requires Extends(booked, booked') && Grows(table, table')
    ensures forall k :: 0 <= k < n ==> Settled(pass, booked', prefs, table', days[k])
  {
    forall k | 0 <= k < n ensures Settled(pass, booked', prefs, table', days[k]) {
      SettledKept(pass, booked, booked', prefs, table, table', days[k]);
    }
  }

  /** The choices of a pass stay allowed while the slots fill up, and those
      of two stretches of the pass make up the choices of both. */
  lemma ChoicesTransitive(pass: Pass, a1: map<string, string>, a2: map<string, string>, a3: map<string, string>,
                          prefs: map<string, seq<string>>, t2: Table, t3: Table)
    requires Choices(pass, a1, a2, prefs, t2) && Choices(pass, a2, a3, prefs, t3)
    requires Extends(a1, a2) && Extends(a2, a3) && Grows(t2, t3)
    ensures Choices(pass, a1, a3, prefs, t3) && Extends(a1, a3)
  {
    forall day | day in a3 && day !in a1 ensures Chosen(pass, prefs, t3, day, a3[day]) {
      if day in a2 && pass == RankedPreference {
        var shift := a3[day];
        forall k | 0 <= k < IndexOf(prefs[day], shift) ensures Full(t3, day, prefs[day][k]) {
          assert |RosterIn(t2, day, prefs[day][k])| <= |RosterIn(t3, day, prefs[day][k])|;
        }
      }
    }
  }

  /** The position of the first occurrence is at most that of any. */
  lemma {:induction false} IndexOfAtMost(s: seq<string>, k: nat)
    requires k < |s|
    ensures IndexOf(s, s[k]) <= k
  {
    if s[0] != s[k] {
      IndexOfAtMost(s[1..], k - 1);
    }
  }

  /** Booking the k-th ranked shift of a free day, every better-ranked one
      being full and k being 0 in the first pass, is a choice the pass may
      make, and settles the day. */
  lemma ChoiceBooked(pass: Pass, booked: map<string, string>, prefs: map<string, seq<string>>,
                     table: Table, table': Table, day: string, k: nat)
    requires Free(booked, day) && day in prefs && k < |prefs[day]| && (pass == FirstPreference ==> k == 0)
    requires forall m :: 0 <= m < k ==> Full(table, day, prefs[day][m])
    requires Grows(table, table')
    ensures Extends(booked, booked[day := prefs[day][k]])
    ensures Choices(pass, booked, booked[day := prefs[day][k]], prefs, table')
    ensures Settled(pass, booked[day := prefs[day][k]], prefs, table', day)
  {
    IndexOfAtMost(prefs[day], k);
    forall m | 0 <= m < IndexOf(prefs[day], prefs[day][k]) ensures Full(table', day, prefs[day][m]) {
      assert |RosterIn(table, day, prefs[day][m])| <= |RosterIn(table', day, prefs[day][m])|;
    }
  }

  /** Every employee's bookings are kept. */
  ghost predicate StaffExtends(before: Bookings, after: Bookings) {
    forall e :: e in before ==> e in after && Extends(before[e], after[e])
  }

  /** Every day of every employee of `staff` is settled by the pass. */
  ghost predicate PassDone(pass: Pass, bookings: Bookings, ranked: Rankings, table: Table, staff: seq<Employee>, days: seq<string>) {
    forall e, k :: e in staff && e in bookings && e in ranked && 0 <= k < |days| ==>
      Settled(pass, bookings[e], ranked[e], table, days[k])
  }

  /** Every booking made since `before` is one the pass may make. */
  ghost predicate PassMade(pass: Pass, before: Bookings, after: Bookings, ranked: Rankings, table: Table) {
    forall e :: e in before && e in after && e in ranked ==> Choices(pass, before[e], after[e], ranked[e], table)
  }

  /** Only the bookings of `employee` may differ. */
  ghost predicate OnlyFor(before: Bookings, after: Bookings, employee: Employee) {
    && (forall e :: e in before ==> e in after)
    && (forall e :: e in after ==> e in before)
    && (forall e :: e in before && e != employee ==> after[e] == before[e])
  }

  /** The turn of the j-th employee of `staff` in a pass keeps the pass's
      facts about everyone and settles that employee too. */
  lemma PassStep(pass: Pass, b0: Bookings, b: Bookings, b': Bookings, ranked: Rankings,
                 t: Table, t': Table, staff: seq<Employee>, j: nat, days: seq<string>)
    requires j < |staff| && staff[j] in b && staff[j] in ranked
    requires StaffExtends(b0, b) && PassMade(pass, b0, b, ranked, t) && PassDone(pass, b, ranked, t, staff[..j], days)
    requires OnlyFor(b, b', staff[j]) && Grows(t, t')
    requires Extends(b[staff[j]], b'[staff[j]]) && Choices(pass, b[staff[j]], b'[staff[j]], ranked[staff[j]], t')
    requires forall k :: 0 <= k < |days| ==> Settled(pass, b'[staff[j]], ranked[staff[j]], t', days[k])
    ensures StaffExtends(b0, b') && PassMade(pass, b0, b', ranked, t') && PassDone(pass, b', ranked, t', staff[..j + 1], days)
  {
    var e := staff[j];
    forall x | x in b0 ensures x in b' && Extends(b0[x], b'[x]) && (x in ranked ==> Choices(pass, b0[x], b'[x], ranked[x], t')) {
      if x == e {
        ChoicesTransitive(pass, b0[x], b[x], b'[x], ranked[x], t, t');
      } else if x in ranked {
        ChoicesTransitive(pass, b0[x], b[x], b[x], ranked[x], t, t');
      }
    }
    assert staff[..j + 1] == staff[..j] + [e];
    forall x, k | x in staff[..j + 1] && x in b' && x in ranked && 0 <= k < |days|
      ensures Settled(pass, b'[x], ranked[x], t', days[k])
    {
      if x != e {
        SettledKept(pass, b[x], b'[x], ranked[x], t, t', days[k]);
      }
    }
  }

  lemma PassDoneAll(pass: Pass, bookings: Bookings, ranked: Rankings, table: Table, staff: seq<Employee>, days: seq<string>)
    requires PassDone(pass, bookings, ranked, table, staff[..|staff|], days)
    ensures PassDone(pass, bookings, ranked, table, staff, days)
  {
    assert staff[..|staff|] == staff;
  }

  lemma StaffExtendsTransitive(b1: Bookings, b2: Bookings, b3: Bookings)
    requires StaffExtends(b1, b2) && StaffExtends(b2, b3)
    ensures StaffExtends(b1, b3)
  {
  }

  /** No employee occurs twice. */
  ghost predicate Distinct(staff: seq<Employee>) {
    forall i, j :: 0 <= i < j < |staff| ==> staff[i] != staff[j]
  }

  lemma DistinctAppend(staff: seq<Employee>, e: Employee)
    requires e !in staff
    ensures Distinct(staff) ==> Distinct(staff + [e])
  {
  }

  /** `order` lists each of the positions 0 .. n-1 once: a permutation of
      them, as a random shuffle of a list of n makes. */
  ghost predicate Permutes(order: seq<nat>, n: nat) {
    && |order| == n
    && (forall u :: 0 <= u < n ==> order[u] < n)
    && (forall u, v :: 0 <= u < v < n ==> order[u] != order[v])
    && (forall k :: 0 <= k < n ==> k in order)
  }

  /** `shuffle(n)` is some permutation of the positions of a list of n. */
  ghost predicate Shuffles(shuffle: nat -> seq<nat>) {
    forall n: nat :: Permutes(shuffle(n), n)
  }

  /** `xs` rearranged by `order`: its u-th element is the element of `xs`
      at position order[u]. */
  function Reordered(xs: seq<Employee>, order: seq<nat>): (ys: seq<Employee>)
    requires Permutes(order, |xs|)
    ensures |ys| == |xs|
  {
    seq(|xs|, u requires 0 <= u < |xs| => xs[order[u]])
  }

  /** A rearrangement holds the same employees, and as few repeats. */
  lemma ReorderedMembers(xs: seq<Employee>, order: seq<nat>)
    requires Permutes(order, |xs|)
    ensures forall y :: y in Reordered(xs, order) ==> y in xs
    ensures forall y :: y in xs ==> y in Reordered(xs, order)
    ensures Distinct(xs) ==> Distinct(Reordered(xs, order))
  {
    var ys := Reordered(xs, order);
    forall y | y in xs ensures y in ys {
      var k :| 0 <= k < |xs| && xs[k] == y;
      assert k in order;
      var u :| 0 <= u < |order| && order[u] == k;
      assert ys[u] == y;
    }
  }

  /** The employees of `staff` free on `day`, in their order. */
  ghost function FreeAmong(staff: seq<Employee>, bookings: Bookings, day: string): (free: seq<Employee>)
    requires forall e :: e in staff ==> e in bookings
    ensures forall e :: e in free ==> e in staff
    ensures forall e :: e in staff ==> (e in free <==> Free(bookings[e], day))
  {
    if staff == [] then []
    else
      var init, last := staff[..|staff| - 1], staff[|staff| - 1];
      assert staff == init + [last];
      FreeAmong(init, bookings, day) + if Free(bookings[last], day) then [last] else []
  }

  /** A prefix of a repeat-free arrangement of the free employees has no
      repeats and holds only employees of the list free that day. */
  lemma SelectedFree(staff: seq<Employee>, bookings: Bookings, day: string, shuffled: seq<Employee>, n: nat)
    requires forall e :: e in staff ==> e in bookings
    requires forall y :: y in shuffled ==> y in FreeAmong(staff, bookings, day)
    requires Distinct(shuffled) && n <= |shuffled|
    ensures Distinct(shuffled[..n])
    ensures forall u :: 0 <= u < n ==> shuffled[..n][u] in staff && Free(bookings[shuffled[..n][u]], day)
  {
    forall u | 0 <= u < n ensures shuffled[..n][u] in staff && Free(bookings[shuffled[..n][u]], day) {
      assert shuffled[..n][u] == shuffled[u] && shuffled[u] in shuffled;
    }
  }

  lemma {:induction false} FreeAmongDistinct(staff: seq<Employee>, bookings: Bookings, day: string)
    requires forall e :: e in staff ==> e in bookings
    requires Distinct(staff)
    ensures Distinct(FreeAmong(staff, bookings, day))
  {
    if staff != [] {
      var init, last := staff[..|staff| - 1], staff[|staff| - 1];
      assert staff == init + [last];
      assert Distinct(init) by {
        forall i, j | 0 <= i < j < |init| ensures init[i] != init[j] {
          assert init[i] == staff[i] && init[j] == staff[j];
        }
      }
      assert last !in init by {
        forall i | 0 <= i < |init| ensures init[i] != last {
          assert init[i] == staff[i];
        }
      }
      FreeAmongDistinct(init, bookings, day);
      var earlier := FreeAmong(init, bookings, day);
      var free := FreeAmong(staff, bookings, day);
      assert free == earlier + if Free(bookings[last], day) then [last] else [];
      forall i, j | 0 <= i < j < |free| ensures free[i] != free[j] {
        assert free[i] == earlier[i];
        if j < |earlier| {
          assert free[j] == earlier[j];
        } else {
          assert free[j] == last && earlier[i] in earlier;
        }
      }
    }
  }

  /** Nobody of `staff` is free on `day`. */
  ghost predicate NoneFree(bookings: Bookings, staff: seq<Employee>, day: string) {
    forall e :: e in staff ==> e in bookings && !Free(bookings[e], day)
  }

  /** The slot (day, shift) has the minimum `min`, or nobody of `staff` is
      free that day to join it. */
  ghost predicate Staffed(table: Table, bookings: Bookings, staff: seq<Employee>, day: string, shift: string, min: int) {
    |RosterIn(table, day, shift)| >= min || NoneFree(bookings, staff, day)
  }

  lemma StaffedKept(t: Table, t': Table, b: Bookings, b': Bookings, staff: seq<Employee>, day: string, shift: string, min: int)
    requires Staffed(t, b, staff, day, shift, min) && Grows(t, t') && StaffExtends(b, b')
    ensures Staffed(t', b', staff, day, shift, min)
  {
    if |RosterIn(t, day, shift)| < min {
      forall e | e in staff ensures e in b' && !Free(b'[e], day) {
        ExtendsSize(b[e], b'[e]);
      }
    }
  }

  /** Only the slot (day, shift) may differ. */
  ghost predicate OnlySlot(before: Table, after: Table, day: string, shift: string) {
    forall d, s :: d != day || s != shift ==> RosterIn(after, d, s) == RosterIn(before, d, s)
  }

  /** The slots that had the minimum `min` in `before` are unchanged, and
      the others have at most the minimum. */
  ghost predicate Topped(before: Table, after: Table, min: int) {
    forall d, s :: if |RosterIn(before, d, s)| >= min then RosterIn(after, d, s) == RosterIn(before, d, s)
                   else |RosterIn(after, d, s)| <= min
  }

  /** The fill of the slot (day, shift) after the first t of `selected`:
      each of them is booked that day and listed last for the slot, the
      others of them are as they were, and no other slot changed. */
  ghost predicate Filled(b0: Bookings, b: Bookings, t0: Table, table: Table, selected: seq<Employee>, t: nat, day: string, shift: string)
    requires t <= |selected|
  {
    FilledBookings(b0, b, selected, t, day) && FilledRoster(t0, table, selected, t, day, shift)
  }

  ghost predicate FilledBookings(b0: Bookings, b: Bookings, selected: seq<Employee>, t: nat, day: string)
    requires t <= |selected|
  {
    && StaffExtends(b0, b)
    && (forall u :: 0 <= u < t ==> selected[u] in b && day in b[selected[u]])
    && (forall u :: t <= u < |selected| ==> selected[u] in b0 && selected[u] in b && b[selected[u]] == b0[selected[u]])
  }

  ghost predicate FilledRoster(t0: Table, table: Table, selected: seq<Employee>, t: nat, day: string, shift: string)
    requires t <= |selected|
  {
    RosterIn(table, day, shift) == RosterIn(t0, day, shift) + selected[..t] && OnlySlot(t0, table, day, shift)
  }

  /** Booking the t-th selected employee on (day, shift) and listing them
      last there carries the fill one further. */
  lemma FilledStep(b0: Bookings, b: Bookings, t0: Table, table: Table, table': Table,
                   selected: seq<Employee>, t: nat, day: string, shift: string)
    requires t < |selected| && Distinct(selected)
    requires Filled(b0, b, t0, table, selected, t, day, shift) && day !in b[selected[t]]
    requires RosterIn(table', day, shift) == RosterIn(table, day, shift) + [selected[t]]
    requires OnlySlot(table, table', day, shift)
    ensures Filled(b0, b[selected[t] := b[selected[t]][day := shift]], t0, table', selected, t + 1, day, shift)
  {
    var e := selected[t];
    var b' := b[e := b[e][day := shift]];
    assert selected[..t + 1] == selected[..t] + [e];
    forall u | t + 1 <= u < |selected| ensures b'[selected[u]] == b0[selected[u]] {
      assert selected[u] != e;
    }
  }

  /** A completed fill that selected everyone free leaves nobody free. */
  lemma FilledNoneFree(b0: Bookings, b: Bookings, t0: Table, table: Table, selected: seq<Employee>,
                       staff: seq<Employee>, day: string, shift: string)
    requires Filled(b0, b, t0, table, selected, |selected|, day, shift)
    requires forall e :: e in staff ==> e in b0
    requires forall e :: e in staff && Free(b0[e], day) ==> e in selected
    ensures NoneFree(b, staff, day)
  {
    forall e | e in staff ensures e in b && !Free(b[e], day) {
      if Free(b0[e], day) {
        var u :| 0 <= u < |selected| && selected[u] == e;
      } else {
        ExtendsSize(b0[e], b[e]);
      }
    }
  }

  /** The outcome of the fill of the slot (day, shift), from `t0` and `b0`
      to `t` and `b`: only that slot changed, and only by employees free
      that day joining it; a slot with the minimum `min` is as it was, any
      other gained as many as it lacked, or everyone free when fewer were;
      so it has the minimum, or nobody is free that day any more. */
  ghost predicate ToppedUp(t0: Table, t: Table, b0: Bookings, b: Bookings, staff: seq<Employee>,
                           day: string, shift: string, min: int)
    requires forall e :: e in staff ==> e in b0
  {
    var before, after, free := RosterIn(t0, day, shift), RosterIn(t, day, shift), FreeAmong(staff, b0, day);
    && StaffExtends(b0, b) && Grows(t0, t) && OnlySlot(t0, t, day, shift)
    && (|before| >= min ==> after == before)
    && (|before| < min ==> |after| == if min < |before| + |free| then min else |before| + |free|)
    && (forall x :: x in after ==> x in before || x in free)
    && Staffed(t, b, staff, day, shift, min)
  }

  /** With nothing missing or nobody free, the fill changes nothing. */
  lemma FillNothing(t: Table, b: Bookings, staff: seq<Employee>, day: string, shift: string, min: int)
    requires forall e :: e in staff ==> e in b
    requires |RosterIn(t, day, shift)| >= min || FreeAmong(staff, b, day) == []
    ensures ToppedUp(t, t, b, b, staff, day, shift, min)
  {
  }

  /** The fill that booked the first toSelect of the free employees, in
      some order, where toSelect is what the slot lacked or, when fewer,
      all of them. */
  lemma FillSome(t0: Table, t: Table, b0: Bookings, b: Bookings, staff: seq<Employee>, shuffled: seq<Employee>,
                 toSelect: nat, day: string, shift: string, min: int)
    requires forall e :: e in staff ==> e in b0
    requires forall y :: y in shuffled ==> y in FreeAmong(staff, b0, day)
    requires forall y :: y in FreeAmong(staff, b0, day) ==> y in shuffled
    requires |shuffled| == |FreeAmong(staff, b0, day)|
    requires 0 < toSelect <= |shuffled| && toSelect <= min - |RosterIn(t0, day, shift)|
    requires toSelect == |shuffled| || toSelect == min - |RosterIn(t0, day, shift)|
    requires Filled(b0, b, t0, t, shuffled[..toSelect], toSelect, day, shift)
    ensures ToppedUp(t0, t, b0, b, staff, day, shift, min)
  {
    var selected := shuffled[..toSelect];
    assert selected[..toSelect] == selected;
    forall x | x in RosterIn(t, day, shift) ensures x in RosterIn(t0, day, shift) || x in FreeAmong(staff, b0, day) {
      if x !in RosterIn(t0, day, shift) {
        assert x in selected;
      }
    }
    if toSelect == |shuffled| {
      assert selected == shuffled;
      FilledNoneFree(b0, b, t0, t, selected, staff, day, shift);
    }
  }

  /** The fill from `t0` and `b0` after the first i of the `understaffed`
      slots: bookings are only added, slots only grow, no slot is taken past
      the minimum and those that had it are unchanged, and each slot done is
      staffed. */
  ghost predicate FillSoFar(b0: Bookings, b: Bookings, t0: Table, t: Table, understaffed: seq<Slot>, i: nat,
                            staff: seq<Employee>, min: int)
    requires i <= |understaffed|
  {
    && StaffExtends(b0, b) && Grows(t0, t) && Topped(t0, t, min)
    && forall slot :: slot in understaffed[..i] ==> Staffed(t, b, staff, slot.0, slot.1, min)
  }

  /** A fill through a list of all slots below the minimum staffs each of them. */
  lemma FillDone(b0: Bookings, b: Bookings, t0: Table, t: Table, understaffed: seq<Slot>,
                 staff: seq<Employee>, min: int, days: seq<string>, shifts: seq<string>)
    requires FillSoFar(b0, b, t0, t, understaffed, |understaffed|, staff, min)
    requires forall slot: Slot :: slot.0 in days && slot.1 in shifts && |RosterIn(t0, slot.0, slot.1)| < min ==> slot in understaffed
    ensures forall day, shift :: day in days && shift in shifts && |RosterIn(t0, day, shift)| < min ==>
              Staffed(t, b, staff, day, shift, min)
  {
    assert understaffed[..|understaffed|] == understaffed;
    forall day, shift | day in days && shift in shifts && |RosterIn(t0, day, shift)| < min
      ensures Staffed(t, b, staff, day, shift, min)
    {
      assert (day, shift) in understaffed;
    }
  }

  /** Filling one slot as `ToppedUp` says keeps `Topped`. */
  lemma ToppedKept(t0: Table, t: Table, t': Table, day: string, shift: string, min: int)
    requires Topped(t0, t, min) && OnlySlot(t, t', day, shift)
    requires if |RosterIn(t, day, shift)| >= min then RosterIn(t', day, shift) == RosterIn(t, day, shift)
             else |RosterIn(t', day, shift)| <= min
    ensures Topped(t0, t', min)
  {
    forall d, s ensures if |RosterIn(t0, d, s)| >= min then RosterIn(t', d, s) == RosterIn(t0, d, s)
                        else |RosterIn(t', d, s)| <= min
    {
      if d != day || s != shift {
        assert RosterIn(t', d, s) == RosterIn(t, d, s);
      }
    }
  }

  /** The slots done stay staffed, and the i-th is staffed too. */
  lemma StaffedStep(understaffed: seq<Slot>, i: nat, t: Table, t': Table, b: Bookings, b': Bookings,
                    staff: seq<Employee>, min: int)
    requires i < |understaffed| && Grows(t, t') && StaffExtends(b, b')
    requires forall slot :: slot in understaffed[..i] ==> Staffed(t, b, staff, slot.0, slot.1, min)
    requires Staffed(t', b', staff, understaffed[i].0, understaffed[i].1, min)
    ensures forall slot :: slot in understaffed[..i + 1] ==> Staffed(t', b', staff, slot.0, slot.1, min)
  {
    assert understaffed[..i + 1] == understaffed[..i] + [understaffed[i]];
    forall slot | slot in understaffed[..i] ensures Staffed(t', b', staff, slot.0, slot.1, min) {
      StaffedKept(t, t', b, b', staff, slot.0, slot.1, min);
    }
  }

  /** The fill of the i-th listed slot keeps the facts about the fill so far
      and staffs that slot too. */
  lemma FillStep(understaffed: seq<Slot>, i: nat, b0: Bookings, b: Bookings, b': Bookings,
                 t0: Table, t: Table, t': Table, staff: seq<Employee>, min: int)
    requires i < |understaffed| && forall e :: e in staff ==> e in b
    requires FillSoFar(b0, b, t0, t, understaffed, i, staff, min)
    requires ToppedUp(t, t', b, b', staff, understaffed[i].0, understaffed[i].1, min)
    ensures FillSoFar(b0, b', t0, t', understaffed, i + 1, staff, min)
  {
    var (day, shift) := understaffed[i];
    StaffExtendsTransitive(b0, b, b');
    GrowsTransitive(t0, t, t');
    ToppedKept(t0, t, t', day, shift, min);
    StaffedStep(understaffed, i, t, t', b, b', staff, min);
  }

  /** The fill keeps every day settled by the second pass, and with it every
      slot has the minimum or nobody is free that day. */
  lemma AssignDone(b: Bookings, b': Bookings, ranked: Rankings, t: Table, t': Table, staff: seq<Employee>,
                   days: seq<string>, shifts: seq<string>, min: int)
    requires forall e :: e in staff ==> e in b
    requires PassDone(RankedPreference, b, ranked, t, staff, days)
    requires StaffExtends(b, b') && Grows(t, t')
    requires forall day, shift :: day in days && shift in shifts && |RosterIn(t, day, shift)| < min ==>
               Staffed(t', b', staff, day, shift, min)
    ensures PassDone(RankedPreference, b', ranked, t', staff, days)
    ensures forall day, shift :: day in days && shift in shifts ==> Staffed(t', b', staff, day, shift, min)
  {
    forall e, k | e in staff && e in b' && e in ranked && 0 <= k < |days|
      ensures Settled(RankedPreference, b'[e], ranked[e], t', days[k])
    {
      SettledKept(RankedPreference, b[e], b'[e], ranked[e], t, t', days[k]);
    }
    forall day, shift | day in days && shift in shifts ensures Staffed(t', b', staff, day, shift, min) {
      assert |RosterIn(t, day, shift)| <= |RosterIn(t', day, shift)|;
    }
  }

  /** The employee `collectEmployeeData` creates: the name, and for each of
      `days` the known shifts typed for it. */
  method NewEmployee(name: string, days: seq<string>, requests: map<string, seq<string>>, known: seq<string>)
    returns (employee: Employee)
    ensures fresh(employee) && employee.Valid() && employee.name == name
    ensures employee.assignedShifts == map[] && employee.daysWorked == 0
    ensures employee.preferences == PreferencesOf(days, requests, known)
  {
    employee := new Employee(name);
    for i := 0 to |days|
      invariant fresh(employee) && employee.Valid() && employee.name == name
      invariant employee.assignedShifts == map[] && employee.daysWorked == 0
      invariant employee.preferences == PreferencesOf(days[..i], requests, known)
    {
      var day := days[i];
      assert days[..i + 1][..i] == days[..i];
      if day in requests && requests[day] != [] {
        var valid := KeepKnownShifts(requests[day], known);
        if valid != [] {
          employee.AddPreference(day, valid);
        }
      }
    }
    assert days[..|days|] == days;
  }

  /** Recorded preferences name known shifts only. */
  lemma ChosenShiftsKnown(days: seq<string>, requests: map<string, seq<string>>, known: seq<string>)
    ensures KnownPreferences(PreferencesOf(days, requests, known), known)
  {
    var prefs := PreferencesOf(days, requests, known);
    forall day, k | day in prefs && 0 <= k < |prefs[day]|
      ensures IndexOf(known, prefs[day][k]) < |known|
    {
      IndexOfFinds(known, prefs[day][k]);
    }
  }

  class EmployeeScheduler {
    var employees: seq<Employee>
    const schedule: Schedule

    /** Each employee's bookings, as last recorded by the scheduler. */
    ghost var bookings: Bookings
    /** Every employee is valid, ranks known shifts only and has the
        bookings recorded for them. */
    ghost predicate StaffValid()
      reads this, employees
    {
      forall e :: e in employees ==>
        e.Valid() && KnownPreferences(e.preferences, schedule.shifts) && e in bookings && bookings[e] == e.assignedShifts
    }

    /** The bookings are recorded for the employees only; the schedule and
        the bookings agree, and no slot is over capacity. */
    ghost predicate Valid()
      reads this, schedule, employees
    {
      && schedule.Shaped()
      && StaffValid()
      && (forall e :: e in bookings ==> e in employees)
      && Agree(bookings, schedule.schedule)
      && WithinCapacity(schedule.schedule)
    }

    constructor ()
      ensures Valid() && employees == [] && fresh(schedule)
      ensures schedule.days == DAYS && schedule.shifts == SHIFTS
      ensures forall day, shift :: schedule.Roster(day, shift) == []
    {
      employees := [];
      schedule := new Schedule();
      bookings := map[];
      new;
      assert forall d, s :: RosterIn(schedule.schedule, d, s) == schedule.Roster(d, s) == [];
    }

    /** One round of `collectEmployeeData`: an empty name is refused;
        otherwise a new employee with that name joins the list, with the
        ranked known shifts typed for each day as preferences. */
    method AddEmployee(name: string, requests: map<string, seq<string>>) returns (added: bool)
      requires Valid()
      modifies this
      ensures Valid() && schedule.schedule == old(schedule.schedule)
      ensures added <==> name != ""
      ensures !added ==> employees == old(employees)
      ensures added ==> |employees| == |old(employees)| + 1 && employees[..|old(employees)|] == old(employees)
      ensures added ==> var e := employees[|old(employees)|];
                fresh(e) && e.name == name && e.assignedShifts == map[] && e.daysWorked == 0
                && e.preferences == PreferencesOf(schedule.days, requests, schedule.shifts)
      ensures old(Distinct(employees)) ==> Distinct(employees)
    {
      if name == "" {
        return false;
      }
      var employee := NewEmployee(name, schedule.days, requests, schedule.shifts);
      ChosenShiftsKnown(schedule.days, requests, schedule.shifts);
      Join(employee);
      return true;
    }

    /** Appends an employee who is not yet known and has no bookings. */
    method Join(employee: Employee)
      requires Valid() && employee !in employees && employee !in bookings
      requires employee.Valid() && employee.assignedShifts == map[]
      requires KnownPreferences(employee.preferences, schedule.shifts)
      modifies this
      ensures Valid() && employees == old(employees) + [employee]
      ensures old(Distinct(employees)) ==> Distinct(employees)
    {
      JoinKeepsAgree(bookings, schedule.schedule, employee);
      DistinctAppend(employees, employee);
      employees := employees + [employee];
      bookings := bookings[employee := map[]];
      forall e | e in employees
        ensures e.Valid() && KnownPreferences(e.preferences, schedule.shifts) && e in bookings && bookings[e] == e.assignedShifts
      {
        if e != employee {
          assert e in old(employees);
        }
      }
    }

    /** A preference pass of `assignEmployees`: each employee in turn, each
        day of the week in turn. Afterwards every day of every employee is
        settled and every booking made is one the pass may make. */
    method RunPass(pass: Pass)
      requires Valid()
      modifies this, schedule, employees
      ensures Valid() && employees == old(employees)
      ensures forall e :: e in employees ==> e.preferences == old(e.preferences)
      ensures StaffExtends(old(bookings), bookings)
      ensures forall e :: e in employees ==>
                Choices(pass, old(bookings)[e], bookings[e], e.preferences, schedule.schedule)
      ensures forall e, k :: e in employees && 0 <= k < |schedule.days| ==>
                Settled(pass, bookings[e], e.preferences, schedule.schedule, schedule.days[k])
      ensures Grows(old(schedule.schedule), schedule.schedule)
    {
      ghost var ranked: Rankings := map e | e in employees :: e.preferences;
      for j := 0 to |employees|
        invariant Valid() && employees == old(employees)
        invariant forall e :: e in employees ==> e in ranked && ranked[e] == old(e.preferences)
        invariant forall e :: e in employees ==> e.preferences == ranked[e]
        invariant StaffExtends(old(bookings), bookings)
        invariant PassMade(pass, old(bookings), bookings, ranked, schedule.schedule)
        invariant PassDone(pass, bookings, ranked, schedule.schedule, employees[..j], schedule.days)
        invariant Grows(old(schedule.schedule), schedule.schedule)
      {
        Turn(pass, j, ranked, old(bookings), old(schedule.schedule));
      }
      PassDoneAll(pass, bookings, ranked, schedule.schedule, employees, schedule.days);
    }

    /** The j-th employee's turn in a pass. */
    method Turn(pass: Pass, j: nat, ghost ranked: Rankings, ghost b0: Bookings, ghost t0: Table)
      requires Valid() && j < |employees|
      requires forall e :: e in employees ==> e in ranked && e.preferences == ranked[e]
      requires StaffExtends(b0, bookings) && PassMade(pass, b0, bookings, ranked, schedule.schedule)
      requires PassDone(pass, bookings, ranked, schedule.schedule, employees[..j], schedule.days)
      requires Grows(t0, schedule.schedule)
      modifies this, schedule, employees[j]
      ensures Valid() && employees == old(employees)
      ensures forall e :: e in employees ==> e.preferences == ranked[e]
      ensures StaffExtends(b0, bookings) && PassMade(pass, b0, bookings, ranked, schedule.schedule)
      ensures PassDone(pass, bookings, ranked, schedule.schedule, employees[..j + 1], schedule.days)
      ensures Grows(t0, schedule.schedule)
    {
      var employee := employees[j];
      ghost var b, t := bookings, schedule.schedule;
      PassFor(pass, employee);
      forall e | e in employees ensures e.preferences == ranked[e] {
        if e != employee {
          assert e.preferences == old(e.preferences);
        }
      }
      PassStep(pass, b0, b, bookings, ranked, t, schedule.schedule, employees, j, schedule.days);
      GrowsTransitive(t0, t, schedule.schedule);
    }

    /** A pass for one employee: each day of the week in turn. */
    method PassFor(pass: Pass, employee: Employee)
      requires Valid() && employee in employees
      modifies this, employee, schedule
      ensures Valid() && employees == old(employees)
      ensures employee.preferences == old(employee.preferences)
      ensures employee in bookings && OnlyFor(old(bookings), bookings, employee)
      ensures Extends(old(bookings)[employee], bookings[employee])
      ensures Choices(pass, old(bookings)[employee], bookings[employee], employee.preferences, schedule.schedule)
      ensures forall k :: 0 <= k < |schedule.days| ==>
                Settled(pass, bookings[employee], employee.preferences, schedule.schedule, schedule.days[k])
      ensures Grows(old(schedule.schedule), schedule.schedule)
    {
      for i := 0 to |schedule.days|
        invariant Valid() && employees == old(employees)
        invariant employee.preferences == old(employee.preferences)
        invariant employee in bookings && OnlyFor(old(bookings), bookings, employee)
        invariant Extends(old(bookings)[employee], bookings[employee])
        invariant Choices(pass, old(bookings)[employee], bookings[employee], employee.preferences, schedule.schedule)
        invariant forall k :: 0 <= k < i ==>
                    Settled(pass, bookings[employee], employee.preferences, schedule.schedule, schedule.days[k])
        invariant Grows(old(schedule.schedule), schedule.schedule)
      {
        ghost var b, t := bookings, schedule.schedule;
        PassOn(pass, employee, i);
        GrowsTransitive(old(schedule.schedule), t, schedule.schedule);
        ChoicesTransitive(pass, old(bookings)[employee], b[employee], bookings[employee], employee.preferences, t, schedule.schedule);
      }
    }

    /** A pass for one employee and the i-th day of the week: nothing when
        the employee is unavailable or has no ranked shifts for the day;
        otherwise the first ranked shift unless it is full (the first pass),
        or the first ranked shift that is not full (the second pass). The
        days before it stay settled. */
    method PassOn(pass: Pass, employee: Employee, i: nat)
      requires Valid() && employee in employees && i < |schedule.days|
      requires forall k :: 0 <= k < i ==>
                 Settled(pass, bookings[employee], employee.preferences, schedule.schedule, schedule.days[k])
      modifies this, employee, schedule
      ensures Valid() && employees == old(employees)
      ensures employee.preferences == old(employee.preferences)
      ensures employee in bookings && OnlyFor(old(bookings), bookings, employee)
      ensures Extends(old(bookings)[employee], bookings[employee])
      ensures Choices(pass, old(bookings)[employee], bookings[employee], employee.preferences, schedule.schedule)
      ensures forall k :: 0 <= k < i + 1 ==>
                Settled(pass, bookings[employee], employee.preferences, schedule.schedule, schedule.days[k])
      ensures Grows(old(schedule.schedule), schedule.schedule)
    {
      ghost var table, booked := schedule.schedule, bookings[employee];
      var book, k := Choose(pass, employee, i);
      if book {
        Book(pass, employee, i, k);
      }
      SettledKeptUpTo(pass, booked, bookings[employee], employee.preferences, table, schedule.schedule, schedule.days, i);
    }

    /** Whether a pass books the employee on the i-th day of the week, and
        the position among the day's ranked shifts of the shift it books. */
    method Choose(pass: Pass, employee: Employee, i: nat) returns (book: bool, k: nat)
      requires Valid() && employee in employees && i < |schedule.days|
      ensures var day, prefs := schedule.days[i], employee.preferences;
              if book then
                && Free(bookings[employee], day) && day in prefs && k < |prefs[day]|
                && (pass == FirstPreference ==> k == 0)
                && (forall m :: 0 <= m < k ==> Full(schedule.schedule, day, prefs[day][m]))
                && !Full(schedule.schedule, day, prefs[day][k])
              else Settled(pass, bookings[employee], prefs, schedule.schedule, day)
    {
      var day := schedule.days[i];
      var preferred := employee.GetPreferredShifts(day);
      book, k := false, 0;
      if employee.IsAvailable(day) && preferred != [] {
        if pass == RankedPreference {
          k := FirstOpen(day, preferred);
        }
        book := k < |preferred| && !schedule.IsShiftFull(day, preferred[k]);
      }
    }

    /** Books the employee on the k-th ranked shift of the i-th day, as
        `Choose` decided. */
    method Book(pass: Pass, employee: Employee, i: nat, k: nat)
      requires Valid() && employee in employees && i < |schedule.days|
      requires var day, prefs := schedule.days[i], employee.preferences;
               && Free(bookings[employee], day) && day in prefs && k < |prefs[day]|
               && (pass == FirstPreference ==> k == 0)
               && (forall m :: 0 <= m < k ==> Full(schedule.schedule, day, prefs[day][m]))
               && !Full(schedule.schedule, day, prefs[day][k])
      modifies this, employee, schedule
      ensures Valid() && employees == old(employees)
      ensures employee.preferences == old(employee.preferences)
      ensures employee in bookings && OnlyFor(old(bookings), bookings, employee)
      ensures Extends(old(bookings)[employee], bookings[employee])
      ensures Choices(pass, old(bookings)[employee], bookings[employee], employee.preferences, schedule.schedule)
      ensures Settled(pass, bookings[employee], employee.preferences, schedule.schedule, schedule.days[i])
      ensures Grows(old(schedule.schedule), schedule.schedule)
    {
      var day := schedule.days[i];
      var shift := employee.preferences[day][k];
      ghost var table, booked := schedule.schedule, bookings[employee];
      HasDaysAt(schedule.schedule, schedule.days, schedule.shifts, i, IndexOf(schedule.shifts, shift));
      var ok := Enroll(employee, day, shift);
      AppendedGrows(table, day, shift, employee);
      ChoiceBooked(pass, booked, employee.preferences, table, schedule.schedule, day, k);
    }

    /** The full shifts the inner loop of the second pass passes over: the
        position of the first of `preferred` whose slot on `day` is not
        full, or |preferred| when all are. The loop books that shift and
        stops; the booking cannot fail, the employee being available. */
    method FirstOpen(day: string, preferred: seq<string>) returns (k: nat)
      ensures k <= |preferred|
      ensures forall m :: 0 <= m < k ==> schedule.IsShiftFull(day, preferred[m])
      ensures k < |preferred| ==> !schedule.IsShiftFull(day, preferred[k])
    {
      k := 0;
      while k < |preferred| && schedule.IsShiftFull(day, preferred[k])
        invariant k <= |preferred|
        invariant forall m :: 0 <= m < k ==> schedule.IsShiftFull(day, preferred[m])
      {
        k := k + 1;
      }
    }

    /** `assignEmployees`: the first-preference pass, the second pass, then
        the fill of the slots left below the minimum. Bookings are only
        added; afterwards every day of every employee is settled as the
        second pass leaves it (booked, unavailable, without ranked shifts, or
        with every ranked shift full), and every slot has the minimum or
        nobody is free that day. */
    method AssignEmployees(shuffle: nat -> seq<nat>)
      requires Valid() && Distinct(employees) && Shuffles(shuffle)
      modifies this, schedule, employees
      ensures Valid() && employees == old(employees)
      ensures forall e :: e in employees ==> e.preferences == old(e.preferences)
      ensures StaffExtends(old(bookings), bookings)
      ensures forall e, k :: e in employees && 0 <= k < |schedule.days| ==>
                Settled(RankedPreference, bookings[e], e.preferences, schedule.schedule, schedule.days[k])
      ensures forall day, shift :: day in schedule.days && shift in schedule.shifts ==>
                Staffed(schedule.schedule, bookings, employees, day, shift, schedule.minEmployeesPerShift)
    {
      RunPass(FirstPreference);
      ghost var b1 := bookings;
      RunPass(RankedPreference);
      ghost var ranked: Rankings := map e | e in employees :: e.preferences;
      ghost var b2, t2 := bookings, schedule.schedule;
      assert PassDone(RankedPreference, b2, ranked, t2, employees, schedule.days);
      FillUnderstaffedShifts(shuffle);
      AssignDone(b2, bookings, ranked, t2, schedule.schedule, employees, schedule.days, schedule.shifts,
                 schedule.minEmployeesPerShift);
      StaffExtendsTransitive(old(bookings), b1, b2);
      StaffExtendsTransitive(old(bookings), b2, bookings);
      forall e, k | e in employees && 0 <= k < |schedule.days|
        ensures Settled(RankedPreference, bookings[e], e.preferences, schedule.schedule, schedule.days[k])
      {
        assert e in ranked && e.preferences == ranked[e];
      }
    }

    /** `fillUnderstaffedShifts`: each slot below the minimum when the fill
        starts is topped up with employees free that day, chosen at random
        (`shuffle` permutes them), as far as there are any. Afterwards each
        such slot has the minimum or nobody is free that day; no slot is
        taken past the minimum and the slots that had it are unchanged. */
    method FillUnderstaffedShifts(shuffle: nat -> seq<nat>)
      requires Valid() && Distinct(employees)
      requires Shuffles(shuffle)
      modifies this, schedule, employees
      ensures Valid() && employees == old(employees)
      ensures forall e :: e in employees ==> e.preferences == old(e.preferences)
      ensures StaffExtends(old(bookings), bookings) && Grows(old(schedule.schedule), schedule.schedule)
      ensures Topped(old(schedule.schedule), schedule.schedule, schedule.minEmployeesPerShift)
      ensures forall day, shift ::
                day in schedule.days && shift in schedule.shifts
                && |RosterIn(old(schedule.schedule), day, shift)| < schedule.minEmployeesPerShift
                ==> Staffed(schedule.schedule, bookings, employees, day, shift, schedule.minEmployeesPerShift)
    {
      ghost var ranked: Rankings := map e | e in employees :: e.preferences;
      ghost var t0 := schedule.schedule;
      var understaffed := schedule.GetUnderstaffedShifts();
      assert forall slot :: slot in understaffed <==>
        slot.0 in schedule.days && slot.1 in schedule.shifts && |RosterIn(t0, slot.0, slot.1)| < schedule.minEmployeesPerShift;
      for i := 0 to |understaffed|
        invariant Valid() && employees == old(employees)
        invariant forall e :: e in employees ==> e in ranked && ranked[e] == old(e.preferences)
        invariant forall e :: e in employees ==> e.preferences == ranked[e]
        invariant FillSoFar(old(bookings), bookings, t0, schedule.schedule, understaffed, i, employees, schedule.minEmployeesPerShift)
      {
        assert understaffed[i] in understaffed;
        assert Distinct(employees);
        assert understaffed[i].0 in schedule.days && understaffed[i].1 in schedule.shifts;
        FillTurn(understaffed, i, shuffle, ranked, old(bookings), t0);
      }
      FillDone(old(bookings), bookings, t0, schedule.schedule, understaffed, employees, schedule.minEmployeesPerShift,
               schedule.days, schedule.shifts);
    }

    /** The fill of the i-th slot of the list of understaffed slots. */
    method FillTurn(understaffed: seq<Slot>, i: nat, shuffle: nat -> seq<nat>,
                    ghost ranked: Rankings, ghost b0: Bookings, ghost t0: Table)
      requires Valid() && Distinct(employees) && i < |understaffed|
      requires Shuffles(shuffle)
      requires understaffed[i].0 in schedule.days && understaffed[i].1 in schedule.shifts
      requires forall e :: e in employees ==> e in ranked && e.preferences == ranked[e]
      requires FillSoFar(b0, bookings, t0, schedule.schedule, understaffed, i, employees, schedule.minEmployeesPerShift)
      modifies this, schedule, employees
      ensures Valid() && employees == old(employees)
      ensures forall e :: e in employees ==> e.preferences == ranked[e]
      ensures FillSoFar(b0, bookings, t0, schedule.schedule, understaffed, i + 1, employees, schedule.minEmployeesPerShift)
    {
      var (day, shift) := understaffed[i];
      ghost var b, t := bookings, schedule.schedule;
      FillSlot(day, shift, shuffle, ranked);
      FillStep(understaffed, i, b0, b, bookings, t0, t, schedule.schedule, employees, schedule.minEmployeesPerShift);
    }

    /** One slot of `fillUnderstaffedShifts`: as many as are missing of the
        employees free that day, or all of them when there are fewer, in
        random order, are booked and listed. */
    method FillSlot(day: string, shift: string, shuffle: nat -> seq<nat>, ghost ranked: Rankings)
      requires Valid() && Distinct(employees)
      requires Shuffles(shuffle)
      requires day in schedule.days && shift in schedule.shifts
      requires forall e :: e in employees ==> e in ranked && e.preferences == ranked[e]
      modifies this, schedule, employees
      ensures Valid() && employees == old(employees)
      ensures forall e :: e in employees ==> e.preferences == ranked[e]
      ensures ToppedUp(old(schedule.schedule), schedule.schedule, old(bookings), bookings, employees,
                       day, shift, schedule.minEmployeesPerShift)
    {
      ghost var b0, t0 := bookings, schedule.schedule;
      var needed := schedule.minEmployeesPerShift - schedule.GetShiftCount(day, shift);
      var available := AvailableOn(day);
      var toSelect := if needed < |available| then needed else |available|;
      if toSelect > 0 {
        FreeAmongDistinct(employees, bookings, day);
        var shuffled := Reordered(available, shuffle(|available|));
        ReorderedMembers(available, shuffle(|available|));
        var selected := shuffled[..toSelect];
        SelectedFree(employees, bookings, day, shuffled, toSelect);
        assert |RosterIn(schedule.schedule, day, shift)| + |selected| < DEFAULT_MAX_PER_SHIFT;
        Enlist(day, shift, selected, ranked);
        FillSome(t0, schedule.schedule, b0, bookings, employees, shuffled, toSelect, day, shift, schedule.minEmployeesPerShift);
      } else {
        FillNothing(t0, b0, employees, day, shift, schedule.minEmployeesPerShift);
      }
    }

    /** Books and lists each of `selected` for the slot (day, shift) in
        turn. They are distinct and free that day, and they fit below the
        capacity. */
    method Enlist(day: string, shift: string, selected: seq<Employee>, ghost ranked: Rankings)
      requires Valid() && day in schedule.days && shift in schedule.shifts && Distinct(selected)
      requires forall e :: e in employees ==> e in ranked && e.preferences == ranked[e]
      requires forall u :: 0 <= u < |selected| ==> selected[u] in employees && Free(bookings[selected[u]], day)
      requires |RosterIn(schedule.schedule, day, shift)| + |selected| < DEFAULT_MAX_PER_SHIFT
      modifies this, schedule, employees
      ensures Valid() && employees == old(employees)
      ensures forall e :: e in employees ==> e.preferences == ranked[e]
      ensures Filled(old(bookings), bookings, old(schedule.schedule), schedule.schedule, selected, |selected|, day, shift)
    {
      for t := 0 to |selected|
        invariant Valid() && employees == old(employees)
        invariant forall e :: e in employees ==> e.preferences == ranked[e]
        invariant Filled(old(bookings), bookings, old(schedule.schedule), schedule.schedule, selected, t, day, shift)
      {
        ghost var b, table := bookings, schedule.schedule;
        FillOne(selected[t], day, shift, ranked);
        FilledStep(old(bookings), b, old(schedule.schedule), table, schedule.schedule, selected, t, day, shift);
      }
    }

    /** Books and lists an employee selected for the slot (day, shift). The
        employee was free that day when selected and the slot is below
        capacity, so the booking succeeds. */
    method FillOne(employee: Employee, day: string, shift: string, ghost ranked: Rankings)
      requires Valid() && employee in employees && day in schedule.days && shift in schedule.shifts
      requires forall e :: e in employees ==> e in ranked && e.preferences == ranked[e]
      requires Free(bookings[employee], day) && !Full(schedule.schedule, day, shift)
      modifies this, schedule, employee
      ensures Valid() && employees == old(employees)
      ensures forall e :: e in employees ==> e.preferences == ranked[e]
      ensures bookings == old(bookings)[employee := old(bookings)[employee][day := shift]]
      ensures RosterIn(schedule.schedule, day, shift) == RosterIn(old(schedule.schedule), day, shift) + [employee]
      ensures OnlySlot(old(schedule.schedule), schedule.schedule, day, shift)
    {
      HasDaysHas(schedule.schedule, schedule.days, schedule.shifts, day, shift);
      var ok := Enroll(employee, day, shift);
      forall e | e in employees ensures e.preferences == ranked[e] {
        if e != employee {
          assert e.preferences == old(e.preferences);
        }
      }
    }

    /** The employees available on `day`, in the order of the list. */
    method AvailableOn(day: string) returns (available: seq<Employee>)
      requires Valid()
      ensures available == FreeAmong(employees, bookings, day)
    {
      available := [];
      for j := 0 to |employees|
        invariant available == FreeAmong(employees[..j], bookings, day)
      {
        var e := employees[j];
        assert employees[..j + 1][..j] == employees[..j];
        if e.IsAvailable(day) {
          available := available + [e];
        }
      }
      assert employees[..|employees|] == employees;
    }

    /** The step all three passes share: book the employee, and list them
        for the slot when the booking succeeds. The slot is below capacity. */
    method Enroll(employee: Employee, day: string, shift: string) returns (ok: bool)
      requires Valid() && employee in employees && day in schedule.schedule && shift in schedule.schedule[day]
      requires !schedule.IsShiftFull(day, shift)
      modifies this, employee, schedule
      ensures Valid() && employees == old(employees)
      ensures ok == old(employee.IsAvailable(day))
      ensures bookings == if ok then old(bookings)[employee := employee.assignedShifts] else old(bookings)
      ensures employee.assignedShifts == if ok then old(employee.assignedShifts)[day := shift] else old(employee.assignedShifts)
      ensures employee.daysWorked == if ok then old(employee.daysWorked) + 1 else old(employee.daysWorked)
      ensures employee.preferences == old(employee.preferences)
      ensures schedule.schedule == if ok then Appended(old(schedule.schedule), day, shift, employee) else old(schedule.schedule)
    {
      ghost var table := schedule.schedule;
      assert employee in bookings && bookings[employee] == employee.assignedShifts;
      ok := employee.AssignShift(day, shift);
      if ok {
        var listed := schedule.AddEmployeeToShift(day, shift, employee);
        assert listed;
        BookKeepsAgree(bookings, table, employee, day, shift);
        AppendKeepsCapacity(table, day, shift, employee);
        Record(employee, old(employees));
      }
    }

    /** Records the employee's bookings once the schedule lists them. */
    ghost method Record(employee: Employee, staff: seq<Employee>)
      requires employees == staff && employee in employees && schedule.Shaped()
      requires forall e :: e in employees && e != employee ==>
                 e.Valid() && KnownPreferences(e.preferences, schedule.shifts) && e in bookings && bookings[e] == e.assignedShifts
      requires employee.Valid() && KnownPreferences(employee.preferences, schedule.shifts)
      requires forall e :: e in bookings ==> e in employees
      requires Agree(bookings[employee := employee.assignedShifts], schedule.schedule)
      requires WithinCapacity(schedule.schedule)
      modifies this
      ensures Valid() && employees == staff
      ensures bookings == old(bookings)[employee := employee.assignedShifts]
    {
      bookings := bookings[employee := employee.assignedShifts];
    }
  }
}
