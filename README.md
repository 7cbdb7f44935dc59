# Course assignments: task pool, shift scheduler and small algorithms

This project models, in Dafny, the parts of a set of programming-course
assignments that have sequential logic, and proves what they promise.

* **Data processing system** (assignment 6, Java). A producer fills a
  closeable FIFO of tasks and closes it. Then worker threads dequeue the
  tasks, turn each into a result that carries that task's id and the
  worker's id, and append the results to a shared collector. At the end the
  program reports a count per worker and whether the number of results is
  the number of tasks. The queue and the collector are classes whose
  synchronized methods are atomic transitions. A worker's loop is a program
  counter (`Phase`) stepped by one action at a time. The run of the system
  interleaves the workers' actions in any order and then joins them one by
  one. Conservation is proved across that run: every generated task is
  pending, held by a worker, the origin of exactly one result, or lost.
  Without interrupts or processing failures, every task yields exactly one
  result and the verdict is success.
* **Employee shift scheduler** (assignment 4, Java, and its Python port).
  Each employee has ranked shift preferences per day and works at most one
  shift a day and at most five days. A weekly table holds 7 days × 3 shifts
  of employee lists, with a capacity of 4 and a minimum of 2.
  `assignEmployees` makes three passes over it: first preferences, then
  the best ranked shift that is not full, then filling the slots below the
  minimum with randomly chosen available employees. The model keeps these
  invariants:
  * the table and each employee's assignments agree;
  * no slot exceeds 4;
  * nobody exceeds 5 days.

  The proofs show what each pass leaves behind. The fill tops each
  understaffed slot up to the minimum, or until nobody is free that day.
  It never takes a slot past the minimum.
* **`hasDuplicate`** (assignment 2, in C++, Python and JavaScript). A
  set-based scan that stops early. It is true exactly when some value occurs
  at two positions.
* **`sum`** (assignment 2, Rust). The checked i32 fold over a slice.
* **Drivers and riders** (assignment 5, C++). Each keeps a list of ride
  pointers and appends to it, skipping null.

Null references are `Option` values (`None` is null) or nullable class
types (`Ride?`). Java exceptions are returned as an `Outcome`. Randomness, the
clock and thread scheduling are parameters: `pick`, `events`, `turns`,
`join` and `shuffle`.

The Python scheduler (`assignment4/part1-py/employeeSchedule.py`) implements the same
algorithm as the Java one, so the Java-based members model it too:

| Python | Dafny member |
|---|---|
| `Employee.__init__` and `assignShift`/`isAvailable` (11-34) | `Employees.Employee.constructor`, `Employees.Employee.AssignShift` |
| `Schedule.__init__` and `addEmployeeToShift` (50-59) | `Schedules.Schedule.constructor`, `Schedules.Schedule.AddEmployeeToShift` |
| `getUnderstaffedShifts` (69-76) | `Schedules.Schedule.GetUnderstaffedShifts` |
| the two passes (144-179) | `EmployeeSchedulers.EmployeeScheduler.RunPass` |
| `fillUnderstaffedShifts` (184-200) | `EmployeeSchedulers.EmployeeScheduler.FillUnderstaffedShifts` and `EmployeeSchedulers.EmployeeScheduler.FillSlot` |

## Model

| member | source | states |
|---|---|---|
| Tasks.NewTaskWithPriority | assignment6/javaVersion/src/Task.java:27-31 | the three-argument constructor stores id, data and priority unchanged; they are what the getters return |
| Tasks.NewTask | assignment6/javaVersion/src/Task.java:15-19 | the two-argument constructor is the three-argument one with priority 0 |
| Tasks.ConstructorInjective | assignment6/javaVersion/src/Task.java:6-31 | two constructed tasks are equal exactly when their three arguments are: a Task is a value that loses nothing |
| Results.NewResult | assignment6/javaVersion/src/Result.java:18-55 | the constructor stores task id, processed data, worker id and timestamp, and each getter returns its own argument |
| Strings.NatToString | assignment6/javaVersion/src/DataProcessingSystem.java:87 | the decimal rendering of `i` is a non-empty string of digits without a leading zero (except for 0 itself), one digit exactly for 0..9 |
| Strings.NatToStringValue | assignment6/javaVersion/src/DataProcessingSystem.java:87 | reading the rendered digits back as a decimal number gives `i` again |
| Strings.NatToStringInjective | assignment6/javaVersion/src/DataProcessingSystem.java:87 | two numbers have the same rendering exactly when they are equal |
| Strings.ToUpper | assignment6/javaVersion/src/WorkerThread.java:101 | upper-casing keeps the length and maps each character by itself (ASCII letters shift, others stay) |
| Strings.ToUpperIdempotent | assignment6/javaVersion/src/WorkerThread.java:101 | upper-casing an upper-cased string changes nothing |
| TaskQueues.SharedTaskQueue.constructor | assignment6/javaVersion/src/SharedTaskQueue.java:15-18 | a new queue is empty and open |
| TaskQueues.SharedTaskQueue.AddTask | assignment6/javaVersion/src/SharedTaskQueue.java:25-39 | closed: IllegalStateException, even for a null task; open and null: NullPointerException; in both cases nothing changes; otherwise the call returns normally and the task is appended at the tail, unless the calling thread is interrupted, when `put` throws, the exception is swallowed and nothing is added; the close flag is untouched |
| TaskQueues.SharedTaskQueue.GetTask | assignment6/javaVersion/src/SharedTaskQueue.java:46-60 | null exactly when nothing is pending, closed or not, and then no change; otherwise the head, removed: the old queue is the returned task followed by the new queue |
| TaskQueues.SharedTaskQueue.IsEmpty | assignment6/javaVersion/src/SharedTaskQueue.java:66-68 | true exactly when nothing is pending; an observer |
| TaskQueues.SharedTaskQueue.Size | assignment6/javaVersion/src/SharedTaskQueue.java:74-76 | the number of pending tasks; an observer |
| TaskQueues.SharedTaskQueue.Close | assignment6/javaVersion/src/SharedTaskQueue.java:82-85 | sets the flag and keeps the pending tasks, so a second close is the same as one; no method clears the flag |
| TaskQueues.SharedTaskQueue.IsClosed | assignment6/javaVersion/src/SharedTaskQueue.java:91-93 | the flag; an observer |
| TaskQueues.ClosedQueueScenario | assignment6/javaVersion/src/SharedTaskQueue.java:25-85 | three enqueues, two closes, then an enqueue fails with IllegalStateException and the three tasks come out in FIFO order |
| ResultsCollectors.ResultsCollector.constructor | assignment6/javaVersion/src/ResultsCollector.java:15-17 | a new collector holds no results |
| ResultsCollectors.ResultsCollector.AddResult | assignment6/javaVersion/src/ResultsCollector.java:24-31 | null throws NullPointerException and changes nothing; otherwise the result is appended after the unchanged earlier ones |
| ResultsCollectors.ResultsCollector.GetResults | assignment6/javaVersion/src/ResultsCollector.java:37-39 | a copy equal to the current list (a value, so later appends cannot change it) |
| ResultsCollectors.ResultsCollector.GetResultCount | assignment6/javaVersion/src/ResultsCollector.java:45-47 | the length of the list |
| ResultsCollectors.ResultsCollector.Clear | assignment6/javaVersion/src/ResultsCollector.java:52-55 | the collector is empty afterwards |
| ResultsCollectors.SnapshotScenario | assignment6/javaVersion/src/ResultsCollector.java:24-53 | a snapshot taken before further appends keeps its contents; a null add is refused; the count is then 2 and 0 after clear |
| WorkerThreads.ProcessTask | assignment6/javaVersion/src/WorkerThread.java:95-104 | the processed data is `[PROCESSED] `, then the upper-cased task data (no lower-case letter there), then exactly ` (processed in `, the decimal processing time and `ms)` |
| WorkerThreads.ProcessTaskReportsTime | assignment6/javaVersion/src/WorkerThread.java:97-101 | the digits between ` (processed in ` and the closing `ms)` read back as the processing time |
| WorkerThreads.Poll | assignment6/javaVersion/src/WorkerThread.java:33-50 | with a task pending the worker takes the head; with none it leaves the loop exactly when the queue is closed or the back-off sleep is interrupted, else it retries |
| WorkerThreads.Finish | assignment6/javaVersion/src/WorkerThread.java:52-79 | a completed task yields one result carrying its id and the worker's id; an interrupt loses the task and exits, because the interrupt flag is set again before the put-back, so the put is refused on an open queue as on a closed one; another exception loses it and the loop goes on; the pending tasks never change |
| WorkerThreads.Transition | assignment6/javaVersion/src/WorkerThread.java:31-80 | one action: at most one result, only on completion, carrying the held task's id and the worker's id; the loop is left only from a closed and empty queue or on an interrupt; the queue is unchanged or loses its head, and only a poll takes it; a task is lost exactly when processing ends in an interrupt or another exception; on a closed queue each action makes progress |
| WorkerThreads.PollConserves | assignment6/javaVersion/src/WorkerThread.java:33-50 | polling neither creates nor loses a task: the pending tasks are the held one followed by the rest |
| WorkerThreads.FinishConserves | assignment6/javaVersion/src/WorkerThread.java:52-79 | finishing a task accounts for it exactly once, as a result or as lost, and the pending tasks stay as they were |
| WorkerThreads.TransitionConserves | assignment6/javaVersion/src/WorkerThread.java:31-80 | every task held or pending before an action is held, pending, the origin of one result or lost afterwards |
| WorkerThreads.TransitionKeepsOrder | assignment6/javaVersion/src/WorkerThread.java:31-64 | without faults nothing is lost and the result ids followed by what is held or pending are the ids before, in order |
| WorkerThreads.AccountingStep | assignment6/javaVersion/src/WorkerThread.java:31-80 | the conservation invariant of the worker loop survives each action |
| WorkerThreads.WorkerThread.constructor | assignment6/javaVersion/src/WorkerThread.java:16-20 | stores the worker id, the queue and the collector |
| WorkerThreads.WorkerThread.Step | assignment6/javaVersion/src/WorkerThread.java:31-80 | one action performed through the queue's and collector's methods has exactly the effect `Transition` specifies; the put-back after an interrupt is an `addTask` by an interrupted thread, which adds nothing |
| WorkerThreads.WorkerThread.Run | assignment6/javaVersion/src/WorkerThread.java:27-87 | the loop on a closed queue terminates, appends only results of this worker after the earlier ones, and accounts for every task; without faults it drains the queue and the result ids are the dequeued ids in order |
| DataProcessingSystem.KindName | assignment6/javaVersion/src/DataProcessingSystem.java:117-121 | each of the six data type names is ASCII, at least four characters long, and has neither a dash nor a digit |
| DataProcessingSystem.KindNameInjective | assignment6/javaVersion/src/DataProcessingSystem.java:118 | the six names are pairwise different |
| DataProcessingSystem.TaskData | assignment6/javaVersion/src/DataProcessingSystem.java:87 | a task's data is ASCII and starts with `Data-` |
| DataProcessingSystem.TaskDataNamesTask | assignment6/javaVersion/src/DataProcessingSystem.java:87 | after `Data-` come the digits of the task id, which read back as the id, a dash, and the data type name |
| DataProcessingSystem.TaskDataInjective | assignment6/javaVersion/src/DataProcessingSystem.java:87 | two tasks have the same data exactly when they have the same id and the same data type |
| DataProcessingSystem.Generated | assignment6/javaVersion/src/DataProcessingSystem.java:84-88 | the n generated tasks have ids 1..n in order, priority `id % 3`, and the data of their id and picked type, which is ASCII |
| DataProcessingSystem.GeneratedIds | assignment6/javaVersion/src/DataProcessingSystem.java:86-88 | the generated ids are 1..n in increasing order, hence distinct |
| DataProcessingSystem.GenerateTasks | assignment6/javaVersion/src/DataProcessingSystem.java:84-111 | on an open queue tasks 1..n (priority `i % 3`, data `Data-i-` and a type name) are appended in order; on a closed one each enqueue fails, is reported, and generation goes on |
| DataProcessingSystem.CountForZero | assignment6/javaVersion/src/DataProcessingSystem.java:150-155 | a worker's count is zero exactly when no result is from that worker |
| DataProcessingSystem.Counts | assignment6/javaVersion/src/DataProcessingSystem.java:149-157 | one count per worker id 1..W |
| DataProcessingSystem.CountsAddUp | assignment6/javaVersion/src/DataProcessingSystem.java:149-157 | when every worker id is in 1..W the per-worker counts add up to the number of results |
| DataProcessingSystem.DisplayResults | assignment6/javaVersion/src/DataProcessingSystem.java:128-180 | the early return happens exactly when there are no results; otherwise the report has the number of results, the count per worker, and success exactly when that number is the expected one |
| DataProcessingSystem.StepAccounted | assignment6/javaVersion/src/DataProcessingSystem.java:45-63 | the system-wide accounting (pending, held by some worker, results, lost) survives any worker's action |
| DataProcessingSystem.SmoothStep | assignment6/javaVersion/src/DataProcessingSystem.java:45-63 | without faults no task is lost, and once a worker has exited the queue stays empty |
| DataProcessingSystem.Interleave | assignment6/javaVersion/src/DataProcessingSystem.java:45-63 | after any interleaving of the workers' actions the accounting holds and every result is from a worker 1..W |
| DataProcessingSystem.JoinWorker | assignment6/javaVersion/src/DataProcessingSystem.java:55-63 | joining a worker runs its loop to its exit and keeps the accounting |
| DataProcessingSystem.JoinAll | assignment6/javaVersion/src/DataProcessingSystem.java:55-63 | after joining every worker all have exited; without faults the queue is empty and nothing is lost |
| DataProcessingSystem.Settled | assignment6/javaVersion/src/DataProcessingSystem.java:53-67 | once every worker has exited the result ids are among the generated ones, and are all of them when nothing is pending or lost |
| DataProcessingSystem.DistinctAtMostOnce | assignment6/javaVersion/src/DataProcessingSystem.java:168-174 | an id occurs at most once in a sequence without repetitions, which is why a duplicate result cannot arise |
| DataProcessingSystem.DistinctWithin | assignment6/javaVersion/src/DataProcessingSystem.java:168-174 | results drawn from the distinct generated ids have distinct task ids |
| DataProcessingSystem.Initially | assignment6/javaVersion/src/DataProcessingSystem.java:35-48 | after generation and close, before any action, every task is pending and nothing is held or lost |
| DataProcessingSystem.StartWorkers | assignment6/javaVersion/src/DataProcessingSystem.java:43-50 | worker j has id j + 1 and shares the system's queue and collector |
| DataProcessingSystem.RunSystem | assignment6/javaVersion/src/DataProcessingSystem.java:15-77 | every result comes from a worker 1..W and from a generated task, no task has two results, the report matches the results and its counts add up; without interrupts or failures every task yields exactly one result and the verdict is success |
| DataProcessingSystem.RunConfigured | assignment6/javaVersion/src/DataProcessingSystem.java:8-77 | with 4 workers and 15 tasks and no faults the report is a success with 15 results counted over 4 workers |
| Employees.Employee.constructor | assignment4/part2-java/src/Employee.java:14-20 | a new employee has no preferences, no assignments, 0 days worked and a limit of 5 |
| Employees.Employee.AddPreference | assignment4/part2-java/src/Employee.java:22-25 | replaces that day's ranked shifts and nothing else |
| Employees.Employee.AssignShift | assignment4/part2-java/src/Employee.java:27-38 | succeeds exactly when `isAvailable(day)` held (day unassigned and fewer than 5 days); then the day is booked on the shift and one day is added; a failure changes nothing; days worked stays the number of assigned days and at most 5 |
| Employees.Employee.IsAvailable | assignment4/part2-java/src/Employee.java:40-43 | for a valid employee, true exactly when the day has no assigned shift and fewer than 5 days are assigned |
| Employees.Employee.GetPreferredShifts | assignment4/part2-java/src/Employee.java:45-48 | the ranked shifts stored for the day, or none when the day has no preference |
| Employees.Employee.GetDaysWorked | assignment4/part2-java/src/Employee.java:55-57 | the days worked |
| Employees.Employee.GetAssignedShifts | assignment4/part2-java/src/Employee.java:59-61 | a copy equal to the assignments (a value; the caller cannot change the employee through it) |
| Schedules.Appended | assignment4/part2-java/src/Schedule.java:31 | appending to a slot keeps the table's days and shifts, adds the employee at the end of that slot and changes no other slot |
| Schedules.AllSlotsMembers | assignment4/part2-java/src/Schedule.java:60-61 | the slots the week iterates over are exactly the pairs of a known day and a known shift |
| Schedules.Schedule.constructor | assignment4/part2-java/src/Schedule.java:14-26 | the table has exactly the 7 days, each with exactly the 3 shifts, every list empty, and the minimum is 2 |
| Schedules.Schedule.AddEmployeeToShift | assignment4/part2-java/src/Schedule.java:28-35 | succeeds exactly when day and shift are known, and then appends the employee to that one list; otherwise nothing changes |
| Schedules.Schedule.RosterOfSlot | assignment4/part2-java/src/Schedule.java:39 | a known slot's roster is its list in the table, and any other is empty |
| Schedules.Schedule.GetShiftCount | assignment4/part2-java/src/Schedule.java:37-40 | the number of employees on the slot's roster, so 0 for an unknown day or shift |
| Schedules.Schedule.IsShiftFullFor | assignment4/part2-java/src/Schedule.java:42-45 | true exactly when the roster has at least `maxPerShift` employees; for an unknown day or shift exactly when `maxPerShift` is at most 0 |
| Schedules.Schedule.IsShiftFull | assignment4/part2-java/src/Schedule.java:47-50 | true exactly when the roster has at least 4 employees, so never for an unknown day or shift |
| Schedules.Schedule.UnderstaffedAmongMembers | assignment4/part2-java/src/Schedule.java:57-68 | a slot is listed exactly when it is among those scanned and has fewer than the minimum |
| Schedules.Schedule.UnderstaffedWeek | assignment4/part2-java/src/Schedule.java:57-68 | over the whole week a slot is listed exactly when its day is one of the schedule's days, its shift one of its shifts, and it has fewer employees than the minimum |
| Schedules.Schedule.GetUnderstaffedShifts | assignment4/part2-java/src/Schedule.java:57-68 | the slots below the minimum, by day then by shift, and exactly those |
| EmployeeSchedulers.ValidShifts | assignment4/part2-java/src/EmployeeScheduler.java:52-59 | the kept shifts are typed ones that are known, and every typed known shift is kept |
| EmployeeSchedulers.KeepKnownShifts | assignment4/part2-java/src/EmployeeScheduler.java:52-59 | the filtering loop computes exactly `ValidShifts` |
| EmployeeSchedulers.PreferencesOf | assignment4/part2-java/src/EmployeeScheduler.java:42-67 | a day gets preferences exactly when it was requested and at least one typed shift is known; they are the known ones in the typed order |
| EmployeeSchedulers.ChosenShiftsKnown | assignment4/part2-java/src/EmployeeScheduler.java:54-61 | recorded preferences name known shifts only |
| EmployeeSchedulers.NewEmployee | assignment4/part2-java/src/EmployeeScheduler.java:34-67 | the new employee has the name, no assignments and the preferences `PreferencesOf` gives |
| EmployeeSchedulers.BookKeepsAgree | assignment4/part2-java/src/EmployeeScheduler.java:90-91 | booking a free day and listing the employee on that slot keeps schedule and assignments in agreement |
| EmployeeSchedulers.JoinKeepsAgree | assignment4/part2-java/src/EmployeeScheduler.java:34-35 | a newcomer without assignments keeps the agreement |
| EmployeeSchedulers.AppendKeepsCapacity | assignment4/part2-java/src/EmployeeScheduler.java:89-91 | appending to a slot that is not full keeps every slot at 4 or fewer |
| EmployeeSchedulers.SettledKept | assignment4/part2-java/src/EmployeeScheduler.java:76-119 | a day a pass has settled stays settled while assignments are added and slots fill up |
| EmployeeSchedulers.ChoiceBooked | assignment4/part2-java/src/EmployeeScheduler.java:110-117 | booking the k-th ranked shift of a free day, when all better-ranked ones are full, is a choice the pass may make and settles the day |
| EmployeeSchedulers.PassStep | assignment4/part2-java/src/EmployeeScheduler.java:76-119 | one employee's turn keeps what the pass established for the earlier employees and settles this one |
| EmployeeSchedulers.DistinctAppend | assignment4/part2-java/src/EmployeeScheduler.java:34-35 | appending a new employee keeps the list free of repeats |
| EmployeeSchedulers.ReorderedMembers | assignment4/part2-java/src/EmployeeScheduler.java:145-146 | a shuffled list holds exactly the same employees, still without repeats |
| EmployeeSchedulers.FreeAmong | assignment4/part2-java/src/EmployeeScheduler.java:135-140 | the available employees are those of the list free that day, and exactly those |
| EmployeeSchedulers.SelectedFree | assignment4/part2-java/src/EmployeeScheduler.java:145-147 | the first k of the shuffled available employees have no repeats and are all free that day |
| EmployeeSchedulers.FreeAmongDistinct | assignment4/part2-java/src/EmployeeScheduler.java:135-140 | the available employees of a list without repeats have none either |
| EmployeeSchedulers.StaffedKept | assignment4/part2-java/src/EmployeeScheduler.java:125-155 | a slot at the minimum, or whose day has nobody free, stays so as assignments are added |
| EmployeeSchedulers.FilledStep | assignment4/part2-java/src/EmployeeScheduler.java:148-152 | booking and listing the next selected employee extends the fill by one |
| EmployeeSchedulers.FilledNoneFree | assignment4/part2-java/src/EmployeeScheduler.java:143-152 | once everyone free has been selected and booked, nobody is free that day |
| EmployeeSchedulers.FillNothing | assignment4/part2-java/src/EmployeeScheduler.java:143-144 | with nothing lacking or nobody available, `toSelect` is 0 and the slot is topped up as it stands |
| EmployeeSchedulers.FillSome | assignment4/part2-java/src/EmployeeScheduler.java:143-152 | selecting `min(needed, available)` of the shuffled available employees and booking them tops the slot up: it reaches the minimum or takes everyone free, with only free employees, and changes no other slot |
| EmployeeSchedulers.FillDone | assignment4/part2-java/src/EmployeeScheduler.java:127-154 | when the list holds every slot below the minimum, a fill through it staffs each of them |
| EmployeeSchedulers.ToppedKept | assignment4/part2-java/src/EmployeeScheduler.java:129-154 | filling one more slot keeps the slots that had the minimum unchanged and the others at most at the minimum |
| EmployeeSchedulers.StaffedStep | assignment4/part2-java/src/EmployeeScheduler.java:129-154 | the slots already filled stay staffed and the current one is staffed too |
| EmployeeSchedulers.FillStep | assignment4/part2-java/src/EmployeeScheduler.java:129-154 | the fill of one listed slot keeps the facts about the fill so far |
| EmployeeSchedulers.AssignDone | assignment4/part2-java/src/EmployeeScheduler.java:71-123 | the fill keeps every day settled by the second pass, and afterwards every slot has the minimum or nobody is free that day |
| EmployeeSchedulers.EmployeeScheduler.constructor | assignment4/part2-java/src/EmployeeScheduler.java:12-16 | no employees and a fresh, empty 7 × 3 schedule |
| EmployeeSchedulers.EmployeeScheduler.AddEmployee | assignment4/part2-java/src/EmployeeScheduler.java:23-67 | an empty name is refused; any other name, as the input loop passes it (trimmed, not `done`), adds one new employee at the end with that name, no assignments and, for each requested day, the known shifts among the trimmed, lower-cased tokens as preferences; it keeps the invariants |
| EmployeeSchedulers.EmployeeScheduler.Join | assignment4/part2-java/src/EmployeeScheduler.java:34-35 | appends the employee and keeps the invariants and the absence of repeats |
| EmployeeSchedulers.EmployeeScheduler.RunPass | assignment4/part2-java/src/EmployeeScheduler.java:76-119 | a preference pass only adds assignments, each one a choice the pass may make, and leaves every day of every employee settled: booked, unavailable, without preferences, or with the first (pass 1) or every (pass 2) ranked shift full |
| EmployeeSchedulers.EmployeeScheduler.Turn | assignment4/part2-java/src/EmployeeScheduler.java:76-95 | one employee's turn in a pass keeps the pass's facts and settles that employee |
| EmployeeSchedulers.EmployeeScheduler.PassFor | assignment4/part2-java/src/EmployeeScheduler.java:77-94 | going through the week for one employee settles each day and changes only that employee |
| EmployeeSchedulers.EmployeeScheduler.PassOn | assignment4/part2-java/src/EmployeeScheduler.java:78-93 | one day of one employee: skipped when unavailable or without preferences, otherwise the chosen shift is booked; earlier days stay settled |
| EmployeeSchedulers.EmployeeScheduler.Choose | assignment4/part2-java/src/EmployeeScheduler.java:78-89 | when it books, the employee is free that day, has ranked shifts for it, and the chosen shift (the first ranked one, or the first not full) is not full while every better-ranked one is; when it does not, the day is already settled |
| EmployeeSchedulers.EmployeeScheduler.Book | assignment4/part2-java/src/EmployeeScheduler.java:88-93 | the booking succeeds, is a choice the pass may make, and settles the day |
| EmployeeSchedulers.EmployeeScheduler.FirstOpen | assignment4/part2-java/src/EmployeeScheduler.java:110-117 | the position of the first ranked shift that is not full, every earlier one being full |
| EmployeeSchedulers.EmployeeScheduler.AssignEmployees | assignment4/part2-java/src/EmployeeScheduler.java:71-123 | keeps agreement, capacity 4 and the 5-day limit, only adds assignments, leaves every day of every employee settled by the second pass, and staffs every slot to the minimum unless nobody is free that day |
| EmployeeSchedulers.EmployeeScheduler.FillUnderstaffedShifts | assignment4/part2-java/src/EmployeeScheduler.java:125-155 | each slot below the minimum at the start gets the minimum or everyone free that day; the slots at the minimum are unchanged and none goes past it |
| EmployeeSchedulers.EmployeeScheduler.FillTurn | assignment4/part2-java/src/EmployeeScheduler.java:129-153 | the fill of the i-th understaffed slot extends the fill so far |
| EmployeeSchedulers.EmployeeScheduler.FillSlot | assignment4/part2-java/src/EmployeeScheduler.java:130-153 | tops one slot up with `min(needed, available)` of the employees free that day in random order, and changes nothing else |
| EmployeeSchedulers.EmployeeScheduler.Enlist | assignment4/part2-java/src/EmployeeScheduler.java:148-152 | books and lists each selected employee in turn, each at the end of the slot |
| EmployeeSchedulers.EmployeeScheduler.FillOne | assignment4/part2-java/src/EmployeeScheduler.java:149-150 | a selected employee's booking succeeds and they are appended to that slot only |
| EmployeeSchedulers.EmployeeScheduler.AvailableOn | assignment4/part2-java/src/EmployeeScheduler.java:135-140 | the available employees, in list order |
| EmployeeSchedulers.EmployeeScheduler.Enroll | assignment4/part2-java/src/EmployeeScheduler.java:90-91 | `assignShift` then, on success, `addEmployeeToShift`: succeeds exactly when available, and then both the employee and that slot record it |
| Duplicates.FirstRepeat | assignment2/part1/section2/findDuplicates.cpp:6-13 | the index where the scan stops: the elements before it are pairwise distinct and the one there occurred before |
| Duplicates.FirstRepeatFinds | assignment2/part1/section2/findDuplicates.cpp:6-13 | some value occurs at two positions exactly when the scan stops before the end |
| Duplicates.FirstRepeatAt | assignment2/part1/section2/findDuplicates.cpp:9 | up to the stop, an element has been seen before exactly at the stop index |
| Duplicates.ExampleRepeats | assignment2/part1/section2/findDuplicates.cpp:16 | `{1,2,3,4,1}` stops at index 4 and has a repeat |
| FindDuplicatesCpp.HasDuplicate | assignment2/part1/section2/findDuplicates.cpp:6-13 | true exactly when some value occurs at two positions; the loop keeps `seen` equal to the elements scanned, which are distinct |
| FindDuplicatesPy.HasDuplicate | assignment2/part1/section2/findDuplicates.py:1-10 | true exactly when some value occurs twice; `seen` is the set of `nums[0..i)`, pairwise distinct |
| FindDuplicatesJs.HasDuplicate | assignment2/part1/section2/findDuplicates.js:1-8 | true exactly when some value occurs twice; `seen` holds the elements iterated so far, all distinct |
| SliceSum.TotalAppend | assignment2/part2/sum.rs:3 | the total of a slice with one more element at the back is the total plus that element |
| SliceSum.Sum | assignment2/part2/sum.rs:2-4 | when no running total overflows i32, the fold from 0 equals the mathematical total of the slice |
| SliceSum.SumEmpty | assignment2/part2/sum.rs:2-4 | the sum of an empty slice is 0 |
| SliceSum.SumAppend | assignment2/part2/sum.rs:3 | a left fold: the sum with one more element is the earlier sum plus it |
| SliceSum.ExampleSum | assignment2/part2/sum.rs:8-15 | the vector of 1..5 has length 5 and sums to 15 without overflow |
| Rides.Ride.constructor | assignment5/cppVersion/Ride.cpp:5-9 | stores the id and the two locations |
| Rides.Pushed | assignment5/cppVersion/Driver.cpp:14-18 | a push keeps the earlier rides as a prefix, adds one ride only for a non-null pointer, and puts it at the end |
| Rides.NonNullMembers | assignment5/cppVersion/Driver.cpp:15 | the rides kept from a run of calls are exactly the non-null pointers passed: none other and none missing |
| Rides.PushedAllAppends | assignment5/cppVersion/Driver.cpp:14-18 | a run of pushes appends exactly the non-null rides, in call order, repeats kept |
| Rides.PushedTwice | assignment5/cppVersion/Rider.cpp:11-15 | pushing the same ride twice stores it twice |
| Drivers.Driver.constructor | assignment5/cppVersion/Driver.cpp:5-7 | the id, name and rating getters return the arguments, and there are no rides (count 0) |
| Drivers.Driver.GetDriverID | assignment5/cppVersion/Driver.h:29 | the stored ID, which the constructor set to its argument |
| Drivers.Driver.GetName | assignment5/cppVersion/Driver.h:30 | the stored name |
| Drivers.Driver.GetRating | assignment5/cppVersion/Driver.h:31 | the stored rating |
| Drivers.Driver.GetRideCount | assignment5/cppVersion/Driver.h:32 | the number of rides assigned so far, which `AddRide` raises by one per non-null ride |
| Drivers.Driver.AddRide | assignment5/cppVersion/Driver.cpp:14-18 | null leaves the list and count unchanged; otherwise the ride is appended and the count grows by 1 |
| Riders.Rider.constructor | assignment5/cppVersion/Rider.cpp:4-6 | the id and name getters return the arguments, and there are no requested rides (count 0) |
| Riders.Rider.GetRiderID | assignment5/cppVersion/Rider.h:28 | the stored ID, which the constructor set to its argument |
| Riders.Rider.GetName | assignment5/cppVersion/Rider.h:29 | the stored name |
| Riders.Rider.GetRideCount | assignment5/cppVersion/Rider.h:30 | the number of rides requested so far, which `RequestRide` raises by one per non-null ride |
| Riders.Rider.RequestRide | assignment5/cppVersion/Rider.cpp:11-15 | null leaves the list and count unchanged; otherwise the ride is appended and the count grows by 1 |

## Left out

- Console output, formatting and interactive input are not modelled. This covers every print, `displaySchedule`, `toString`, `getDriverInfo`, `viewRides` and `rideDetails`, and the Scanner/`input` prompts of `collectEmployeeData`. Only the logic that turns the typed answers into preferences is kept: `AddEmployee` takes the name and the typed shifts per day as arguments.
- Threads, locks, `Thread.sleep` and `join` are not modelled as such. Each synchronized method is one atomic step. Any interleaving of worker actions is allowed (`turns`), and joining is one of the legal completions: each worker runs to its exit with the events `join` gives.
- A worker's `getTask` returning null and its following `isClosed()`/`isEmpty()` test are one step. The queue is closed before any worker starts and nothing can be added to a closed queue, so nothing can change between them.
- An interrupt of the main thread while it generates tasks (the `Thread.sleep(50)` that breaks the loop) or joins workers is not modelled: `GenerateTasks` enqueues as an uninterrupted thread. A worker's interrupted put-back is modelled through the `interrupted` argument of `AddTask`.
- Strings.ToUpper upper-cases ASCII letters only. Java's `toUpperCase` also maps other letters ("é" to "É"), can change the length ("ß" to "SS"), and follows the default locale (a Turkish one maps `i` to a dotted capital I). The model agrees with Java on ASCII text, and every generated task's data is ASCII (`Generated`, `TaskData`).
- EmployeeSchedulers.EmployeeScheduler.AddEmployee takes the name and the shift tokens as the input loop of `collectEmployeeData` leaves them. The name is trimmed, and "done" in any letter case ends the input instead of being passed. The shift tokens are split on commas, trimmed and lower-cased. The y/yes answer for a day decides whether the day is in `requests`. This reading of the console is not modelled.
- Randomness and the clock are parameters:
  - the data type name of each task is `pick`;
  - the processing time and the timestamp are part of each worker `Event`;
  - the shuffle of the fill is `shuffle`, a permutation of positions.
- `Collections.shuffle` shuffles the available list in place; the model builds the reordered list as a new sequence. Python's `random.sample(available, k)` is the first k of a random permutation, so it is modelled the same way.
- Python's `random.sample` with a negative k would raise. This cannot happen: every listed slot lacks at least one employee. The model follows Java's `toSelect > 0` guard.
- The passes iterate over the schedule's own day and shift lists. The constructor proves these equal the seven days and three shifts.
- Every ranked shift is assumed to be a known one, as `collectEmployeeData` guarantees (it keeps known shift names only). With an unknown shift, `assignShift` would succeed while `addEmployeeToShift` failed, and the schedule and the employee would disagree.
- EmployeeSchedulers.EmployeeScheduler.FillUnderstaffedShifts requires that no employee is in the list twice. `AddEmployee` always appends a new object, so the list never has repeats.
- EmployeeSchedulers.EmployeeScheduler.AssignEmployees inherits that same requirement.
- Java's `addPreference` stores a copy of the list, while Python stores the caller's list. With sequences as values, the two cannot be told apart.
- In the second pass, the inner loop tries each ranked shift until one is not full and its `assignShift` succeeds. It is modelled as finding the first non-full ranked shift and booking it once, because `assignShift` cannot fail for an available employee.
- Schedules.Schedule.Shaped states only that every known day and shift has a list, not that there are no others. The constructor's contract states both directions.
- EmployeeSchedulers.Grows compares slot sizes, not that each slot's old list is a prefix of the new one. The fill's own contract (`Topped`, `ToppedUp`) states the exact roster where it matters.
- Floating point is not modelled: ride fares and distances, `calculateFare` of the standard and premium rides, and the rating arithmetic. The driver's rating is a stored `real` returned unchanged.
- The `Ride` class hierarchy (`StandardRide`, `PremiumRide`), its polymorphism demo in `main.cpp`, and the destructors are not modelled.
- SliceSum.Sum requires that no running total overflows i32. A debug build panics at the first overflowing addition. A release build wraps around; that is not modelled.
- Drivers.Driver.GetRideCount and Riders.Rider.GetRideCount return the list length as an unbounded integer. The C++ conversion of `size()` to `int` is not modelled.
- The Go version of this worker pool (channels, goroutines, timeouts) is not modelled; its sequential parts duplicate the Java ones.
- The memory-management demos `sum.java` and `sum.cpp` take no input, so they are not modelled.
