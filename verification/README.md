# Office events, modelled in Dafny

The program simulates one day of an office.

- A **Scheduler** reads a roster, one line per worker of the form `name come leave`.
- It walks the hours 0 to 24. In each hour it tells the **Office** who arrives and who leaves, in roster order, through the `WorkerAction` event.
- The Office keeps the list of people present, `personsIn`, and two multicast events:
  - `Greeting`: every present person's `Welcome`.
  - `Parting`: every present person's `GoodBye`.
- When someone arrives, the arrival is announced and everyone already present greets the newcomer. Only then is the newcomer subscribed to both events and added.
- When someone leaves, they are first unsubscribed and removed. Then the departure is announced and the people still present say good-bye.

The model is functional.

- People are identified by their position in the roster (`PersonId`). The program compares workers by reference, and every roster line creates its own worker, so position and identity coincide.
- The office is a record of three sequences: `personsIn` and the two invocation lists.
- Every operation returns the new office together with the trace of console lines it printed, as structured `Event`s.
- The roster parser returns a `Result`.
- Number parsing and rounding are computed exactly on decimal text, with no floating point.

Modules, in dependency order:

- `Results`: `Option` and `Result`.
- `Text`: `String.Split(' ')`, `Join` as its inverse, and `Trim`.
- `Numbers`:
  - `Double.TryParse` with `AllowDecimalPoint`, as exact decimals;
  - `Convert.ToInt32`, which rounds half to even and overflows.
- `Persons`: `Person` construction, `Welcome` and `GoodBye`, and how an event is printed.
- `ScheduleMembers`: the `ScheduleMember` constructor as a parser.
- `Offices`: `AddPerson`, `RemovePerson` and `OnScheduler`.
- `Schedulers`:
  - the constructor's loading loop;
  - `Actions` and `StartEmulation` as action sequences.
- `Simulation`: the wiring in `Program.Main`, that is the office driven by the day's actions.
- `Examples`: worked roster lines and a worked day.

Two behaviours of the code are worth stating up front:

- Time fields are **rounded** to the nearest integer with ties to even, because `Convert.ToInt32(double)` rounds that way (Events/ScheduleMember.cs:85 and 89). So "23.5" and "24.5" both give 24.
- Some lines end the program instead of being reported. The constructor's comment says errors in adding workers are caught and handed on (Events/Scheduler.cs:42). The loop catches only `ArgumentException` (Events/Scheduler.cs:70).
  - On the .NET Framework, `Double.TryParse` accepts "NaN", "Infinity" and "-Infinity" after trimming.
  - `Convert.ToInt32` throws `OverflowException` for these and for values of at least 2147483647.5.
  - That exception is not an `ArgumentException`, so nothing catches it and the program ends at that line (`Loading.Crashed`).

## Model

| member | source | states |
|---|---|---|
| `Persons.NewPerson` | Events/Person.cs:25-30 | construction succeeds exactly when the name is non-empty, and then keeps the name as given |
| `Persons.RegisterAt` | Events/Person.cs:40-45 | morning exactly below 12, afternoon exactly from 12 to below 17, evening exactly from 17 |
| `Persons.Welcome` | Events/Person.cs:38-46 | `self` greets `man`, in the register the arrival time selects (the three ranges, each as an if-and-only-if) |
| `Persons.GoodBye` | Events/Person.cs:53-56 | `self` bids `man` farewell; no time enters |
| `Persons.Render` | Events/Person.cs:38-56 | a greeting line is the salutation, the greeted colleague's name, "! - said " and the speaker's name, at those positions; a farewell likewise with "Good bye, "; an arrival or departure is the name in brackets followed by " has come" or " has left" |
| `Persons.RegisterBoundaries` | Events/Person.cs:40-45 | 11.9 is morning, 12 and 16.9 are afternoon, 17 is evening |
| `Text.Split` | Events/ScheduleMember.cs:71 | one field more than there are separators, no field contains the separator, and joining the fields gives back the line |
| `Text.SplitJoin` | Events/ScheduleMember.cs:71 | splitting undoes joining for any non-empty field list whose fields lack the separator |
| `Numbers.WholeText` | Events/ScheduleMember.cs:81-82 | digits alone parse to the whole number they spell |
| `Numbers.PointText` | Events/ScheduleMember.cs:81-82 | digits, a point and digits, with a digit on at least one side, parse to the whole part plus a fraction with as many places as follow the point |
| `Numbers.DecimalTextShape` | Events/ScheduleMember.cs:81-82 | text is read as a finite number if and only if it has one of those two shapes, so no sign, white space, exponent or second point is allowed |
| `Numbers.NonDigitRefused` | Events/ScheduleMember.cs:81-82 | a character other than a digit or the point rules out a finite number |
| `Numbers.WordRefused` | Events/ScheduleMember.cs:81-83 | a word without white space that is not one of the format's symbols and holds a character other than a digit or the point fails to parse |
| `Numbers.SymbolText` | Events/ScheduleMember.cs:81-82 | text that trims to "NaN", "Infinity" or "-Infinity" parses to that value, whatever white space surrounds it |
| `Numbers.WholeParses` | Events/ScheduleMember.cs:81-85 | a whole number up to 2147483647 written in digits parses to itself and converts to itself |
| `Numbers.RoundHalfEven` | Events/ScheduleMember.cs:85 | the result is a nearest integer, the even one on a tie |
| `Numbers.NearestEvenUnique` | Events/ScheduleMember.cs:85 | at most one integer is nearest-with-ties-to-even, so the rounding is fully specified |
| `Numbers.ToInt32` | Events/ScheduleMember.cs:85 | a value exactly for finite inputs below 2147483647.5, and then the nearest-even integer; NaN, the infinities and larger values overflow |
| `Numbers.BelowOverflowBound` | Events/ScheduleMember.cs:85 | the integer-and-fraction overflow test is the same as comparing the value with 2147483647.5 |
| `ScheduleMembers.ParseEntry` | Events/ScheduleMember.cs:69-92 | wrong field count, empty name and unparsable time each as an if-and-only-if in check order; acceptance exactly when both times parse and round into range; accepted entries carry the name field and the nearest-even hours |
| `ScheduleMembers.TimeChecksInOrder` | Events/ScheduleMember.cs:85-91 | once both fields parse: overflow, come out of range and leave out of range each characterised, with the come time checked before the leave time is converted |
| `ScheduleMembers.ParseFormat` | Events/ScheduleMember.cs:69-92 | the line written for a valid entry parses back to that entry, so the getters return the hours unchanged |
| `Offices.Without` | Events/Office.cs:87 | removal keeps exactly the other elements, keeps the list duplicate-free, and leaves a list without the element unchanged |
| `Offices.RemovalsAgree` | Events/Office.cs:84-87 | on a duplicate-free list, `List.Remove` (first occurrence) and delegate `-=` (last occurrence) both equal removing the element |
| `Offices.Greet` | Events/Office.cs:59-60 | one greeting per subscriber, in subscription order, each addressed to the newcomer |
| `Offices.Part` | Events/Office.cs:93-94 | one farewell per subscriber, in subscription order, each addressed to the leaver |
| `Offices.AddPerson` | Events/Office.cs:50-68 | someone present: nothing changes and nothing is printed; otherwise appended to all three lists, and the trace is the arrival then one greeting from each earlier subscriber |
| `Offices.RemovePerson` | Events/Office.cs:79-97 | someone absent: nothing changes and nothing is printed; otherwise removed from all three lists, and the trace is the departure then one farewell from each remaining subscriber |
| `Offices.AdmitAbsent` | Events/Office.cs:55-67 | on a valid office, the arrival comes first, then exactly the people present greet in arrival order; nobody greets themself; the office stays valid |
| `Offices.AdmitTwice` | Events/Office.cs:52-53 | admitting the same person again changes nothing and prints nothing |
| `Offices.DismissPresent` | Events/Office.cs:84-94 | on a valid office, the leaver leaves all three lists and the others keep their order; the departure comes first, then exactly the remaining people say good-bye in order; nobody bids themself farewell; the office stays valid |
| `Offices.OnScheduler` | Events/Office.cs:106-112 | dispatches to `AddPerson` at the come hour or to `RemovePerson`; it keeps the office valid and free of self-reactions, and afterwards the member is present exactly when arriving, with everyone else as before |
| `Schedulers.ActionsBelow` | Events/Scheduler.cs:115-127 | the actions of an hour for the first `n` entries are in firing order and are exactly the arrivals and departures of those entries at that hour |
| `Schedulers.Actions` | Events/Scheduler.cs:113-128 | the actions of an hour are in firing order: roster order, and an entry's arrival before its departure. They are exactly the roster's arrivals and departures at that hour |
| `Schedulers.EmulationBelow` | Events/Scheduler.cs:137-140 | the actions of the hours before `h`, hour by hour, in firing order, exactly those with an hour in range |
| `Schedulers.StartEmulation` | Events/Scheduler.cs:134-141 | the day's actions are in firing order, and on a valid roster they are every entry's arrival and departure |
| `Schedulers.SleepMillis` | Events/Scheduler.cs:139 | `pause * 1000` wraps into the 32-bit range: exact for pauses from -2147483 to 2147483 seconds, and always even, so never the -1 that would make `Thread.Sleep` wait forever |
| `Schedulers.Emulate` | Events/Scheduler.cs:113-141 | the actions fired are the whole day's run, or only its first action exactly when the scaled pause is negative and the day has an action |
| `Schedulers.PauseDecides` | Events/Scheduler.cs:119-125 | for a roster with a worker and a pause that does not wrap, the day runs to its end exactly when the pause is not negative, and otherwise stops after one action |
| `Schedulers.WrappedPause` | Events/Scheduler.cs:139 | beyond 2147483 seconds either way the product wraps: 2147484 becomes a negative timeout, which throws, and -2147484 a positive one, which does not |
| `Schedulers.ActionsOf` | Events/Scheduler.cs:115-127 | the actions of one entry, in their order: exactly the actions of the run that name it |
| `Schedulers.RunOrderUnique` | Events/Scheduler.cs:137-140 | two runs in firing order with the same actions are equal, so the day's run is the sorted list of all actions |
| `Schedulers.EachEntryActsTwice` | Events/Scheduler.cs:137-140 | each entry of a valid roster acts exactly twice, arrival first unless it comes after it leaves; identities outside the roster never act |
| `Schedulers.SameHourBackToBack` | Events/Scheduler.cs:117-126 | an entry that comes and leaves in the same hour has its departure immediately after its arrival |
| `Schedulers.Outcomes` | Events/Scheduler.cs:64-68 | one outcome per line, and every accepted entry is valid |
| `Schedulers.OutcomeAt` | Events/Scheduler.cs:68 | the outcome of line `i` is what the `ScheduleMember` constructor makes of line `i` |
| `Schedulers.Accepted` | Events/Scheduler.cs:64-74 | the entries kept form a valid roster no longer than the input |
| `Schedulers.AcceptedConcat` | Events/Scheduler.cs:64-74 | keeping distributes over concatenation, so the kept roster is the filter of accepted lines in file order |
| `Schedulers.LoadOutcomes` | Events/Scheduler.cs:64-74 | crashes exactly when some line overflows, and then at the first one. Otherwise the roster is the accepted entries in order. Either way every refused line before the end or the crash is reported once with its error, in line order, and nothing else is reported; kept plus refused equals the lines got through |
| `Schedulers.Load` | Events/Scheduler.cs:64-74 | the same, stated over the roster file's lines: on a crash the refusals already reported for the earlier lines are kept |
| `Simulation.Replay` | Events/Office.cs:106-112 | feeding actions to `OnScheduler` one by one keeps a valid office valid, and nobody ever reacts to themself |
| `Simulation.Simulate` | Events/Program.cs:17-21 | the day, run from the empty office, ends valid with no self-reaction in its trace |
| `Simulation.Run` | Events/Program.cs:17-21 | the office driven by the actions that fired ends valid, with no self-reaction in its trace |
| `Simulation.FullDay` | Events/Scheduler.cs:134-141 | a pause from 0 to 2147483 seconds gives the same day as the run without pauses |
| `Simulation.CutDay` | Events/Scheduler.cs:119-120 | a pause whose scaled timeout is negative (every pause from -2147483 to -1, and those beyond either bound that wrap negative) leaves the office as the day's first action made it: one worker present and announced, or, for a departure, nothing at all |
| `Simulation.InputAsWritten` | Events/Program.cs:29-42 | the pause is the first number typed even when it is below 1 and "Wrong input" was printed, and 0 for text that is not a number |
| `Simulation.InputIntended` | Events/Program.cs:29-42 | a pause exactly when some typed reading is a number of at least 1, and then the first such reading, every earlier one being refused |
| `Simulation.IntendedPauseFullDay` | Events/Program.cs:21 | a pause the intended prompt accepts, up to 2147483, gives the whole day |
| `Simulation.Presence` | Events/Office.cs:50-97 | after a replay someone is present exactly when their last action was an arrival, or when no action concerned them and they were present before |
| `Simulation.FinalPresence` | Events/Scheduler.cs:117-126 | at the end of the day exactly the workers who come after they leave are still in the office |
| `Examples.AcceptedLine` | Events/ScheduleMember.cs:69-92 | "Alice 9 17" is accepted as Alice, 9, 17 |
| `Examples.MissingField` | Events/ScheduleMember.cs:73-74 | "Bob 9" is refused for its field count |
| `Examples.DoubleSpace` | Events/ScheduleMember.cs:71-74 | "Bob  9 17" (two spaces) splits into four fields and is refused |
| `Examples.WordForTime` | Events/ScheduleMember.cs:81-83 | "Carol nine 17" is refused as an unparsable time |
| `Examples.LateLeave` | Events/ScheduleMember.cs:89-91 | "Dave 9 25" is refused for its leave time |
| `Examples.TiesToEven` | Events/ScheduleMember.cs:85-91 | "Eve 23.5 24.5" is accepted with both hours 24 |
| `Examples.NaNTime` | Events/ScheduleMember.cs:85 | "Frank NaN 5" parses, then overflows in the conversion |
| `Examples.DayRun` | Events/Scheduler.cs:137-140 | for Alice 9-17 and Bob 10-12, the run is Alice in, Bob in, Bob out, Alice out |
| `Examples.DayTrace` | Events/Program.cs:17-21 | that day prints: Alice came, Bob came, Alice greets Bob good morning, Bob left, Alice says good-bye to Bob, Alice left. The office ends empty |
| `Examples.NegativePause` | Events/Program.cs:38-40 | typing "-3" gives the pause -3; the first sleep throws, and the day ends with Alice present and Bob never arriving |
| `Examples.PromptAsksAgain` | Events/Program.cs:35-41 | asking again, as intended, passes over "-3" and takes the 2 typed next |

## Left out

- File handling in the `Scheduler` constructor (`File.Exists`, `StreamReader`, the `ExceptionHandler` with `Console.ReadKey` and `Environment.Exit(-1)`). It is I/O and process exit. The loader takes the file's lines as a sequence, and the messages an `ArgumentException` prints are shown as `Rejection` records, including those printed before a line that crashes the program.
- The waiting itself in `Thread.Sleep`. Only its effect on the run is modelled: `Schedulers.Emulate` takes the pause as a parameter. A pause from 0 to 2147483 seconds only delays the day. A pause from -2147483 to -1 stops the day after its first action, because the uncaught `ArgumentOutOfRangeException` ends it. Beyond either bound `pause * 1000` wraps, and the sign of the wrapped value decides which of the two happens.
- Console colours, `Console.Clear` and the blank lines printed after each arrival and departure. Only the lines with content are modelled, as `Event`s, and `Persons.Render` gives their text.
- The console reading and `int.TryParse` inside `Program.Input`. `Simulation.InputAsWritten` and `Simulation.InputIntended` take what `int.TryParse` made of each typed line as their input.
- The null checks before raising `Greeting` and `Parting` (Events/Office.cs:59, 93). An empty invocation list raises nothing, which the model gets from empty sequences. `WorkerAction` is raised without a check (Events/Scheduler.cs:119, 124); the model assumes it is wired to the office, as `Main` does (Events/Program.cs:19).
- `GetComeTime` and `GetLeaveTime` are the `come` and `leave` fields of `Entry`.
- ScheduleMembers.ParseEntry: requires every time field to have at most 15 characters. For such fields, exact decimal rounding decides as the binary `double` does. Longer fields, whose binary rounding can differ from the written decimal, are not modelled.
- Numbers.TryParseDouble: does not accept the trailing NUL characters that .NET number parsing tolerates at the end of the text.
- Unicode: strings are sequences of characters, and digits are the ASCII ones, as `AllowDecimalPoint` accepts.

## Findings

| source | as written | input that shows it | evidently intended | confidence | as-written member | corrected member |
|---|---|---|---|---|---|---|
| Events/Program.cs:38-40 | `Input` prints "Wrong input. Try again" for a value below 1 but returns it on the same pass. A pause from -2147483 to -1 then makes the first `Thread.Sleep(pause * 1000)` throw `ArgumentOutOfRangeException` (Events/Scheduler.cs:120, 139), and nothing catches it. | typing "-3" with Alice 9-17 and Bob 10-12: the day ends after Alice arrives (`Examples.NegativePause`) | ask again until a number of at least 1 is typed, as the loop, the message and the comment on `Input` say | high; not executed | `Simulation.InputAsWritten` | `Simulation.InputIntended` |
