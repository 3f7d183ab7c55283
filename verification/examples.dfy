/** Worked roster lines and a worked day, as the program would treat them. */
module Examples {
  import opened Results
  import opened Persons
  import opened Numbers
  import opened ScheduleMembers
  import opened Schedulers
  import opened Offices
  import opened Simulation
  import Text

  lemma ThreeFields(a: string, b: string, c: string)
    requires ' ' !in a && ' ' !in b && ' ' !in c
    ensures Fields(a + " " + b + " " + c) == [a, b, c]
  {
    var fields := [a, b, c];
    assert fields[1..] == [b, c] && fields[1..][1..] == [c];
    assert Text.Join(fields[1..], ' ') == b + [' '] + c;
    assert Text.Join(fields, ' ') == a + " " + b + " " + c;
    Text.SplitJoin(fields, ' ');
  }

  lemma Numerals()
    ensures NatToDigits(5) == "5" && NatToDigits(9) == "9"
    ensures NatToDigits(17) == "17" && NatToDigits(25) == "25"
  {
    assert NatToDigits(1) == "1" && NatToDigits(2) == "2";
  }

  /** A well-formed line is read as written. */
  lemma AcceptedLine()
    ensures ParseEntry("Alice 9 17") == Ok(Entry(Person("Alice"), 9, 17))
  {
    var e := Entry(Person("Alice"), 9, 17);
    Numerals();
    assert Format(e) == "Alice 9 17";
    ParseFormat(e);
  }

  /** A line with two fields is refused for its field count. */
  lemma MissingField()
    ensures ParseEntry("Bob 9") == Err(WrongArgumentCount)
  {
    assert Text.Count("Bob 9", ' ') == 1;
  }

  /** Two spaces in a row make an empty field, so four fields. */
  lemma DoubleSpace()
    ensures ParseEntry("Bob  9 17") == Err(WrongArgumentCount)
  {
    assert Text.Count("Bob  9 17", ' ') == 3;
  }

  lemma NotANumber()
    ensures TryParseDouble("nine").None?
  {
    WordRefused("nine", 0);
  }

  /** A time written in letters is refused as an unparsable time. */
  lemma WordForTime()
    ensures ParseEntry("Carol nine 17") == Err(WrongTime)
  {
    ThreeFields("Carol", "nine", "17");
    assert "Carol nine 17" == "Carol" + " " + "nine" + " " + "17";
    NotANumber();
  }

  lemma DaveFields()
    ensures Fields("Dave 9 25") == ["Dave", "9", "25"]
  {
    ThreeFields("Dave", "9", "25");
    assert "Dave 9 25" == "Dave" + " " + "9" + " " + "25";
  }

  /** A leave hour past 24 is refused once the come hour has passed. */
  lemma LateLeave()
    ensures ParseEntry("Dave 9 25") == Err(WrongLeaveTime)
  {
    DaveFields();
    Numerals();
    WholeParses(9);
    WholeParses(25);
    TimeChecksInOrder("Dave 9 25");
  }

  lemma HalfUp()
    ensures TryParseDouble("23.5") == Some(Finite(Decimal(23, 5, 1)))
  {
    assert DigitsValue("23") == 23 && DigitsValue("5") == 5;
    PointText("23", "5");
    assert "23" + "." + "5" == "23.5";
  }

  lemma HalfDown()
    ensures TryParseDouble("24.5") == Some(Finite(Decimal(24, 5, 1)))
  {
    assert DigitsValue("24") == 24 && DigitsValue("5") == 5;
    PointText("24", "5");
    assert "24" + "." + "5" == "24.5";
  }

  lemma HalfHoursConvert()
    ensures TryParseDouble("23.5") == Some(Finite(Decimal(23, 5, 1)))
    ensures TryParseDouble("24.5") == Some(Finite(Decimal(24, 5, 1)))
    ensures ToInt32(Finite(Decimal(23, 5, 1))) == Some(24)
    ensures ToInt32(Finite(Decimal(24, 5, 1))) == Some(24)
  {
    HalfUp();
    HalfDown();
  }

  lemma EveFields()
    ensures Fields("Eve 23.5 24.5") == ["Eve", "23.5", "24.5"]
  {
    ThreeFields("Eve", "23.5", "24.5");
    assert "Eve 23.5 24.5" == "Eve" + " " + "23.5" + " " + "24.5";
  }

  /** Halves round to the even neighbour: 23.5 up to 24 and 24.5 down to
      24, so both are in range. */
  lemma TiesToEven()
    ensures ParseEntry("Eve 23.5 24.5") == Ok(Entry(Person("Eve"), 24, 24))
  {
    EveFields();
    HalfHoursConvert();
  }

  lemma NaNText()
    ensures TryParseDouble("NaN") == Some(NaN)
  {
    Text.TrimSolid("NaN");
    SymbolText("NaN");
  }

  lemma FrankFields()
    ensures Fields("Frank NaN 5") == ["Frank", "NaN", "5"]
  {
    ThreeFields("Frank", "NaN", "5");
    assert "Frank NaN 5" == "Frank" + " " + "NaN" + " " + "5";
  }

  /** "NaN" parses as a double but cannot be converted to an integer: the
      line ends the program rather than being skipped. */
  lemma NaNTime()
    ensures ParseEntry("Frank NaN 5") == Err(Overflow)
  {
    FrankFields();
    NaNText();
    Numerals();
    WholeParses(5);
  }

  /** Alice works 9 to 17 and Bob 10 to 12. */
  const Day := [Entry(Person("Alice"), 9, 17), Entry(Person("Bob"), 10, 12)]

  /** The day's actions in firing order. */
  lemma DayRun()
    ensures StartEmulation(Day) == [Action(0, true), Action(1, true), Action(1, false), Action(0, false)]
  {
    var run := [Action(0, true), Action(1, true), Action(1, false), Action(0, false)];
    assert ValidRoster(Day);
    assert InRunOrder(Day, run);
    forall a | InRoster(Day, a) ensures a in run {
      assert a == Action(a.member, a.isComing);
    }
    RunOrderUnique(Day, StartEmulation(Day), run);
  }

  /** The replay below only looks at how many entries the roster has and
      at Bob's come hour. */
  predicate TwoWithBobAtTen(roster: seq<Entry>)
  {
    |roster| == 2 && roster[1].come == 10
  }

  lemma AliceArrives(roster: seq<Entry>)
    requires TwoWithBobAtTen(roster)
    ensures OnScheduler(Empty, roster, 0, true) == Update(Office([0], [0], [0]), [Came(0)])
  {
  }

  lemma BobArrives(roster: seq<Entry>)
    requires TwoWithBobAtTen(roster)
    ensures OnScheduler(Office([0], [0], [0]), roster, 1, true)
      == Update(Office([0, 1], [0, 1], [0, 1]), [Came(1), Greeted(0, 1, Morning)])
  {
    assert RegisterAt(10 as real) == Morning;
  }

  lemma DayRemovals()
    ensures RemoveFirst([0, 1], 1) == [0] && RemoveLast([0, 1], 1) == [0]
    ensures RemoveFirst([0], 0) == [] && RemoveLast([0], 0) == []
  {
    assert NoDup([1]) && NoDup([0, 1]) by {
      assert [0, 1][1..] == [1] && [1][1..] == [];
    }
    RemovalsAgree([0, 1], 1);
    RemovalsAgree([0], 0);
    assert [0, 1][1..] == [1] && [1][1..] == [] && [0][1..] == [];
    assert Without([1], 1) == [];
    assert Without([0], 0) == [];
  }

  lemma BobLeaves(roster: seq<Entry>)
    requires TwoWithBobAtTen(roster)
    ensures OnScheduler(Office([0, 1], [0, 1], [0, 1]), roster, 1, false)
      == Update(Office([0], [0], [0]), [Left(1), Farewell(0, 1)])
  {
    DayRemovals();
  }

  lemma AliceLeaves(roster: seq<Entry>)
    requires TwoWithBobAtTen(roster)
    ensures OnScheduler(Office([0], [0], [0]), roster, 0, false) == Update(Empty, [Left(0)])
  {
    DayRemovals();
  }

  lemma ReplayCons(roster: seq<Entry>, o: Office, a: Action, rest: seq<Action>, next: Update, tail: Update)
    requires InRoster(roster, a) && AllInRoster(roster, rest)
    requires next == OnScheduler(o, roster, a.member, a.isComing)
    requires tail == Replay(roster, next.office, rest)
    ensures AllInRoster(roster, [a] + rest)
    ensures Replay(roster, o, [a] + rest) == Update(tail.office, next.trace + tail.trace)
  {
    assert ([a] + rest)[1..] == rest;
  }

  lemma ReplayFromAliceOut(roster: seq<Entry>)
    requires TwoWithBobAtTen(roster)
    ensures AllInRoster(roster, [Action(0, false)])
    ensures Replay(roster, Office([0], [0], [0]), [Action(0, false)]) == Update(Empty, [Left(0)])
  {
    AliceLeaves(roster);
    ReplayCons(roster, Office([0], [0], [0]), Action(0, false), [], Update(Empty, [Left(0)]), Update(Empty, []));
    assert [Action(0, false)] + [] == [Action(0, false)];
    assert [Left(0)] + [] == [Left(0)];
  }

  lemma ReplayFromBobOut(roster: seq<Entry>)
    requires TwoWithBobAtTen(roster)
    ensures AllInRoster(roster, [Action(1, false), Action(0, false)])
    ensures Replay(roster, Office([0, 1], [0, 1], [0, 1]), [Action(1, false), Action(0, false)])
      == Update(Empty, [Left(1), Farewell(0, 1), Left(0)])
  {
    BobLeaves(roster);
    ReplayFromAliceOut(roster);
    ReplayCons(roster, Office([0, 1], [0, 1], [0, 1]), Action(1, false), [Action(0, false)],
      Update(Office([0], [0], [0]), [Left(1), Farewell(0, 1)]), Update(Empty, [Left(0)]));
    assert [Action(1, false)] + [Action(0, false)] == [Action(1, false), Action(0, false)];
    assert [Left(1), Farewell(0, 1)] + [Left(0)] == [Left(1), Farewell(0, 1), Left(0)];
  }

  lemma ReplayFromBobIn(roster: seq<Entry>)
    requires TwoWithBobAtTen(roster)
    ensures AllInRoster(roster, [Action(1, true), Action(1, false), Action(0, false)])
    ensures Replay(roster, Office([0], [0], [0]), [Action(1, true), Action(1, false), Action(0, false)])
      == Update(Empty, [Came(1), Greeted(0, 1, Morning), Left(1), Farewell(0, 1), Left(0)])
  {
    BobArrives(roster);
    ReplayFromBobOut(roster);
    var rest := [Action(1, false), Action(0, false)];
    ReplayCons(roster, Office([0], [0], [0]), Action(1, true), rest,
      Update(Office([0, 1], [0, 1], [0, 1]), [Came(1), Greeted(0, 1, Morning)]),
      Update(Empty, [Left(1), Farewell(0, 1), Left(0)]));
    assert [Action(1, true)] + rest == [Action(1, true), Action(1, false), Action(0, false)];
    assert [Came(1), Greeted(0, 1, Morning)] + [Left(1), Farewell(0, 1), Left(0)]
      == [Came(1), Greeted(0, 1, Morning), Left(1), Farewell(0, 1), Left(0)];
  }

  /** Replaying the day's four actions from the empty office. */
  lemma DayReplay(roster: seq<Entry>)
    requires TwoWithBobAtTen(roster)
    ensures AllInRoster(roster, [Action(0, true), Action(1, true), Action(1, false), Action(0, false)])
    ensures Replay(roster, Empty, [Action(0, true), Action(1, true), Action(1, false), Action(0, false)])
      == Update(Empty, [Came(0), Came(1), Greeted(0, 1, Morning), Left(1), Farewell(0, 1), Left(0)])
  {
    AliceArrives(roster);
    ReplayFromBobIn(roster);
    var rest := [Action(1, true), Action(1, false), Action(0, false)];
    ReplayCons(roster, Empty, Action(0, true), rest, Update(Office([0], [0], [0]), [Came(0)]),
      Update(Empty, [Came(1), Greeted(0, 1, Morning), Left(1), Farewell(0, 1), Left(0)]));
    assert [Action(0, true)] + rest == [Action(0, true), Action(1, true), Action(1, false), Action(0, false)];
    assert [Came(0)] + [Came(1), Greeted(0, 1, Morning), Left(1), Farewell(0, 1), Left(0)]
      == [Came(0), Came(1), Greeted(0, 1, Morning), Left(1), Farewell(0, 1), Left(0)];
  }

  /** The day as the console tells it: Alice comes, Bob comes and Alice
      greets him with good morning (he came at 10), Bob leaves and Alice says
      good-bye, Alice leaves; the office ends empty. */
  lemma DayTrace()
    ensures Simulate(Day) == Update(Empty,
      [Came(0), Came(1), Greeted(0, 1, Morning), Left(1), Farewell(0, 1), Left(0)])
  {
    DayRun();
    DayReplay(Day);
  }

  /** Typing "-3" at the pause prompt: "Wrong input" is printed, yet -3 is
      returned, the first `Thread.Sleep(-3000)` throws, and the day ends
      with Alice in the office and Bob never arriving. */
  lemma NegativePause()
    ensures InputAsWritten(Some(-3)) == -3
    ensures Emulate(Day, -3) == SleepThrew([Action(0, true)])
    ensures Run(Day, -3) == Update(Office([0], [0], [0]), [Came(0)])
  {
    DayRun();
    assert ValidRoster(Day);
    CutDay(Day, -3);
  }

  /** Asking again, as the prompt intends, passes over "-3" and takes the 2
      typed next. */
  lemma PromptAsksAgain()
    ensures InputIntended([Some(-3), Some(2)]) == Some(2)
  {
    var typed := [Some(-3), Some(2)];
    assert !Acceptable(typed[0]) && typed[1..] == [Some(2)];
  }
}
