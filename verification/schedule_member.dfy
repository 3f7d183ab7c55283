/** One roster line (Events/ScheduleMember.cs): `name come leave`, checked and
    converted to a worker with a come hour and a leave hour. */
module ScheduleMembers {
  import opened Results
  import opened Persons
  import opened Numbers
  import Text

  /** `Worker`, and the values `GetComeTime()` and `GetLeaveTime()` return.
      Both are whole numbers after construction. */
  datatype Entry = Entry(worker: Person, come: int, leave: int)

  const LastHour := 24

  predicate ValidEntry(e: Entry)
  {
    e.worker.name != "" && 0 <= e.come <= LastHour && 0 <= e.leave <= LastHour
  }

  /** Why a line was refused. `Overflow` stands for the `OverflowException` of
      `Convert.ToInt32`; it is not an `ArgumentException`, so nothing catches it.
      The others are the `ArgumentException`s the constructor throws. */
  datatype ParseError =
    | WrongArgumentCount
    | WrongName
    | WrongTime
    | WrongComeTime
    | WrongLeaveTime
    | Overflow

  /** Time fields of at most this many characters hold at most 15 digits, so
      the nearest binary double lies far closer to the written decimal than to
      any half-integer it is rounded against, and exact decimal rounding
      decides as the binary one does. */
  const MaxTimeFieldLength := 15

  function Fields(line: string): seq<string>
  {
    Text.Split(line, ' ')
  }

  /** The lines on which this exact-decimal model agrees with the program. */
  predicate WithinExactRange(line: string)
  {
    var f := Fields(line);
    |f| == 3 ==> |f[1]| <= MaxTimeFieldLength && |f[2]| <= MaxTimeFieldLength
  }

  /** The hour a time field stands for: the decimal written, rounded to the
      nearest integer, ties to even. */
  function Rounded(s: string): nat
    requires IsDecimalText(s)
  {
    RoundHalfEven(DecimalOf(s))
  }

  /** `new ScheduleMember(line)`. The checks run in the constructor's order,
      and the first failing one decides the error: the field count, the name,
      both time fields parsing (come first), then come converted and range
      checked, then leave converted and range checked. */
  function ParseEntry(line: string): (r: Result<Entry, ParseError>)
    requires WithinExactRange(line)
    ensures var f := Fields(line);
      (r == Err(WrongArgumentCount) <==> |f| != 3)
      && (r == Err(WrongName) <==> |f| == 3 && f[0] == "")
      && (r == Err(WrongTime) <==>
            |f| == 3 && f[0] != "" && (TryParseDouble(f[1]).None? || TryParseDouble(f[2]).None?))
    ensures var f := Fields(line);
      r.Ok? <==>
        && |f| == 3 && f[0] != ""
        && IsDecimalText(f[1]) && Rounded(f[1]) <= LastHour
        && IsDecimalText(f[2]) && Rounded(f[2]) <= LastHour
    ensures r.Ok? ==>
      && ValidEntry(r.value)
      && r.value.worker.name == Fields(line)[0]
      && IsNearestEven(DecimalOf(Fields(line)[1]), r.value.come)
      && IsNearestEven(DecimalOf(Fields(line)[2]), r.value.leave)
  {
    var f := Fields(line);
    if |f| != 3 then Err(WrongArgumentCount)
    else match NewPerson(f[0])
      case Err(_) => Err(WrongName)
      case Ok(worker) =>
        var come, leave := TryParseDouble(f[1]), TryParseDouble(f[2]);
        if come.None? || leave.None? then Err(WrongTime)
        else match ToInt32(come.value)
          case None => Err(Overflow)
          case Some(c) =>
            if c < 0 || c > LastHour then Err(WrongComeTime)
            else match ToInt32(leave.value)
              case None => Err(Overflow)
              case Some(l) =>
                if l < 0 || l > LastHour then Err(WrongLeaveTime)
                else Ok(Entry(worker, c, l))
  }

  /** Once the name is accepted and both time fields parse, the conversions
      decide, come before leave: an overflow of the come time wins over
      everything after it, a come hour past the last slot wins over the leave
      time, and only then is the leave time converted and checked. */
  lemma TimeChecksInOrder(line: string)
    requires WithinExactRange(line)
    requires var f := Fields(line);
      |f| == 3 && f[0] != "" && TryParseDouble(f[1]).Some? && TryParseDouble(f[2]).Some?
    ensures var f := Fields(line);
      var c, l := ToInt32(TryParseDouble(f[1]).value), ToInt32(TryParseDouble(f[2]).value);
      && (ParseEntry(line) == Err(Overflow) <==> c.None? || (c.value <= LastHour && l.None?))
      && (ParseEntry(line) == Err(WrongComeTime) <==> c.Some? && c.value > LastHour)
      && (ParseEntry(line) == Err(WrongLeaveTime) <==> c.Some? && c.value <= LastHour && l.Some? && l.value > LastHour)
  {
  }

  /** A roster line for `e`, hours written as whole numbers. */
  function Format(e: Entry): string
  {
    e.worker.name + " " + NatToDigits(if e.come < 0 then 0 else e.come)
      + " " + NatToDigits(if e.leave < 0 then 0 else e.leave)
  }

  lemma WholeNumberText(n: nat)
    ensures IsDecimalText(NatToDigits(n))
    ensures DecimalOf(NatToDigits(n)) == Decimal(n, 0, 0)
    ensures Rounded(NatToDigits(n)) == n
  {
    var s := NatToDigits(n);
    DigitsLackSeparator(s, '.');
    Text.SplitWithoutSeparator(s, '.');
    assert IsDigit(s[0]);
  }

  /** Parsing undoes formatting: every valid entry whose name has no space is
      read back unchanged from its own line. */
  lemma ParseFormat(e: Entry)
    requires ValidEntry(e) && ' ' !in e.worker.name
    ensures WithinExactRange(Format(e))
    ensures ParseEntry(Format(e)) == Ok(e)
  {
    var come, leave := NatToDigits(e.come), NatToDigits(e.leave);
    var fields := [e.worker.name, come, leave];
    DigitsLackSeparator(come, ' ');
    DigitsLackSeparator(leave, ' ');
    assert fields[1..] == [come, leave] && fields[1..][1..] == [leave];
    assert Text.Join(fields[1..], ' ') == come + [' '] + leave;
    assert Text.Join(fields, ' ') == Format(e);
    Text.SplitJoin(fields, ' ');
    WholeNumberText(e.come);
    WholeNumberText(e.leave);
  }
}
