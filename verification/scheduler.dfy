/** The schedule driver (Events/Scheduler.cs): loading the roster and replaying
    it hour by hour as a sequence of arrival and departure actions. */
module Schedulers {
  import opened Results
  import opened Persons
  import opened ScheduleMembers
  import Numbers

  /** One `WorkerAction(member, isComing)` call; `member` is the position of the
      entry in the roster, which is also its worker's identity. */
  datatype Action = Action(member: PersonId, isComing: bool)

  /** The slots run 0 to `LastHour` inclusive. */
  const Hours := LastHour + 1

  predicate ValidRoster(roster: seq<Entry>)
  {
    forall i :: 0 <= i < |roster| ==> ValidEntry(roster[i])
  }

  predicate InRoster(roster: seq<Entry>, a: Action)
  {
    a.member < |roster|
  }

  /** The hour at which the scheduler fires `a`. */
  function HourOf(roster: seq<Entry>, a: Action): int
    requires InRoster(roster, a)
  {
    if a.isComing then roster[a.member].come else roster[a.member].leave
  }

  /** `a` fires strictly before `b`: by hour, then by roster position, and an
      entry's arrival before its own departure. */
  predicate Precedes(roster: seq<Entry>, a: Action, b: Action)
    requires InRoster(roster, a) && InRoster(roster, b)
  {
    || HourOf(roster, a) < HourOf(roster, b)
    || (HourOf(roster, a) == HourOf(roster, b) && a.member < b.member)
    || (HourOf(roster, a) == HourOf(roster, b) && a.member == b.member && a.isComing && !b.isComing)
  }

  /** Every action in `s` belongs to the roster, and `s` lists them in strictly
      increasing firing order (so none twice). */
  predicate InRunOrder(roster: seq<Entry>, s: seq<Action>)
  {
    && (forall k :: 0 <= k < |s| ==> InRoster(roster, s[k]))
    && (forall j, k :: 0 <= j < k < |s| ==> Precedes(roster, s[j], s[k]))
  }

  /** What one entry contributes during `hour`: its arrival if it comes then,
      followed by its departure if it leaves then. */
  function MemberActions(roster: seq<Entry>, i: PersonId, hour: int): seq<Action>
    requires i < |roster|
  {
    (if roster[i].come == hour then [Action(i, true)] else [])
      + (if roster[i].leave == hour then [Action(i, false)] else [])
  }

  /** The `foreach` of `Actions(hour)` over the first `n` entries. */
  function ActionsBelow(roster: seq<Entry>, hour: int, n: nat): (r: seq<Action>)
    requires n <= |roster|
    ensures InRunOrder(roster, r)
    ensures forall a :: a in r <==> a.member < n && HourOf(roster, a) == hour
  {
    if n == 0 then []
    else
      var before, last := ActionsBelow(roster, hour, n - 1), MemberActions(roster, n - 1, hour);
      assert forall a :: a in last <==> a.member == n - 1 && HourOf(roster, a) == hour;
      ConcatInRunOrder(roster, before, last);
      before + last
  }

  /** `Actions(hour, pause)` without the pauses: the actions of `hour`, entry by
      entry in roster order. */
  function Actions(roster: seq<Entry>, hour: int): (r: seq<Action>)
    ensures InRunOrder(roster, r)
    ensures forall a :: a in r <==> InRoster(roster, a) && HourOf(roster, a) == hour
  {
    ActionsBelow(roster, hour, |roster|)
  }

  /** The actions of the hours before `h`, hour by hour. */
  function EmulationBelow(roster: seq<Entry>, h: nat): (r: seq<Action>)
    ensures InRunOrder(roster, r)
    ensures forall a :: a in r <==> InRoster(roster, a) && 0 <= HourOf(roster, a) < h
  {
    if h == 0 then []
    else
      var before, now := EmulationBelow(roster, h - 1), Actions(roster, h - 1);
      ConcatInRunOrder(roster, before, now);
      before + now
  }

  /** `StartEmulation(pause)` without clearing the console and pausing: every
      action of the day, hour 0 to 24 in order. On a valid roster this is every
      entry's arrival and departure, each exactly once, sorted by firing order. */
  function StartEmulation(roster: seq<Entry>): (r: seq<Action>)
    ensures InRunOrder(roster, r)
    ensures ValidRoster(roster) ==> forall a :: a in r <==> InRoster(roster, a)
    ensures ValidRoster(roster) && |roster| > 0 ==> r != []
  {
    assert |roster| > 0 ==> InRoster(roster, Action(0, true));
    EmulationBelow(roster, Hours)
  }

  /** The values of C#'s `int`. */
  predicate IsInt32(n: int)
  {
    -Numbers.Int32Max - 1 <= n <= Numbers.Int32Max
  }

  /** `pause * 1000` in C#'s default unchecked arithmetic: the product
      wrapped into the 32-bit range. Exact up to a pause of 2147483 seconds,
      negative for every negative pause down to -2147483, and always even,
      so never the `Timeout.Infinite` value -1. */
  function SleepMillis(pause: int): (ms: int)
    requires IsInt32(pause)
    ensures IsInt32(ms) && (ms - pause * 1000) % 0x1_0000_0000 == 0
    ensures -2147483 <= pause <= 2147483 ==> ms == pause * 1000
    ensures ms % 2 == 0
  {
    var m := (pause * 1000) % 0x1_0000_0000;
    assert m % 2 == 0 by {
      assert pause * 1000 == 2 * (pause * 500);
    }
    if m <= Numbers.Int32Max then m else m - 0x1_0000_0000
  }

  /** `Thread.Sleep(pause * 1000)` throws: the timeout is negative and, being
      even, not -1. */
  predicate SleepThrows(pause: int)
    requires IsInt32(pause)
  {
    SleepMillis(pause) < 0
  }

  /** How `StartEmulation(pause)` ends: every action fired, or the first
      `Thread.Sleep` threw `ArgumentOutOfRangeException`, which nothing
      catches, right after the day's first action. */
  datatype Emulation = Finished(fired: seq<Action>) | SleepThrew(fired: seq<Action>)

  /** `StartEmulation(pause)` with its pauses: after each action `Actions`
      sleeps `pause * 1000` milliseconds, and `Thread.Sleep` refuses a
      negative timeout other than -1. */
  function Emulate(roster: seq<Entry>, pause: int): (r: Emulation)
    requires IsInt32(pause)
    ensures r.SleepThrew? <==> SleepThrows(pause) && StartEmulation(roster) != []
    ensures r.SleepThrew? ==> r.fired == [StartEmulation(roster)[0]]
    ensures r.Finished? ==> r.fired == StartEmulation(roster)
  {
    var run := StartEmulation(roster);
    if SleepThrows(pause) && |run| > 0 then SleepThrew(run[..1]) else Finished(run)
  }

  /** Within the range where `pause * 1000` does not wrap, a day with any
      worker runs to its end exactly when the pause is not negative, and a
      negative pause stops it after its first action. */
  lemma PauseDecides(roster: seq<Entry>, pause: int)
    requires ValidRoster(roster) && |roster| > 0
    requires -2147483 <= pause <= 2147483
    ensures Emulate(roster, pause).Finished? <==> pause >= 0
    ensures pause < 0 ==> |Emulate(roster, pause).fired| == 1
  {
    var run := StartEmulation(roster);
    assert InRoster(roster, Action(0, true));
    assert Action(0, true) in run;
  }

  /** Past 2147483 seconds either way the product wraps: a pause of 2147484
      seconds becomes a negative timeout and stops the day after its first
      action, while one of -2147484 becomes a positive timeout and the day
      runs to its end. */
  lemma WrappedPause()
    ensures SleepMillis(2147484) == 2147484000 - 0x1_0000_0000 < 0 && SleepThrows(2147484)
    ensures SleepMillis(-2147484) == 0x1_0000_0000 - 2147484000 > 0 && !SleepThrows(-2147484)
  {
  }

  /** Two runs in order, where everything in the first precedes everything in
      the second, form one run in order. */
  lemma ConcatInRunOrder(roster: seq<Entry>, s: seq<Action>, t: seq<Action>)
    requires InRunOrder(roster, s) && InRunOrder(roster, t)
    requires forall a, b :: a in s && b in t ==> Precedes(roster, a, b)
    ensures InRunOrder(roster, s + t)
  {
    var u := s + t;
    forall j, k | 0 <= j < k < |u| ensures Precedes(roster, u[j], u[k]) {
      if j < |s| && k >= |s| {
        assert u[j] in s && u[k] in t;
      } else if j >= |s| {
        assert u[j] == t[j - |s|] && u[k] == t[k - |s|];
      }
    }
  }

  /** The actions of `s` that concern entry `i`, in their order in `s`. */
  function ActionsOf(s: seq<Action>, i: PersonId): (r: seq<Action>)
    ensures forall a :: a in r <==> a in s && a.member == i
    ensures (forall k :: 0 <= k < |s| ==> s[k].member != i) ==> r == []
  {
    if |s| == 0 then []
    else
      assert forall a :: a in s <==> a == s[0] || a in s[1..];
      (if s[0].member == i then [s[0]] else []) + ActionsOf(s[1..], i)
  }

  lemma {:induction false} ActionsOfInRunOrder(roster: seq<Entry>, s: seq<Action>, i: PersonId)
    requires InRunOrder(roster, s)
    ensures InRunOrder(roster, ActionsOf(s, i))
    decreases |s|
  {
    if |s| > 0 {
      ActionsOfInRunOrder(roster, s[1..], i);
      var head := if s[0].member == i then [s[0]] else [];
      forall a, b | a in head && b in ActionsOf(s[1..], i) ensures Precedes(roster, a, b) {
        var k :| 0 <= k < |s[1..]| && s[1..][k] == b;
        assert s[k + 1] == b;
      }
      ConcatInRunOrder(roster, head, ActionsOf(s[1..], i));
    }
  }

  /** In a run in order, an action that fires before another sits at a
      smaller position. */
  lemma IndexOrder(roster: seq<Entry>, s: seq<Action>, j: nat, k: nat)
    requires InRunOrder(roster, s) && j < |s| && k < |s|
    requires Precedes(roster, s[j], s[k])
    ensures j < k
  {
  }

  /** A position from `j` up to before `l` is `j` itself or lies strictly
      between the two in firing order. */
  lemma MiddleBetween(roster: seq<Entry>, s: seq<Action>, j: nat, mid: nat, l: nat)
    requires InRunOrder(roster, s) && j <= mid < l < |s|
    ensures mid == j || (Precedes(roster, s[j], s[mid]) && Precedes(roster, s[mid], s[l]))
  {
  }

  lemma HeadIn(s: seq<Action>)
    ensures |s| > 0 ==> s[0] in s
  {
  }

  /** The tail of a run in order holds everything of the run but its head. */
  lemma TailMembers(roster: seq<Entry>, s: seq<Action>)
    requires InRunOrder(roster, s) && |s| > 0
    ensures InRunOrder(roster, s[1..])
    ensures forall a :: a in s[1..] <==> a in s && a != s[0]
  {
    forall a | a in s && a != s[0] ensures a in s[1..] {
      var k :| 0 <= k < |s| && s[k] == a;
      assert s[1..][k - 1] == a;
    }
    forall a | a in s[1..] ensures a != s[0] {
      var k :| 0 <= k < |s[1..]| && s[1..][k] == a;
      assert Precedes(roster, s[0], s[k + 1]);
    }
  }

  /** In a run in order, the head fires before every later position. */
  lemma HeadFirst(roster: seq<Entry>, s: seq<Action>, k: nat)
    requires InRunOrder(roster, s) && k < |s|
    ensures InRoster(roster, s[0]) && InRoster(roster, s[k])
    ensures k > 0 ==> Precedes(roster, s[0], s[k])
  {
  }

  /** Two runs in order with the same actions are the same run: firing order
      leaves no freedom, so `StartEmulation` is the day's actions sorted. */
  lemma {:induction false} RunOrderUnique(roster: seq<Entry>, s: seq<Action>, t: seq<Action>)
    requires InRunOrder(roster, s) && InRunOrder(roster, t)
    requires forall a :: a in s <==> a in t
    ensures s == t
    decreases |s|
  {
    HeadIn(s);
    HeadIn(t);
    if |s| > 0 && |t| > 0 {
      var i :| 0 <= i < |s| && s[i] == t[0];
      var j :| 0 <= j < |t| && t[j] == s[0];
      HeadFirst(roster, s, i);
      HeadFirst(roster, t, j);
      assert s[0] == t[0];
      TailMembers(roster, s);
      TailMembers(roster, t);
      RunOrderUnique(roster, s[1..], t[1..]);
      assert s == [s[0]] + s[1..] && t == [t[0]] + t[1..];
    }
  }

  /** A run in order that holds only the actions `x` and `y` has at most two
      positions. */
  lemma AtMostTwo(roster: seq<Entry>, s: seq<Action>, x: Action, y: Action)
    requires InRunOrder(roster, s)
    requires forall a :: a in s <==> a == x || a == y
    ensures |s| <= 2
  {
    if |s| >= 2 {
      assert s[0] in s && s[1] in s && s[|s| - 1] in s;
    }
  }

  /** A run in order made of exactly two actions `x` before `y` is `[x, y]`. */
  lemma TwoInOrder(roster: seq<Entry>, s: seq<Action>, x: Action, y: Action)
    requires InRoster(roster, x) && InRoster(roster, y) && Precedes(roster, x, y)
    requires InRunOrder(roster, s)
    requires forall a :: a in s <==> a == x || a == y
    ensures s == [x, y]
  {
    AtMostTwo(roster, s, x, y);
    assert x in s && y in s;
    assert s[0] in s && s[|s| - 1] in s;
  }

  /** An identity outside the roster has no actions over a whole day. */
  lemma NoActionsOutside(roster: seq<Entry>, i: PersonId)
    requires ValidRoster(roster) && i >= |roster|
    ensures ActionsOf(StartEmulation(roster), i) == []
  {
  }

  /** The actions of entry `i` over a whole day are its arrival and its
      departure. */
  lemma OwnActions(roster: seq<Entry>, i: PersonId)
    requires ValidRoster(roster) && i < |roster|
    ensures forall a :: a in ActionsOf(StartEmulation(roster), i) <==> a == Action(i, true) || a == Action(i, false)
  {
  }

  /** Over a whole day each entry of a valid roster acts exactly twice: it
      arrives and departs once each, the arrival first unless the entry's come
      hour is later than its leave hour. An identity outside the roster never
      acts. */
  lemma EachEntryActsTwice(roster: seq<Entry>, i: PersonId)
    requires ValidRoster(roster)
    ensures var arrival, departure := Action(i, true), Action(i, false);
      ActionsOf(StartEmulation(roster), i) ==
        if i >= |roster| then []
        else if roster[i].come <= roster[i].leave then [arrival, departure]
        else [departure, arrival]
  {
    var run := StartEmulation(roster);
    var mine := ActionsOf(run, i);
    if i < |roster| {
      ActionsOfInRunOrder(roster, run, i);
      OwnActions(roster, i);
      var arrival, departure := Action(i, true), Action(i, false);
      if roster[i].come <= roster[i].leave {
        TwoInOrder(roster, mine, arrival, departure);
      } else {
        TwoInOrder(roster, mine, departure, arrival);
      }
    } else {
      NoActionsOutside(roster, i);
    }
  }

  /** An entry that comes and leaves in the same hour arrives and departs
      back to back, nothing from another entry in between. */
  lemma SameHourBackToBack(roster: seq<Entry>, i: PersonId)
    requires ValidRoster(roster) && i < |roster| && roster[i].come == roster[i].leave
    ensures var run := StartEmulation(roster);
      exists k :: 0 <= k < |run| - 1 && run[k] == Action(i, true) && run[k + 1] == Action(i, false)
  {
    var run := StartEmulation(roster);
    var arrival, departure := Action(i, true), Action(i, false);
    assert arrival in run && departure in run;
    var k :| 0 <= k < |run| && run[k] == arrival;
    var m :| 0 <= m < |run| && run[m] == departure;
    IndexOrder(roster, run, k, m);
    MiddleBetween(roster, run, k, (k + m) / 2, m);
  }

  datatype Rejection = Rejection(line: nat, error: ParseError)

  /** The end of the constructor's loading loop: the roster and the reported
      refusals, or the line whose uncaught `OverflowException` ended the
      program together with the refusals already reported before it. */
  datatype Loading = Loaded(roster: seq<Entry>, rejected: seq<Rejection>) | Crashed(line: nat, rejected: seq<Rejection>)

  /** How many lines the loop got through: all `n`, or those before the crash. */
  function Reached(r: Loading, n: nat): nat
  {
    if r.Crashed? then r.line else n
  }

  predicate AllWithinExactRange(lines: seq<string>)
  {
    forall i :: 0 <= i < |lines| ==> WithinExactRange(lines[i])
  }

  /** What the `ScheduleMember` constructor makes of each line: an entry or
      the exception it throws. */
  function Outcomes(lines: seq<string>): (r: seq<Result<Entry, ParseError>>)
    requires AllWithinExactRange(lines)
    ensures |r| == |lines|
    ensures forall i :: 0 <= i < |r| && r[i].Ok? ==> ValidEntry(r[i].value)
  {
    if |lines| == 0 then []
    else Outcomes(lines[..|lines| - 1]) + [ParseEntry(lines[|lines| - 1])]
  }

  lemma {:induction false} OutcomeAt(lines: seq<string>, i: nat)
    requires AllWithinExactRange(lines) && i < |lines|
    ensures Outcomes(lines)[i] == ParseEntry(lines[i])
    decreases |lines|
  {
    if i < |lines| - 1 {
      OutcomeAt(lines[..|lines| - 1], i);
    }
  }

  /** The outcomes of the first `n` lines are the first `n` outcomes. */
  lemma OutcomesPrefix(lines: seq<string>, n: nat)
    requires AllWithinExactRange(lines) && n <= |lines|
    ensures AllWithinExactRange(lines[..n])
    ensures Outcomes(lines[..n]) == Outcomes(lines)[..n]
  {
    forall i | 0 <= i < n ensures Outcomes(lines[..n])[i] == Outcomes(lines)[i] {
      OutcomeAt(lines[..n], i);
      OutcomeAt(lines, i);
    }
  }

  predicate AcceptsValid(outs: seq<Result<Entry, ParseError>>)
  {
    forall i :: 0 <= i < |outs| && outs[i].Ok? ==> ValidEntry(outs[i].value)
  }

  /** The entries of the accepted lines, in line order. */
  function Accepted(outs: seq<Result<Entry, ParseError>>): (r: seq<Entry>)
    requires AcceptsValid(outs)
    ensures ValidRoster(r) && |r| <= |outs|
  {
    if |outs| == 0 then []
    else
      var last := match outs[|outs| - 1] case Ok(e) => [e] case Err(_) => [];
      Accepted(outs[..|outs| - 1]) + last
  }

  /** Acceptance distributes over concatenation: `Accepted` keeps every
      entry and drops every refusal, and nothing else. */
  lemma {:induction false} AcceptedConcat(a: seq<Result<Entry, ParseError>>, b: seq<Result<Entry, ParseError>>)
    requires AcceptsValid(a) && AcceptsValid(b)
    ensures AcceptsValid(a + b)
    ensures Accepted(a + b) == Accepted(a) + Accepted(b)
    decreases |b|
  {
    if |b| == 0 {
      assert a + b == a;
    } else {
      var init, ab := b[..|b| - 1], a + b;
      assert AcceptsValid(init);
      AcceptedConcat(a, init);
      assert ab[..|ab| - 1] == a + init;
      var last := match b[|b| - 1] case Ok(e) => [e] case Err(_) => [];
      assert Accepted(b) == Accepted(init) + last;
      assert Accepted(ab) == Accepted(a + init) + last;
    }
  }

  /** The roster the constructor keeps from the file's lines. */
  function Kept(lines: seq<string>): (r: seq<Entry>)
    requires AllWithinExactRange(lines)
    ensures ValidRoster(r) && |r| <= |lines|
  {
    Accepted(Outcomes(lines))
  }

  /** The state of the loading loop after the first `i` outcomes, none of
      them an overflow: the accepted entries in order, and one report per
      refusal, in line order. */
  predicate LoadedUpTo(outs: seq<Result<Entry, ParseError>>, i: nat, workers: seq<Entry>, rejected: seq<Rejection>)
  {
    && i <= |outs|
    && AcceptsValid(outs[..i])
    && workers == Accepted(outs[..i])
    && |workers| + |rejected| == i
    && (forall k :: 0 <= k < |rejected| ==>
      rejected[k].line < i && outs[rejected[k].line] == Err(rejected[k].error))
    && (forall j, k :: 0 <= j < k < |rejected| ==> rejected[j].line < rejected[k].line)
    && (forall j :: 0 <= j < i ==> outs[j] != Err(Overflow))
    && (forall j :: 0 <= j < i && outs[j].Err? ==> Rejection(j, outs[j].error) in rejected)
  }

  /** One turn of the loading loop on an outcome that is not an overflow. */
  lemma LoadStep(outs: seq<Result<Entry, ParseError>>, i: nat, workers: seq<Entry>, rejected: seq<Rejection>)
    requires AcceptsValid(outs) && LoadedUpTo(outs, i, workers, rejected)
    requires i < |outs| && outs[i] != Err(Overflow)
    ensures outs[i].Ok? ==> LoadedUpTo(outs, i + 1, workers + [outs[i].value], rejected)
    ensures outs[i].Err? ==> LoadedUpTo(outs, i + 1, workers, rejected + [Rejection(i, outs[i].error)])
  {
    assert outs[..i + 1] == outs[..i] + [outs[i]];
    AcceptedConcat(outs[..i], [outs[i]]);
    assert [outs[i]][..0] == [];
  }

  /** The constructor's loop over the roster file, on what the
      `ScheduleMember` constructor made of each line. Each accepted line
      becomes an entry, in file order; a line refused with an
      `ArgumentException` is reported and skipped, and loading goes on; an
      `OverflowException` is not caught and ends the program at that line. */
  method LoadOutcomes(outs: seq<Result<Entry, ParseError>>) returns (r: Loading)
    requires AcceptsValid(outs)
    ensures r.Crashed? <==> exists i :: 0 <= i < |outs| && outs[i] == Err(Overflow)
    ensures r.Crashed? ==>
      && r.line < |outs| && outs[r.line] == Err(Overflow)
      && forall i :: 0 <= i < r.line ==> outs[i] != Err(Overflow)
    ensures r.Loaded? ==> r.roster == Accepted(outs) && |r.roster| + |r.rejected| == |outs|
    ensures r.Crashed? ==> |Accepted(outs[..r.line])| + |r.rejected| == r.line
    ensures forall k :: 0 <= k < |r.rejected| ==>
      r.rejected[k].line < Reached(r, |outs|) && outs[r.rejected[k].line] == Err(r.rejected[k].error)
    ensures forall j, k :: 0 <= j < k < |r.rejected| ==> r.rejected[j].line < r.rejected[k].line
    ensures forall i :: 0 <= i < Reached(r, |outs|) && outs[i].Err? ==> Rejection(i, outs[i].error) in r.rejected
  {
    var workers: seq<Entry> := [];
    var rejected: seq<Rejection> := [];
    var i := 0;
    while i < |outs|
      invariant LoadedUpTo(outs, i, workers, rejected)
    {
      if outs[i] == Err(Overflow) {
        assert AcceptsValid(outs[..i]) && workers == Accepted(outs[..i]);
        return Crashed(i, rejected);
      }
      LoadStep(outs, i, workers, rejected);
      if outs[i].Ok? {
        workers := workers + [outs[i].value];
      } else {
        rejected := rejected + [Rejection(i, outs[i].error)];
      }
      i := i + 1;
    }
    assert outs[..i] == outs;
    return Loaded(workers, rejected);
  }

  /** The constructor's loop over the roster file, `lines` being what
      `ReadLine` returns; `OutcomeAt` ties each outcome to its line. */
  method Load(lines: seq<string>) returns (r: Loading)
    requires AllWithinExactRange(lines)
    ensures r.Crashed? <==> exists i :: 0 <= i < |lines| && Outcomes(lines)[i] == Err(Overflow)
    ensures r.Crashed? ==>
      && r.line < |lines| && Outcomes(lines)[r.line] == Err(Overflow)
      && forall i :: 0 <= i < r.line ==> Outcomes(lines)[i] != Err(Overflow)
    ensures r.Loaded? ==> r.roster == Kept(lines) && |r.roster| + |r.rejected| == |lines|
    ensures r.Crashed? ==> |Kept(lines[..r.line])| + |r.rejected| == r.line
    ensures forall k :: 0 <= k < |r.rejected| ==>
      r.rejected[k].line < Reached(r, |lines|) && Outcomes(lines)[r.rejected[k].line] == Err(r.rejected[k].error)
    ensures forall j, k :: 0 <= j < k < |r.rejected| ==> r.rejected[j].line < r.rejected[k].line
    ensures forall i :: 0 <= i < Reached(r, |lines|) && Outcomes(lines)[i].Err? ==>
      Rejection(i, Outcomes(lines)[i].error) in r.rejected
  {
    var outs := Outcomes(lines);
    r := LoadOutcomes(outs);
    if r.Crashed? {
      assert outs[r.line] == Err(Overflow);
      assert exists i :: 0 <= i < |lines| && Outcomes(lines)[i] == Err(Overflow);
      OutcomesPrefix(lines, r.line);
    } else {
      assert forall i :: 0 <= i < |outs| ==> outs[i] != Err(Overflow);
      assert !exists i :: 0 <= i < |lines| && Outcomes(lines)[i] == Err(Overflow);
    }
  }
}
