/** The program's wiring (Events/Program.cs): the office subscribed to the
    scheduler, which replays the day's actions through `OnScheduler`. */
module Simulation {
  import opened Results
  import opened Persons
  import opened Offices
  import opened ScheduleMembers
  import opened Schedulers

  predicate AllInRoster(roster: seq<Entry>, acts: seq<Action>)
  {
    forall k :: 0 <= k < |acts| ==> InRoster(roster, acts[k])
  }

  /** Feeding `acts` one by one to `OnScheduler`, starting from `o`: the
      office at the end and everything announced on the way, in order. */
  function Replay(roster: seq<Entry>, o: Office, acts: seq<Action>): (r: Update)
    requires AllInRoster(roster, acts)
    ensures Valid(o) ==> Valid(r.office) && NoSelfReaction(r.trace)
    decreases |acts|
  {
    if |acts| == 0 then Update(o, [])
    else
      var step := OnScheduler(o, roster, acts[0].member, acts[0].isComing);
      var rest := Replay(roster, step.office, acts[1..]);
      Update(rest.office, step.trace + rest.trace)
  }

  /** The whole day of the office: the empty office driven by every action
      of `StartEmulation`. */
  function Simulate(roster: seq<Entry>): (r: Update)
    ensures Valid(r.office) && NoSelfReaction(r.trace)
  {
    var run := StartEmulation(roster);
    assert AllInRoster(roster, run);
    Replay(roster, Empty, run)
  }

  /** The program's day with the pause read at start-up: the office driven by
      the actions that fired before the emulation ended. */
  function Run(roster: seq<Entry>, pause: int): (r: Update)
    requires IsInt32(pause)
    ensures Valid(r.office) && NoSelfReaction(r.trace)
  {
    var run, fired := StartEmulation(roster), Emulate(roster, pause).fired;
    assert forall k :: 0 <= k < |fired| ==> fired[k] == run[k];
    Replay(roster, Empty, fired)
  }

  /** A pause from 0 to 2147483 seconds leaves the day as `Simulate`
      describes it. */
  lemma FullDay(roster: seq<Entry>, pause: int)
    requires 0 <= pause <= 2147483
    ensures Run(roster, pause) == Simulate(roster)
  {
  }

  /** A pause whose scaled timeout is negative (every pause from -2147483
      to -1, and those beyond either bound that wrap to a negative value)
      ends the day after its first action: if that is an arrival, the one
      worker present heard nobody greet them; if it is a departure of someone
      absent, nothing happened at all. */
  lemma CutDay(roster: seq<Entry>, pause: int)
    requires ValidRoster(roster) && |roster| > 0 && IsInt32(pause) && SleepThrows(pause)
    ensures var first := StartEmulation(roster)[0];
      && (first.isComing ==> Run(roster, pause) == Update(Office([first.member], [first.member], [first.member]), [Came(first.member)]))
      && (!first.isComing ==> Run(roster, pause) == Update(Empty, []))
  {
    var first := StartEmulation(roster)[0];
    var fired := Emulate(roster, pause).fired;
    assert fired == [first] && fired[1..] == [];
    var step := OnScheduler(Empty, roster, first.member, first.isComing);
    assert Replay(roster, step.office, fired[1..]) == Update(step.office, []);
    assert Run(roster, pause) == Update(step.office, step.trace + []);
  }

  /** `Program.Input` as written, given what `int.TryParse` made of the first
      line typed (`None` when it is not a number): it prints "Wrong input"
      for a non-number or a value below 1 but returns on its first pass all
      the same, with the 0 `int.TryParse` leaves for a non-number. */
  function InputAsWritten(typed: Option<int>): (pause: int)
    requires typed.Some? ==> IsInt32(typed.value)
    ensures IsInt32(pause)
    ensures typed.Some? ==> pause == typed.value
    ensures typed.None? ==> pause == 0
  {
    if typed.Some? then typed.value else 0
  }

  /** A typed reading the prompt's "non-negative number" accepts. */
  predicate Acceptable(typed: Option<int>)
  {
    typed.Some? && typed.value >= 1
  }

  /** `Program.Input` as its loop and prompt evidently intend: ask again until
      a number of at least 1 is typed. `None` when the lines typed run out
      first, where the program would keep waiting. */
  function InputIntended(typed: seq<Option<int>>): (r: Option<int>)
    ensures r.Some? <==> exists k :: 0 <= k < |typed| && Acceptable(typed[k])
    ensures r.Some? ==>
      exists k :: 0 <= k < |typed| && typed[k] == r && Acceptable(typed[k]) && (forall j :: 0 <= j < k ==> !Acceptable(typed[j]))
  {
    if |typed| == 0 then None
    else if Acceptable(typed[0]) then typed[0]
    else
      var r := InputIntended(typed[1..]);
      assert forall k :: 0 < k < |typed| ==> typed[k] == typed[1..][k - 1];
      if r.Some? then
        var k :| 0 <= k < |typed[1..]| && typed[1..][k] == r && Acceptable(typed[1..][k]) &&
          (forall j :: 0 <= j < k ==> !Acceptable(typed[1..][j]));
        assert typed[k + 1] == r && forall j :: 0 <= j < k + 1 ==> !Acceptable(typed[j]);
        r
      else r
  }

  /** With the intended prompt, a pause it accepts that does not wrap gives
      the whole day. */
  lemma IntendedPauseFullDay(roster: seq<Entry>, typed: seq<Option<int>>)
    requires InputIntended(typed).Some? && InputIntended(typed).value <= 2147483
    ensures IsInt32(InputIntended(typed).value)
    ensures Emulate(roster, InputIntended(typed).value).Finished?
    ensures Run(roster, InputIntended(typed).value) == Simulate(roster)
  {
    FullDay(roster, InputIntended(typed).value);
  }

  /** After a replay, someone is present exactly when their last action was
      an arrival, or, if no action concerned them, when they were present at
      the start. */
  lemma {:induction false} Presence(roster: seq<Entry>, o: Office, acts: seq<Action>, p: PersonId)
    requires Valid(o) && AllInRoster(roster, acts)
    ensures var mine := ActionsOf(acts, p);
      p in Replay(roster, o, acts).office.personsIn <==>
        if mine == [] then p in o.personsIn else mine[|mine| - 1].isComing
    decreases |acts|
  {
    if |acts| > 0 {
      var step := OnScheduler(o, roster, acts[0].member, acts[0].isComing);
      Presence(roster, step.office, acts[1..], p);
      LastMine(acts, p);
    }
  }

  /** The last action concerning `p` is the last one in the tail, or, when the
      tail holds none, the head if it concerns `p`. */
  lemma LastMine(acts: seq<Action>, p: PersonId)
    requires |acts| > 0
    ensures var mine, later := ActionsOf(acts, p), ActionsOf(acts[1..], p);
      && (later != [] ==> mine != [] && mine[|mine| - 1] == later[|later| - 1])
      && (later == [] ==> (mine == [] <==> acts[0].member != p))
      && (later == [] && mine != [] ==> mine[|mine| - 1] == acts[0])
  {
    var head := if acts[0].member == p then [acts[0]] else [];
    assert ActionsOf(acts, p) == head + ActionsOf(acts[1..], p);
  }

  /** At the end of the day exactly the workers whose come hour is later
      than their leave hour are still in the office: their departure fired
      while they were absent and was ignored, and their arrival came after. */
  lemma FinalPresence(roster: seq<Entry>, p: PersonId)
    requires ValidRoster(roster)
    ensures p in Simulate(roster).office.personsIn <==> p < |roster| && roster[p].come > roster[p].leave
  {
    var run := StartEmulation(roster);
    assert AllInRoster(roster, run);
    Presence(roster, Empty, run, p);
    EachEntryActsTwice(roster, p);
  }
}
