/** The presence registry (Events/Office.cs): who is in the office, and the two
    multicast events `Greeting` and `Parting`, written out as ordered subscriber
    lists. */
module Offices {
  import opened Persons
  import ScheduleMembers

  /** `personsIn` and the invocation lists of `Greeting` (each subscriber's
      `Welcome`) and `Parting` (each subscriber's `GoodBye`). */
  datatype Office = Office(personsIn: seq<PersonId>, greeting: seq<PersonId>, parting: seq<PersonId>)

  const Empty := Office([], [], [])

  /** No element occurs twice. */
  predicate NoDup(s: seq<PersonId>)
  {
    |s| == 0 || (s[0] !in s[1..] && NoDup(s[1..]))
  }

  /** The registry invariant: both events are subscribed to by exactly the
      people present, in arrival order, each once. */
  predicate Valid(o: Office)
  {
    NoDup(o.personsIn) && o.greeting == o.personsIn && o.parting == o.personsIn
  }

  /** The registry after an operation, and what the operation printed. */
  datatype Update = Update(office: Office, trace: seq<Event>)

  lemma {:induction false} NoDupSnoc(s: seq<PersonId>, x: PersonId)
    requires NoDup(s) && x !in s
    ensures NoDup(s + [x])
  {
    if |s| > 0 {
      NoDupSnoc(s[1..], x);
      assert (s + [x])[1..] == s[1..] + [x];
    }
  }

  /** `s` without `x`, everything else in its original order. */
  function Without(s: seq<PersonId>, x: PersonId): (r: seq<PersonId>)
    ensures forall y :: y in r <==> y in s && y != x
    ensures NoDup(s) ==> NoDup(r)
    ensures x !in s ==> r == s
  {
    if |s| == 0 then []
    else
      var rest := Without(s[1..], x);
      assert forall y :: y in s <==> y == s[0] || y in s[1..];
      if s[0] == x then rest
      else
        assert ([s[0]] + rest)[1..] == rest;
        [s[0]] + rest
  }

  /** The position of the first occurrence of `x`. */
  function IndexOf(s: seq<PersonId>, x: PersonId): (i: nat)
    requires x in s
    ensures i < |s| && s[i] == x && x !in s[..i]
  {
    if s[0] == x then 0
    else
      var i := IndexOf(s[1..], x) + 1;
      assert s[..i] == [s[0]] + s[1..][..i - 1];
      i
  }

  /** The position of the last occurrence of `x`. */
  function LastIndexOf(s: seq<PersonId>, x: PersonId): (i: nat)
    requires x in s
    ensures i < |s| && s[i] == x && x !in s[i + 1..]
  {
    if s[|s| - 1] == x then |s| - 1
    else
      var init := s[..|s| - 1];
      assert x in init by {
        var k :| 0 <= k < |s| && s[k] == x;
        assert init[k] == x;
      }
      var i := LastIndexOf(init, x);
      assert s[i + 1..] == init[i + 1..] + [s[|s| - 1]];
      i
  }

  /** `List<T>.Remove`: drops the first occurrence of `x`, if any. */
  function RemoveFirst(s: seq<PersonId>, x: PersonId): seq<PersonId>
  {
    if x in s then s[..IndexOf(s, x)] + s[IndexOf(s, x) + 1..] else s
  }

  /** Delegate removal (`-=`): drops the last occurrence of `x` from an
      invocation list, if any. */
  function RemoveLast(s: seq<PersonId>, x: PersonId): seq<PersonId>
  {
    if x in s then s[..LastIndexOf(s, x)] + s[LastIndexOf(s, x) + 1..] else s
  }

  /** Removing one occurrence from a duplicate-free list removes the element
      altogether. */
  lemma {:induction false} RemoveSliceIsWithout(s: seq<PersonId>, x: PersonId, i: nat)
    requires NoDup(s) && i < |s| && s[i] == x
    ensures s[..i] + s[i + 1..] == Without(s, x)
    decreases |s|
  {
    if i == 0 {
      assert s[..0] + s[1..] == s[1..];
    } else {
      RemoveSliceIsWithout(s[1..], x, i - 1);
      SliceAfterHead(s, i);
    }
  }

  lemma SliceAfterHead(s: seq<PersonId>, i: nat)
    requires 0 < i < |s|
    ensures s[..i] + s[i + 1..] == [s[0]] + (s[1..][..i - 1] + s[1..][i..])
  {
    assert s[..i] == [s[0]] + s[1..][..i - 1];
    assert s[i + 1..] == s[1..][i..];
  }

  /** On a duplicate-free list, `List<T>.Remove` and delegate removal agree,
      and both keep everybody else in order. */
  lemma RemovalsAgree(s: seq<PersonId>, x: PersonId)
    requires NoDup(s)
    ensures RemoveFirst(s, x) == Without(s, x)
    ensures RemoveLast(s, x) == Without(s, x)
  {
    if x in s {
      RemoveSliceIsWithout(s, x, IndexOf(s, x));
      RemoveSliceIsWithout(s, x, LastIndexOf(s, x));
    }
  }

  /** Raising `Greeting(man, time)`: each subscriber, in subscription order,
      welcomes `man`. */
  function Greet(subscribers: seq<PersonId>, man: PersonId, time: real): (r: seq<Event>)
    ensures |r| == |subscribers|
    ensures forall i :: 0 <= i < |r| ==> r[i] == Welcome(subscribers[i], man, time)
  {
    if |subscribers| == 0 then []
    else [Welcome(subscribers[0], man, time)] + Greet(subscribers[1..], man, time)
  }

  /** Raising `Parting(man)`: each subscriber, in subscription order, says
      good-bye to `man`. */
  function Part(subscribers: seq<PersonId>, man: PersonId): (r: seq<Event>)
    ensures |r| == |subscribers|
    ensures forall i :: 0 <= i < |r| ==> r[i] == GoodBye(subscribers[i], man)
  {
    if |subscribers| == 0 then []
    else [GoodBye(subscribers[0], man)] + Part(subscribers[1..], man)
  }

  /** `AddPerson(man, time)`. Someone already present is ignored. Otherwise the
      arrival is announced, everyone subscribed so far greets the newcomer, and
      only then is the newcomer subscribed to both events and added to
      `personsIn`, so that nobody greets themself. */
  function AddPerson(o: Office, man: PersonId, time: real): (r: Update)
    ensures man in o.personsIn ==> r == Update(o, [])
    ensures man !in o.personsIn ==>
      && r.office.personsIn == o.personsIn + [man]
      && r.office.greeting == o.greeting + [man]
      && r.office.parting == o.parting + [man]
    ensures man !in o.personsIn ==>
      && |r.trace| == |o.greeting| + 1
      && r.trace[0] == Came(man)
      && forall i :: 0 <= i < |o.greeting| ==> r.trace[i + 1] == Greeted(o.greeting[i], man, RegisterAt(time))
  {
    if man in o.personsIn then Update(o, [])
    else
      var announced := [Came(man)] + Greet(o.greeting, man, time);
      Update(Office(o.personsIn + [man], o.greeting + [man], o.parting + [man]), announced)
  }

  /** `RemovePerson(man)`. Someone absent is ignored. Otherwise the leaver is
      first unsubscribed from both events and taken out of `personsIn`, then
      the departure is announced and everyone still subscribed to `Parting`
      says good-bye, so that nobody bids themself farewell. */
  function RemovePerson(o: Office, man: PersonId): (r: Update)
    ensures man !in o.personsIn ==> r == Update(o, [])
    ensures man in o.personsIn ==>
      && r.office.personsIn == RemoveFirst(o.personsIn, man)
      && r.office.greeting == RemoveLast(o.greeting, man)
      && r.office.parting == RemoveLast(o.parting, man)
    ensures man in o.personsIn ==>
      && |r.trace| == |r.office.parting| + 1
      && r.trace[0] == Left(man)
      && forall i :: 0 <= i < |r.office.parting| ==> r.trace[i + 1] == Farewell(r.office.parting[i], man)
  {
    if man !in o.personsIn then Update(o, [])
    else
      var o' := Office(RemoveFirst(o.personsIn, man), RemoveLast(o.greeting, man), RemoveLast(o.parting, man));
      Update(o', [Left(man)] + Part(o'.parting, man))
  }

  /** No one greets or bids farewell to themself. */
  predicate NoSelfReaction(trace: seq<Event>)
  {
    forall e :: e in trace ==>
      (e.Greeted? ==> e.greeter != e.greeted) && (e.Farewell? ==> e.sayer != e.leaver)
  }

  /** Admitting someone absent to a valid registry: the arrival comes first,
      then exactly the people already present greet the newcomer, in arrival
      order, and nobody greets themself; the registry stays valid. */
  lemma AdmitAbsent(o: Office, man: PersonId, time: real)
    requires Valid(o) && man !in o.personsIn
    ensures var r := AddPerson(o, man, time);
      && Valid(r.office)
      && |r.trace| == |o.personsIn| + 1 && r.trace[0] == Came(man)
      && (forall i :: 0 <= i < |o.personsIn| ==> r.trace[i + 1] == Greeted(o.personsIn[i], man, RegisterAt(time)))
      && NoSelfReaction(r.trace)
  {
    var r := AddPerson(o, man, time);
    NoDupSnoc(o.personsIn, man);
    forall e | e in r.trace && e.Greeted? ensures e.greeter != e.greeted {
      var k :| 0 <= k < |r.trace| && r.trace[k] == e;
      assert o.greeting[k - 1] in o.personsIn;
    }
  }

  /** Admitting someone already present changes nothing and prints nothing,
      however often it is repeated. */
  lemma AdmitTwice(o: Office, man: PersonId, first: real, second: real)
    ensures var once := AddPerson(o, man, first);
      AddPerson(once.office, man, second) == Update(once.office, [])
  {
  }

  /** Dismissing someone present from a valid registry: they leave all three
      lists and everyone else keeps their order; the departure comes first,
      then exactly the people still present say good-bye, in arrival order,
      and nobody bids themself farewell; the registry stays valid. */
  lemma DismissPresent(o: Office, man: PersonId)
    requires Valid(o) && man in o.personsIn
    ensures var r := RemovePerson(o, man);
      var rest := Without(o.personsIn, man);
      && Valid(r.office)
      && r.office.personsIn == rest && man !in rest
      && |r.trace| == |rest| + 1 && r.trace[0] == Left(man)
      && (forall i :: 0 <= i < |rest| ==> r.trace[i + 1] == Farewell(rest[i], man))
      && NoSelfReaction(r.trace)
  {
    RemovalsAgree(o.personsIn, man);
    PartNotSelf(Without(o.personsIn, man), man);
  }

  /** A departure followed by good-byes from people other than the leaver
      holds no self-farewell. */
  lemma PartNotSelf(subscribers: seq<PersonId>, man: PersonId)
    requires man !in subscribers
    ensures NoSelfReaction([Left(man)] + Part(subscribers, man))
  {
    var trace := [Left(man)] + Part(subscribers, man);
    forall e | e in trace && e.Farewell? ensures e.sayer != e.leaver {
      var k :| 0 <= k < |trace| && trace[k] == e;
      assert subscribers[k - 1] in subscribers;
    }
  }

  /** The handler the scheduler calls: `OnScheduler(member, isComing)` admits
      the member's worker at the member's come time, or dismisses them. */
  function OnScheduler(o: Office, roster: seq<ScheduleMembers.Entry>, member: PersonId, isComing: bool): (r: Update)
    requires member < |roster|
    ensures isComing ==> r == AddPerson(o, member, roster[member].come as real)
    ensures !isComing ==> r == RemovePerson(o, member)
    ensures Valid(o) ==> Valid(r.office) && NoSelfReaction(r.trace)
    ensures Valid(o) ==> forall p :: p in r.office.personsIn <==>
      if p == member then isComing else p in o.personsIn
  {
    if isComing then
      var time := roster[member].come as real;
      assert Valid(o) ==> Valid(AddPerson(o, member, time).office) && NoSelfReaction(AddPerson(o, member, time).trace) by {
        if Valid(o) && member !in o.personsIn {
          AdmitAbsent(o, member, time);
        }
      }
      AddPerson(o, member, time)
    else
      assert Valid(o) ==> Valid(RemovePerson(o, member).office) && NoSelfReaction(RemovePerson(o, member).trace) by {
        if Valid(o) && member in o.personsIn {
          DismissPresent(o, member);
        }
      }
      RemovePerson(o, member)
  }
}
