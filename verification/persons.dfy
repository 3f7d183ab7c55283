/** Office workers (Events/Person.cs): construction with a name check, and the
    two reactions a present worker has to a colleague coming or leaving. */
module Persons {
  import opened Results

  /** Workers are compared by identity, never by name. Each accepted roster
      line creates its own worker, so a worker is identified by the position
      of its entry in the roster. */
  type PersonId = nat

  datatype Person = Person(name: string)

  datatype PersonError = NullOrEmptyName

  /** `new Person(name)`: a null or empty name throws `ArgumentException`. */
  function NewPerson(name: string): (r: Result<Person, PersonError>)
    ensures r.Ok? <==> name != ""
    ensures r.Ok? ==> r.value.name == name
  {
    if name == "" then Err(NullOrEmptyName) else Ok(Person(name))
  }

  /** The three greeting forms. */
  datatype Register = Morning | Afternoon | Evening

  /** The greeting form chosen by `Welcome` for a colleague who came at `time`. */
  function RegisterAt(time: real): (r: Register)
    ensures r == Morning <==> time < 12.0
    ensures r == Afternoon <==> 12.0 <= time < 17.0
    ensures r == Evening <==> 17.0 <= time
  {
    if time < 12.0 then Morning
    else if time < 17.0 then Afternoon
    else Evening
  }

  /** One line of the office's console output, with workers by identity. */
  datatype Event =
    | Came(who: PersonId)
    | Greeted(greeter: PersonId, greeted: PersonId, register: Register)
    | Left(who: PersonId)
    | Farewell(sayer: PersonId, leaver: PersonId)

  /** `self.Welcome(man, time)`: the greeting `self` gives `man`. */
  function Welcome(self: PersonId, man: PersonId, time: real): (e: Event)
    ensures e.Greeted? && e.greeter == self && e.greeted == man
    ensures e.register == Morning <==> time < 12.0
    ensures e.register == Afternoon <==> 12.0 <= time < 17.0
    ensures e.register == Evening <==> 17.0 <= time
  {
    Greeted(self, man, RegisterAt(time))
  }

  /** `self.GoodBye(man)`: the farewell `self` says to `man`. */
  function GoodBye(self: PersonId, man: PersonId): (e: Event)
    ensures e.Farewell? && e.sayer == self && e.leaver == man
  {
    Farewell(self, man)
  }

  predicate Mentions(e: Event, names: seq<string>)
  {
    match e
    case Came(p) => p < |names|
    case Left(p) => p < |names|
    case Greeted(g, p, _) => g < |names| && p < |names|
    case Farewell(s, p) => s < |names| && p < |names|
  }

  function Salutation(reg: Register): string
  {
    match reg
    case Morning => "Good morning, "
    case Afternoon => "Good afternoon, "
    case Evening => "Good evening, "
  }

  const SaidBy := "! - said "

  /** The console text of an event, `names` giving each worker's `Name`: a
      helper for reading a trace, which the model keeps as structured events.
      An arrival or departure shows the name in brackets; a greeting or
      farewell names the colleague addressed first and the speaker last. */
  function Render(e: Event, names: seq<string>): (line: string)
    requires Mentions(e, names)
    ensures (e.Came? || e.Left?) ==>
      var n := |names[e.who]|;
      && |line| == n + 11 && line[0] == '[' && line[1..n + 1] == names[e.who]
      && line[n + 1..] == (if e.Came? then " has come]" else " has left]")
    ensures e.Greeted? ==>
      var n := |Salutation(e.register)|;
      && |line| == n + |names[e.greeted]| + |SaidBy| + |names[e.greeter]|
      && line[..n] == Salutation(e.register)
      && line[n..n + |names[e.greeted]|] == names[e.greeted]
      && line[n + |names[e.greeted]|..|line| - |names[e.greeter]|] == SaidBy
      && line[|line| - |names[e.greeter]|..] == names[e.greeter]
    ensures e.Farewell? ==>
      var n := |"Good bye, "|;
      && |line| == n + |names[e.leaver]| + |SaidBy| + |names[e.sayer]|
      && line[..n] == "Good bye, "
      && line[n..n + |names[e.leaver]|] == names[e.leaver]
      && line[n + |names[e.leaver]|..|line| - |names[e.sayer]|] == SaidBy
      && line[|line| - |names[e.sayer]|..] == names[e.sayer]
  {
    match e
    case Came(p) => "[" + names[p] + " has come]"
    case Left(p) => "[" + names[p] + " has left]"
    case Greeted(g, p, reg) => Salutation(reg) + names[p] + SaidBy + names[g]
    case Farewell(s, p) => "Good bye, " + names[p] + SaidBy + names[s]
  }

  /** The greeting boundaries: 11.9 is still morning, 12 and 16.9 are
      afternoon, 17 is evening. */
  lemma RegisterBoundaries()
    ensures RegisterAt(11.9) == Morning && RegisterAt(12.0) == Afternoon
    ensures RegisterAt(16.9) == Afternoon && RegisterAt(17.0) == Evening
  {
  }
}
