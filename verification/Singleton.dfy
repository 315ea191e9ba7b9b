/** Singleton: `Government.GetInstance` creates the one `Government` on its
    first call, with the president name of that call, and returns the same
    object on every call after it, whatever name is passed. The static field
    is the explicit state threaded through the calls. */
module Singleton {
  import opened Wrappers

  /** A `Government`: its president name is set by the constructor only. */
  datatype Government = Government(presidentName: string)

  /** The static `instance` field, and how many times the private
      constructor has run. */
  datatype Static = Static(instance: Option<Government>, constructed: nat)

  /** The class's state before any call. */
  const Initial := Static(None, 0)

  /** The constructor has run exactly once if there is an instance, and
      never otherwise. */
  predicate Valid(s: Static) {
    s.constructed == if s.instance.Some? then 1 else 0
  }

  /** `Government.GetInstance(presidentName)`. */
  function GetInstance(s: Static, presidentName: string): (r: (Static, Government))
    requires Valid(s)
    ensures Valid(r.0) && r.0.instance == Some(r.1)
    ensures s.instance.Some? ==> r == (s, s.instance.value)
    ensures s.instance.None? ==> r.1.presidentName == presidentName
  {
    if s.instance.None? then
      var g := Government(presidentName);
      (Static(Some(g), s.constructed + 1), g)
    else
      (s, s.instance.value)
  }

  /** Calling `GetInstance` with each of `names` in turn: the final state and
      the objects returned, in call order. */
  function GetInstances(s: Static, names: seq<string>): (r: (Static, seq<Government>))
    requires Valid(s)
    ensures Valid(r.0) && |r.1| == |names|
    decreases |names|
  {
    if |names| == 0 then (s, [])
    else
      var (s', g) := GetInstance(s, names[0]);
      var (s'', gs) := GetInstances(s', names[1..]);
      (s'', [g] + gs)
  }

  /** Once the instance exists, every later call returns it and changes
      nothing. */
  lemma {:induction false} LaterCallsReturnTheInstance(s: Static, names: seq<string>)
    requires Valid(s) && s.instance.Some?
    ensures GetInstances(s, names).0 == s
    ensures forall i | 0 <= i < |names| :: GetInstances(s, names).1[i] == s.instance.value
    decreases |names|
  {
    if |names| > 0 {
      LaterCallsReturnTheInstance(s, names[1..]);
    }
  }

  /** From the initial state, any non-empty run of calls constructs exactly
      one object, every call returns it, and its president is the name passed
      to the first call. */
  lemma OneInstanceFirstNameWins(names: seq<string>)
    requires |names| > 0
    ensures GetInstances(Initial, names).0.constructed == 1
    ensures GetInstances(Initial, names).0.instance == Some(Government(names[0]))
    ensures forall i | 0 <= i < |names| :: GetInstances(Initial, names).1[i] == Government(names[0])
  {
    var (s1, g) := GetInstance(Initial, names[0]);
    LaterCallsReturnTheInstance(s1, names[1..]);
  }

  /** The driver: the second call, with "Jane Smith", still yields the
      government of "John Doe". */
  lemma DriverScenario()
    ensures var (s1, g1) := GetInstance(Initial, "John Doe");
      var (s2, g2) := GetInstance(s1, "Jane Smith");
      g2 == g1 && g2.presidentName == "John Doe" && s2.constructed == 1
  {
  }
}
