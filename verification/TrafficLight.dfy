/** State: a traffic light delegates both its transition and its report to
    the object standing for its current colour. The state objects carry no
    data, so the colour alone is the state. */
module TrafficLight {

  /** `GreenLightState`, `YellowLightState`, `RedLightState`. */
  datatype Light = Green | Yellow | Red

  /** The `TrafficLight` context: the state object it currently holds. */
  datatype TrafficLight = TrafficLight(state: Light)

  /** One `ReportState` line. */
  datatype Report = Report(text: string)

  /** The `Change` method of each state object: the state it installs in
      the light, which is never the state itself. */
  function Next(l: Light): (r: Light)
    ensures r != l
  {
    match l
    case Green => Yellow
    case Yellow => Red
    case Red => Green
  }

  /** The `ReportState` text of each state object: a fixed sentence that
      ends with the colour's name. */
  function Text(l: Light): (r: string)
    ensures |r| > 17 && r[..17] == "Traffic light is " && r[|r| - 1] == '.'
  {
    match l
    case Green => "Traffic light is green."
    case Yellow => "Traffic light is yellow."
    case Red => "Traffic light is red."
  }

  /** The `TrafficLight` constructor: the argument is the current state. */
  function Create(initial: Light): (t: TrafficLight)
    ensures t.state == initial
  {
    TrafficLight(initial)
  }

  /** `TrafficLight.ChangeState`: green goes to yellow, yellow to red, red
      back to green; a light never stays where it was. */
  function ChangeState(t: TrafficLight): (r: TrafficLight)
    ensures r.state != t.state
    ensures t.state == Green ==> r.state == Yellow
    ensures t.state == Yellow ==> r.state == Red
    ensures t.state == Red ==> r.state == Green
  {
    TrafficLight(Next(t.state))
  }

  /** `TrafficLight.ReportState`: the light is left as it was. */
  function ReportState(t: TrafficLight): (r: (TrafficLight, Report))
    ensures r.0 == t
  {
    (t, Report(Text(t.state)))
  }

  /** The report depends on the current colour only, and names it: two
      lights report the same text exactly when they show the same colour. */
  lemma ReportIdentifiesState(t: TrafficLight, u: TrafficLight)
    ensures ReportState(t).1 == ReportState(u).1 <==> t.state == u.state
  {
  }

  /** `ChangeState` applied `n` times. */
  function ChangeTimes(t: TrafficLight, n: nat): TrafficLight {
    if n == 0 then t else ChangeState(ChangeTimes(t, n - 1))
  }

  /** The cycle has length three and no terminal state: every state comes
      back after exactly three changes and not earlier. */
  lemma ThreeChangesReturn(t: TrafficLight)
    ensures ChangeTimes(t, 3) == t
    ensures ChangeTimes(t, 1) != t && ChangeTimes(t, 2) != t
  {
  }

  /** After any number of changes the state is determined by that number
      modulo three. */
  lemma {:induction false} ChangesAreCyclic(t: TrafficLight, n: nat)
    ensures ChangeTimes(t, n) == ChangeTimes(t, n % 3)
  {
    if n >= 3 {
      ChangesAreCyclic(t, n - 3);
      assert ChangeTimes(t, n) == ChangeTimes(ChangeTimes(t, n - 3), 3) by {
        ChangeTimesAdd(t, n - 3, 3);
      }
      ThreeChangesReturn(ChangeTimes(t, n - 3));
      assert (n - 3) % 3 == n % 3;
    }
  }

  /** Changing `m` times and then `n` times is changing `m + n` times. */
  lemma {:induction false} ChangeTimesAdd(t: TrafficLight, m: nat, n: nat)
    ensures ChangeTimes(ChangeTimes(t, m), n) == ChangeTimes(t, m + n)
  {
    if n > 0 {
      ChangeTimesAdd(t, m, n - 1);
    }
  }

  /** One change and then `n` more is `n + 1` changes. */
  lemma ChangeThenTimes(t: TrafficLight, n: nat)
    ensures ChangeTimes(ChangeState(t), n) == ChangeTimes(t, n + 1)
  {
    ChangeTimesAdd(t, 1, n);
  }

  /** Report `i` of the rounds after one change is report `i + 1` of the
      rounds before it. */
  lemma ShiftedReports(t: TrafficLight, rest: seq<Report>)
    requires forall i | 0 <= i < |rest| :: rest[i] == Report(Text(ChangeTimes(ChangeState(t), i).state))
    ensures forall i | 0 <= i < |rest| :: rest[i] == Report(Text(ChangeTimes(t, i + 1).state))
  {
    forall i | 0 <= i < |rest| ensures rest[i] == Report(Text(ChangeTimes(t, i + 1).state)) {
      ChangeThenTimes(t, i);
    }
  }

  /** The reports of `n` rounds of report-then-change, starting from `t`:
      report `i` names the state the light is in after `i` changes. */
  function Rounds(t: TrafficLight, n: nat): (reports: seq<Report>)
    ensures |reports| == n
    ensures forall i | 0 <= i < n :: reports[i] == Report(Text(ChangeTimes(t, i).state))
    decreases n
  {
    if n == 0 then []
    else
      var (t', r) := ReportState(t);
      var rest := Rounds(ChangeState(t'), n - 1);
      ShiftedReports(t, rest);
      [r] + rest
  }

  /** The driver: starting from green, three rounds report green, yellow and
      red in that order. */
  lemma DriverReportsAllColours()
    ensures Rounds(Create(Green), 3) == [Report("Traffic light is green."),
                                         Report("Traffic light is yellow."),
                                         Report("Traffic light is red.")]
  {
  }
}
