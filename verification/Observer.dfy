/** Observer: a `WeatherData` subject keeps a list of observers and, whenever
    its measurements are set, calls `Update` on every observer in the list
    with the stored temperature, humidity and pressure. The measurement type
    is a parameter: the subject stores and forwards the values and never
    computes with them. */
module Observer {

  /** An `IObserver` object, by identity. */
  type ObserverId = nat

  /** The three stored measurements. */
  datatype Reading<M> = Reading(temperature: M, humidity: M, pressure: M)

  /** The subject's fields: its observer list and its last measurements. */
  datatype WeatherData<M> = WeatherData(observers: seq<ObserverId>, reading: Reading<M>)

  /** One call `observer.Update(temperature, humidity, pressure)`. */
  datatype Update<M> = Update(observer: ObserverId, reading: Reading<M>)

  /** The `WeatherData` constructor: no observers, and every measurement at
      the type's default value `zero` (0 for the C# floats). */
  function NewWeatherData<M>(zero: M): (w: WeatherData<M>)
    ensures |w.observers| == 0
    ensures w.reading.temperature == zero && w.reading.humidity == zero && w.reading.pressure == zero
  {
    WeatherData([], Reading(zero, zero, zero))
  }

  /** `RegisterObserver`: appends to the end of the list without checking
      for duplicates; the measurements are untouched and nobody is notified. */
  function RegisterObserver<M>(w: WeatherData<M>, o: ObserverId): (r: WeatherData<M>)
    ensures |r.observers| == |w.observers| + 1
    ensures r.observers[..|w.observers|] == w.observers && r.observers[|w.observers|] == o
    ensures multiset(r.observers) == multiset(w.observers) + multiset{o}
    ensures r.reading == w.reading
  {
    var r := w.(observers := w.observers + [o]);
    assert r.observers[..|w.observers|] == w.observers;
    r
  }

  /** `i` is the position of the first occurrence of `o` in `s`. */
  predicate IsFirst(s: seq<ObserverId>, o: ObserverId, i: int) {
    0 <= i < |s| && s[i] == o && o !in s[..i]
  }

  /** `List<T>.Remove`: deletes the first occurrence of `o`, if any, and
      keeps the order of everything else. */
  function RemoveFirst(s: seq<ObserverId>, o: ObserverId): (r: seq<ObserverId>)
    ensures o !in s ==> r == s
    ensures |r| == if o in s then |s| - 1 else |s|
  {
    if |s| == 0 then s
    else if s[0] == o then s[1..]
    else
      assert s == [s[0]] + s[1..];
      [s[0]] + RemoveFirst(s[1..], o)
  }

  /** `RemoveFirst` cuts out exactly the first occurrence: what comes before
      it and what comes after it are kept, in order. */
  lemma {:induction false} RemoveFirstSplices(s: seq<ObserverId>, o: ObserverId, i: int)
    requires IsFirst(s, o, i)
    ensures RemoveFirst(s, o) == s[..i] + s[i + 1..]
  {
    if i > 0 {
      assert s[1..][..i - 1] == s[1..i];
      assert o !in s[1..][..i - 1];
      RemoveFirstSplices(s[1..], o, i - 1);
      assert s[..i] == [s[0]] + s[1..i];
    }
  }

  /** `RemoveFirst` takes away one registration of `o` and nothing else. */
  lemma {:induction false} RemoveFirstMultiset(s: seq<ObserverId>, o: ObserverId)
    ensures multiset(RemoveFirst(s, o)) == multiset(s) - multiset{o}
  {
    if |s| > 0 {
      assert s == [s[0]] + s[1..];
      if s[0] != o {
        RemoveFirstMultiset(s[1..], o);
      }
    }
  }

  /** `RemoveObserver`: removes the first registration of `o` only; removing
      an observer that is not registered changes nothing. The measurements
      are untouched and nobody is notified. */
  function RemoveObserver<M>(w: WeatherData<M>, o: ObserverId): (r: WeatherData<M>)
    ensures o !in w.observers ==> r == w
    ensures multiset(r.observers) == multiset(w.observers) - multiset{o}
    ensures |r.observers| == if o in w.observers then |w.observers| - 1 else |w.observers|
    ensures r.reading == w.reading
  {
    RemoveFirstMultiset(w.observers, o);
    w.(observers := RemoveFirst(w.observers, o))
  }

  /** `NotifyObservers`: one `Update` per list entry, in list order, each
      carrying the same stored triple; an observer registered twice is
      notified twice. */
  method NotifyObservers<M>(w: WeatherData<M>) returns (trace: seq<Update<M>>)
    ensures |trace| == |w.observers|
    ensures forall i | 0 <= i < |trace| :: trace[i].observer == w.observers[i]
    ensures forall i | 0 <= i < |trace| :: trace[i].reading == w.reading
  {
    trace := [];
    var k := 0;
    while k < |w.observers|
      invariant 0 <= k <= |w.observers| && |trace| == k
      invariant forall i | 0 <= i < k :: trace[i] == Update(w.observers[i], w.reading)
    {
      trace := trace + [Update(w.observers[k], w.reading)];
      k := k + 1;
    }
  }

  /** `SetMeasurements`: stores all three values first, then notifies, so
      every observer receives the new triple and the list is unchanged. */
  method SetMeasurements<M>(w: WeatherData<M>, temperature: M, humidity: M, pressure: M)
    returns (w': WeatherData<M>, trace: seq<Update<M>>)
    ensures w'.observers == w.observers
    ensures w'.reading == Reading(temperature, humidity, pressure)
    ensures |trace| == |w.observers|
    ensures forall i | 0 <= i < |trace| ::
      trace[i].observer == w.observers[i] && trace[i].reading == Reading(temperature, humidity, pressure)
  {
    w' := w.(reading := Reading(temperature, humidity, pressure));
    trace := NotifyObservers(w');
  }

  /** Registering an observer and then removing it restores the list. */
  lemma {:induction false} RemoveUndoesRegister(s: seq<ObserverId>, o: ObserverId)
    requires o !in s
    ensures RemoveFirst(s + [o], o) == s
  {
    if |s| > 0 {
      assert (s + [o])[1..] == s[1..] + [o];
      RemoveUndoesRegister(s[1..], o);
    }
  }

  /** The driver: one display registered, then measurements (80, 65, 30.4):
      the display receives exactly that triple, once. */
  method WeatherStationScenario(display: ObserverId) returns (trace: seq<Update<real>>)
    ensures trace == [Update(display, Reading(80.0, 65.0, 30.4))]
  {
    var w := NewWeatherData(0.0);
    w := RegisterObserver(w, display);
    assert w.observers == [display];
    w, trace := SetMeasurements(w, 80.0, 65.0, 30.4);
  }
}
