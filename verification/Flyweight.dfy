/** Flyweight: a `CharacterFactory` hands out shared, immutable `Character`
    objects, creating one per symbol on first request and returning the
    cached object on every later request. Object identity matters here, so
    the model keeps the log of allocated objects and refers to an object by
    its position in that log. */
module Flyweight {

  /** A `Character` object's fields, set by its constructor and never changed. */
  datatype Character = Character(symbol: char, size: int)

  /** A reference to a `Character` object: its position in the allocation log. */
  type Ref = nat

  /** The `Character` objects allocated so far, oldest first, and the
      factory's dictionary from symbol to object. */
  datatype Factory = Factory(objects: seq<Character>, cache: map<char, Ref>)

  /** One call `GetCharacter(symbol, size)`. */
  datatype Request = Request(symbol: char, size: int)

  /** Every cached reference names an allocated object with that symbol. */
  ghost predicate Valid(f: Factory) {
    forall k | k in f.cache :: f.cache[k] < |f.objects| && f.objects[f.cache[k]].symbol == k
  }

  /** A new `CharacterFactory`: an empty dictionary. */
  function NewFactory(): (f: Factory)
    ensures Valid(f) && |f.cache| == 0 && |f.objects| == 0
  {
    Factory([], map[])
  }

  /** `CharacterFactory.GetCharacter`: the first request for a symbol
      creates and caches a new object with that symbol and size; every later
      request for the symbol returns that same object, whatever size it
      asks for. Objects already allocated never change and cached entries are
      never replaced. */
  function GetCharacter(f: Factory, key: char, size: int): (r: (Factory, Ref))
    requires Valid(f)
    ensures Valid(r.0)
    ensures r.1 < |r.0.objects| && r.0.objects[r.1].symbol == key
    ensures |f.objects| <= |r.0.objects| && r.0.objects[..|f.objects|] == f.objects
    ensures r.0.cache.Keys == f.cache.Keys + {key}
    ensures r.0.cache[key] == r.1
    ensures |r.0.objects| == |f.objects| + (if key in f.cache then 0 else 1)
    ensures forall k | k in f.cache :: r.0.cache[k] == f.cache[k]
    ensures key in f.cache ==> r.0 == f && r.1 == f.cache[key]
    ensures key !in f.cache ==> r.1 == |f.objects| && r.0.objects[r.1] == Character(key, size)
  {
    if key !in f.cache then
      var c := Character(key, size);
      var objects := f.objects + [c];
      assert objects[..|f.objects|] == f.objects;
      (Factory(objects, f.cache[key := |f.objects|]), |f.objects|)
    else
      (f, f.cache[key])
  }

  /** Two requests for the same symbol yield the same object, and it keeps
      the size of the first request. */
  lemma SameSymbolSameObject(f: Factory, key: char, size1: int, size2: int)
    requires Valid(f)
    ensures var (f1, r1) := GetCharacter(f, key, size1);
      var (f2, r2) := GetCharacter(f1, key, size2);
      r2 == r1 && f2 == f1 && f2.objects[r2].size == f1.objects[r1].size
  {
  }

  /** The factory after serving `requests` in order, starting empty. */
  function Serve(requests: seq<Request>): (f: Factory)
    ensures Valid(f)
    decreases |requests|
  {
    if |requests| == 0 then NewFactory()
    else
      var last := requests[|requests| - 1];
      GetCharacter(Serve(requests[..|requests| - 1]), last.symbol, last.size).0
  }

  /** The symbols requested in `requests`. */
  function Symbols(requests: seq<Request>): set<char> {
    set i | 0 <= i < |requests| :: requests[i].symbol
  }

  /** The last request adds its symbol to those of the requests before it. */
  lemma SymbolsAppend(requests: seq<Request>)
    requires |requests| > 0
    ensures Symbols(requests) == Symbols(requests[..|requests| - 1]) + {requests[|requests| - 1].symbol}
  {
    var n := |requests| - 1;
    var prefix := requests[..n];
    forall c | c in Symbols(requests) ensures c in Symbols(prefix) + {requests[n].symbol} {
      var i :| 0 <= i < |requests| && requests[i].symbol == c;
      if i < n { assert prefix[i] == requests[i]; }
    }
    forall c | c in Symbols(prefix) ensures c in Symbols(requests) {
      var i :| 0 <= i < n && prefix[i].symbol == c;
      assert requests[i] == prefix[i];
    }
  }

  /** `requests[i]` is the first request for `key`. */
  predicate IsFirstRequest(requests: seq<Request>, key: char, i: int) {
    0 <= i < |requests| && requests[i].symbol == key
    && forall j | 0 <= j < i :: requests[j].symbol != key
  }

  /** After any run of requests the dictionary holds exactly the requested
      symbols. */
  lemma {:induction false} ServeCachesRequestedSymbols(requests: seq<Request>)
    ensures Serve(requests).cache.Keys == Symbols(requests)
    decreases |requests|
  {
    if |requests| > 0 {
      var n := |requests| - 1;
      var prefix := requests[..n];
      ServeCachesRequestedSymbols(prefix);
      SymbolsAppend(requests);
    }
  }

  /** Exactly one object is allocated per distinct symbol requested. */
  lemma {:induction false} ServeAllocatesOncePerSymbol(requests: seq<Request>)
    ensures |Serve(requests).objects| == |Serve(requests).cache|
    decreases |requests|
  {
    if |requests| > 0 {
      var n := |requests| - 1;
      ServeAllocatesOncePerSymbol(requests[..n]);
      var f := Serve(requests[..n]);
      var g := Serve(requests);
      if requests[n].symbol !in f.cache {
        assert g.cache.Keys == f.cache.Keys + {requests[n].symbol};
        assert |g.cache.Keys| == |f.cache.Keys| + 1;
      }
    }
  }

  /** A first request stays first when more requests follow it. */
  lemma FirstRequestSurvivesAppend(requests: seq<Request>, key: char, i: int)
    requires |requests| > 0 && IsFirstRequest(requests[..|requests| - 1], key, i)
    ensures IsFirstRequest(requests, key, i)
  {
    var prefix := requests[..|requests| - 1];
    assert forall j | 0 <= j <= i :: requests[j] == prefix[j];
  }

  /** A symbol first requested by the last request of a run is cached with
      that request's size. */
  lemma {:induction false} NewSymbolTakesLastSize(requests: seq<Request>, key: char)
    requires |requests| > 0 && key in Serve(requests).cache
    requires key !in Serve(requests[..|requests| - 1]).cache
    ensures IsFirstRequest(requests, key, |requests| - 1)
    ensures Serve(requests).objects[Serve(requests).cache[key]] == Character(key, requests[|requests| - 1].size)
  {
    var n := |requests| - 1;
    var prefix := requests[..n];
    ServeCachesRequestedSymbols(prefix);
    forall j | 0 <= j < n ensures requests[j].symbol != key {
      assert requests[j].symbol == prefix[j].symbol && prefix[j].symbol in Symbols(prefix);
    }
  }

  /** The object cached for `key` carries the size of the first request for
      `key`: later requests with other sizes change nothing. */
  lemma {:induction false} ServeKeepsFirstSize(requests: seq<Request>, key: char)
    requires key in Serve(requests).cache
    ensures exists i ::
      IsFirstRequest(requests, key, i) && Serve(requests).objects[Serve(requests).cache[key]] == Character(key, requests[i].size)
    decreases |requests|
  {
    var n := |requests| - 1;
    var prefix := requests[..n];
    var f := Serve(prefix);
    var g := Serve(requests);
    if key in f.cache {
      ServeKeepsFirstSize(prefix, key);
      var i :| IsFirstRequest(prefix, key, i) && f.objects[f.cache[key]] == Character(key, prefix[i].size);
      FirstRequestSurvivesAppend(requests, key, i);
      assert g.objects[g.cache[key]] == f.objects[f.cache[key]];
    } else {
      NewSymbolTakesLastSize(requests, key);
    }
  }
}
