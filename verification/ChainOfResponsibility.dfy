/** Chain of Responsibility: support requests are offered to a linked chain of
    handlers; the first handler that accepts a request acts on it and the
    request travels no further. Handler objects live in a `Store` keyed by
    object identity, so that `SetNext` can re-link them as the C# code does. */
module ChainOfResponsibility {
  import opened Wrappers

  /** The three concrete handler classes. */
  datatype Kind = Technical | Billing | General

  type HandlerId = nat

  /** A handler object: its class and its `nextHandler` field (`None` is null). */
  datatype Handler = Handler(kind: Kind, next: Option<HandlerId>)

  /** Every handler object in existence, by identity. */
  type Store = map<HandlerId, Handler>

  /** Every successor reference names an existing handler object. */
  ghost predicate Valid(s: Store) {
    forall id | id in s :: s[id].next.Some? ==> s[id].next.value in s
  }

  /** Whether a handler of kind `k` acts on `request` itself instead of
      forwarding it: the specialised handlers compare the whole request
      string, the general handler takes everything. */
  function Accepts(k: Kind, request: string): (r: bool)
    ensures k == General ==> r
    ensures r && k == Technical ==> request == "Technical"
    ensures r && k == Billing ==> request == "Billing"
  {
    match k
    case Technical => request == "Technical"
    case Billing => request == "Billing"
    case General => true
  }

  /** `BaseHandler.SetNext`: installs `n` as the successor of `h` and returns
      `n` itself, which is what makes `a.SetNext(b).SetNext(c)` build a→b→c. */
  function SetNext(s: Store, h: HandlerId, n: HandlerId): (r: (Store, HandlerId))
    requires h in s && n in s
    ensures r.1 == n
    ensures r.0.Keys == s.Keys
    ensures r.0[h].kind == s[h].kind && r.0[h].next == Some(n)
    ensures forall id | id in s && id != h :: r.0[id] == s[id]
    ensures Valid(s) ==> Valid(r.0)
  {
    (s[h := s[h].(next := Some(n))], n)
  }

  /** What a call to `Handle` on a chain ends in: exactly one handler acts,
      the request falls off the end of the chain, or the request circles a
      cycle of non-accepting handlers forever (unbounded recursion in C#). */
  datatype Outcome = ActedBy(id: HandlerId) | Dropped | Diverges

  /** `Handle` of the handler `id`, where `visited` holds the handlers that
      already forwarded this request further up the call stack. A handler
      reached a second time forwards exactly as it did the first time, so
      reaching one again means the recursion never ends. */
  function Handle(s: Store, id: HandlerId, request: string, visited: set<HandlerId>): (o: Outcome)
    requires Valid(s) && id in s && id !in visited && visited <= s.Keys
    ensures o == ActedBy(id) <==> Accepts(s[id].kind, request)
    ensures !Accepts(s[id].kind, request) && s[id].next.None? ==> o == Dropped
    ensures o.ActedBy? ==> o.id in s && Accepts(s[o.id].kind, request)
    ensures o.ActedBy? && o.id != id ==> o.id !in visited && !Accepts(s[id].kind, request)
    decreases s.Keys - visited
  {
    var h := s[id];
    if Accepts(h.kind, request) then
      ActedBy(id)
    else
      match h.next
      case None => Dropped
      case Some(n) =>
        if n in visited || n == id then Diverges
        else
          assert s.Keys - (visited + {id}) < s.Keys - visited;
          Handle(s, n, request, visited + {id})
  }

  /** Offering `request` to the chain that starts at `head`: the handler
      that acts is the first on the forwarding path that accepts; if none
      accepts, the request is dropped at the end of the path, or circles
      forever when the path loops back. */
  function Route(s: Store, head: HandlerId, request: string): (o: Outcome)
    requires Valid(s) && head in s
    ensures var p := Walk(s, head, {});
      && (o.ActedBy? <==> !NoneAccept(s, p, request))
      && (o.ActedBy? ==> exists i :: FirstAcceptor(s, p, request, i) && p[i] == o.id)
      && (o.Dropped? <==> NoneAccept(s, p, request) && s[p[|p| - 1]].next.None?)
      && (o.Diverges? <==> NoneAccept(s, p, request) && s[p[|p| - 1]].next.Some?)
  {
    HandleFollowsWalk(s, head, request, {});
    Handle(s, head, request, {})
  }

  /** The handlers reached from `id` by following successor links, stopping at
      the last handler before a handler repeats or the links run out. */
  function Walk(s: Store, id: HandlerId, visited: set<HandlerId>): (p: seq<HandlerId>)
    requires Valid(s) && id in s && id !in visited && visited <= s.Keys
    ensures |p| >= 1 && p[0] == id
    ensures forall i | 0 <= i < |p| :: p[i] in s && p[i] !in visited
    decreases s.Keys - visited
  {
    match s[id].next
    case None => [id]
    case Some(n) =>
      if n in visited || n == id then [id]
      else
        assert s.Keys - (visited + {id}) < s.Keys - visited;
        [id] + Walk(s, n, visited + {id})
  }

  /** No handler on the path `p` accepts `request`. */
  predicate NoneAccept(s: Store, p: seq<HandlerId>, request: string)
    requires forall i | 0 <= i < |p| :: p[i] in s
  {
    forall i | 0 <= i < |p| :: !Accepts(s[p[i]].kind, request)
  }

  /** Handler `p[i]` is the first handler on the path `p` that accepts. */
  predicate FirstAcceptor(s: Store, p: seq<HandlerId>, request: string, i: int)
    requires forall k | 0 <= k < |p| :: p[k] in s
  {
    0 <= i < |p| && Accepts(s[p[i]].kind, request) && NoneAccept(s, p[..i], request)
  }

  /** No handler occurs twice on the path `p`. */
  predicate Distinct(p: seq<HandlerId>) {
    forall i, j | 0 <= i < j < |p| :: p[i] != p[j]
  }

  /** A walk never visits the same handler twice. */
  lemma {:induction false} WalkIsSimple(s: Store, id: HandlerId, visited: set<HandlerId>)
    requires Valid(s) && id in s && id !in visited && visited <= s.Keys
    ensures Distinct(Walk(s, id, visited))
    decreases s.Keys - visited
  {
    match s[id].next
    case None =>
    case Some(n) =>
      if n !in visited && n != id {
        assert s.Keys - (visited + {id}) < s.Keys - visited;
        WalkIsSimple(s, n, visited + {id});
        var q := Walk(s, n, visited + {id});
        var p := Walk(s, id, visited);
        assert p == [id] + q;
        forall i, j | 0 <= i < j < |p| ensures p[i] != p[j] {
          assert p[j] == q[j - 1] && p[j] !in visited + {id};
          if i > 0 {
            assert p[i] == q[i - 1];
            assert Distinct(q);
          }
        }
      }
  }

  /** `Handle` agrees with the path-based reading of the chain: the handler
      that acts is the first on the walk that accepts (so every handler after
      it never sees the request); if none accepts, the request is dropped when
      the walk ends at a handler without successor, and circles forever when
      it ends at a handler whose successor was already visited. */
  lemma {:induction false} HandleFollowsWalk(s: Store, id: HandlerId, request: string, visited: set<HandlerId>)
    requires Valid(s) && id in s && id !in visited && visited <= s.Keys
    ensures var p := Walk(s, id, visited); var o := Handle(s, id, request, visited);
      && (o.ActedBy? <==> !NoneAccept(s, p, request))
      && (o.ActedBy? ==> exists i :: FirstAcceptor(s, p, request, i) && p[i] == o.id)
      && (o.Dropped? <==> NoneAccept(s, p, request) && s[p[|p| - 1]].next.None?)
      && (o.Diverges? <==> NoneAccept(s, p, request) && s[p[|p| - 1]].next.Some?)
    decreases s.Keys - visited
  {
    var p := Walk(s, id, visited);
    var o := Handle(s, id, request, visited);
    if Accepts(s[id].kind, request) {
      assert FirstAcceptor(s, p, request, 0);
    } else {
      match s[id].next
      case None =>
      case Some(n) =>
        if n !in visited && n != id {
          assert s.Keys - (visited + {id}) < s.Keys - visited;
          HandleFollowsWalk(s, n, request, visited + {id});
          var q := Walk(s, n, visited + {id});
          assert p == [id] + q;
          assert o == Handle(s, n, request, visited + {id});
          assert NoneAccept(s, p, request) <==> NoneAccept(s, q, request) by {
            if NoneAccept(s, q, request) {
              forall i | 0 <= i < |p| ensures !Accepts(s[p[i]].kind, request) {
                if i > 0 { assert p[i] == q[i - 1]; }
              }
            }
            if NoneAccept(s, p, request) {
              forall i | 0 <= i < |q| ensures !Accepts(s[q[i]].kind, request) {
                assert q[i] == p[i + 1];
              }
            }
          }
          if o.ActedBy? {
            var i :| FirstAcceptor(s, q, request, i) && q[i] == o.id;
            assert p[..i + 1] == [id] + q[..i];
            assert FirstAcceptor(s, p, request, i + 1);
          }
        }
    }
  }

  // Identities of the three handler objects `SupportChain` creates.
  const TechnicalHandler: HandlerId := 0
  const BillingHandler: HandlerId := 1
  const GeneralHandler: HandlerId := 2

  /** The chain `SupportChain.ProcessRequest` builds: three fresh handlers,
      linked by `technical.SetNext(billing).SetNext(general)`. */
  function SupportChain(): (s: Store)
    ensures Valid(s) && s.Keys == {TechnicalHandler, BillingHandler, GeneralHandler}
    ensures s[TechnicalHandler] == Handler(Technical, Some(BillingHandler))
    ensures s[BillingHandler] == Handler(Billing, Some(GeneralHandler))
    ensures s[GeneralHandler] == Handler(General, None)
  {
    var unlinked := map[TechnicalHandler := Handler(Technical, None),
                     BillingHandler := Handler(Billing, None),
                     GeneralHandler := Handler(General, None)];
    var first := SetNext(unlinked, TechnicalHandler, BillingHandler);
    var second := SetNext(first.0, first.1, GeneralHandler);
    second.0
  }

  /** `SupportChain.ProcessRequest`: exactly one handler acts on every
      request, and which one depends only on the request text. */
  function ProcessRequest(request: string): (o: Outcome)
    ensures o.ActedBy?
    ensures o == ActedBy(TechnicalHandler) <==> request == "Technical"
    ensures o == ActedBy(BillingHandler) <==> request == "Billing"
    ensures o == ActedBy(GeneralHandler) <==> request != "Technical" && request != "Billing"
  {
    Route(SupportChain(), TechnicalHandler, request)
  }

  /** The driver's three requests reach the three handlers in turn. */
  lemma ProcessRequestScenario()
    ensures ProcessRequest("Technical") == ActedBy(TechnicalHandler)
    ensures ProcessRequest("Billing") == ActedBy(BillingHandler)
    ensures ProcessRequest("Unknown") == ActedBy(GeneralHandler)
  {
  }
}
