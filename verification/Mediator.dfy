/** Mediator: pilots never talk to each other directly; a
    `CommunicationMediator` keeps a dictionary from user Id to user and relays
    every message to all registered users except the sender. */
module Mediator {

  type UserId = string

  /** A `CommsUser` object (a `Pilot`): its `Id` and a tag standing for the
      object's identity, so that two pilot objects with the same Id are still
      told apart. */
  datatype Participant = Pilot(id: UserId, tag: nat)

  /** The mediator's `userMap`. */
  type Registry = map<UserId, Participant>

  /** One call of `Receive(message)` on `recipient`. */
  datatype Delivery = Delivery(recipient: Participant, message: string)

  /** Every entry of the registry is stored under its participant's own Id;
      `AddUser` is the only writer of `userMap`, and it keeps this. */
  ghost predicate Keyed(reg: Registry) {
    forall k | k in reg :: reg[k].id == k
  }

  /** `CommunicationMediator.AddUser`: registers `user` under its Id,
      replacing whoever held that Id before (last write wins). */
  function AddUser(reg: Registry, user: Participant): (r: Registry)
    ensures r.Keys == reg.Keys + {user.id}
    ensures r[user.id] == user
    ensures forall k | k in reg && k != user.id :: r[k] == reg[k]
    ensures user.id in reg ==> |r| == |reg|
    ensures user.id !in reg ==> |r| == |reg| + 1
    ensures Keyed(reg) ==> Keyed(r)
  {
    var r := reg[user.id := user];
    assert r.Keys == reg.Keys + {user.id};
    r
  }

  /** The participants a message from `senderId` reaches: every registered
      participant whose Id differs from `senderId`. */
  function Recipients(reg: Registry, senderId: UserId): (r: set<Participant>)
    requires Keyed(reg)
    ensures forall p :: p in r <==> p.id in reg && reg[p.id] == p && p.id != senderId
    ensures senderId !in reg ==> r == reg.Values
    ensures reg == map[] ==> r == {}
  {
    set k | k in reg && k != senderId :: reg[k]
  }

  /** The participants registered under the keys `keys`. */
  function Image(reg: Registry, keys: set<UserId>): set<Participant>
    requires keys <= reg.Keys
  {
    set k | k in keys :: reg[k]
  }

  /** The participants that received something in `trace`. */
  function Receivers(trace: seq<Delivery>): set<Participant> {
    set i | 0 <= i < |trace| :: trace[i].recipient
  }

  /** Appending a delivery adds exactly its recipient to the receivers. */
  lemma ReceiversAppend(trace: seq<Delivery>, d: Delivery)
    ensures Receivers(trace + [d]) == Receivers(trace) + {d.recipient}
  {
    var t := trace + [d];
    forall p | p in Receivers(trace) ensures p in Receivers(t) {
      var i :| 0 <= i < |trace| && trace[i].recipient == p;
      assert t[i] == trace[i];
    }
    assert t[|trace|] == d;
    forall p | p in Receivers(t) ensures p in Receivers(trace) + {d.recipient} {
      var i :| 0 <= i < |t| && t[i].recipient == p;
      if i < |trace| { assert t[i] == trace[i]; }
    }
  }

  /** Halfway through `SendMessage`: the keys outside `pending` have been
      visited, and every visited key other than the sender's received the
      message exactly once. */
  ghost predicate Sending(reg: Registry, message: string, senderId: UserId, pending: set<UserId>, trace: seq<Delivery>) {
    && pending <= reg.Keys
    && var sent := (reg.Keys - pending) - {senderId};
    && |trace| == |sent|
    && (forall i | 0 <= i < |trace| :: trace[i].message == message && trace[i].recipient.id in sent)
    && Receivers(trace) == Image(reg, sent)
    && (forall i, j | 0 <= i < j < |trace| :: trace[i].recipient != trace[j].recipient)
  }

  /** Visiting the sender's own key delivers nothing and keeps `Sending`. */
  lemma SkipSender(reg: Registry, message: string, senderId: UserId, pending: set<UserId>, trace: seq<Delivery>)
    requires Sending(reg, message, senderId, pending, trace) && senderId in pending
    ensures Sending(reg, message, senderId, pending - {senderId}, trace)
  {
    assert (reg.Keys - (pending - {senderId})) - {senderId} == (reg.Keys - pending) - {senderId};
  }

  /** Visiting any other key delivers to its participant and keeps `Sending`. */
  lemma DeliverTo(reg: Registry, message: string, senderId: UserId, pending: set<UserId>, trace: seq<Delivery>, k: UserId)
    requires Keyed(reg) && Sending(reg, message, senderId, pending, trace) && k in pending && k != senderId
    ensures Sending(reg, message, senderId, pending - {k}, trace + [Delivery(reg[k], message)])
  {
    var sent := (reg.Keys - pending) - {senderId};
    var sent' := (reg.Keys - (pending - {k})) - {senderId};
    var d := Delivery(reg[k], message);
    var trace' := trace + [d];
    assert sent' == sent + {k};
    assert k !in sent;
    assert |trace'| == |sent'|;
    forall i | 0 <= i < |trace'|
      ensures trace'[i].message == message && trace'[i].recipient.id in sent'
    {
      if i < |trace| { assert trace'[i] == trace[i]; }
    }
    ReceiversAppend(trace, d);
    assert Image(reg, sent') == Image(reg, sent) + {reg[k]};
    assert reg[k].id == k;
    forall i, j | 0 <= i < j < |trace'| ensures trace'[i].recipient != trace'[j].recipient {
      assert trace'[i] == trace[i];
      if j == |trace| {
        assert trace[i].recipient.id in sent;
      } else {
        assert trace'[j] == trace[j];
      }
    }
  }

  /** `CommunicationMediator.SendMessage`: walks the dictionary's keys in
      an order the dictionary chooses (here: any order at all) and calls
      `Receive(message)` on every user whose key differs from `senderId`.
      Each such user receives the unchanged message exactly once, nobody
      else receives anything, and an empty registry delivers nothing. */
  method SendMessage(reg: Registry, message: string, senderId: UserId) returns (trace: seq<Delivery>)
    requires Keyed(reg)
    ensures Receivers(trace) == Recipients(reg, senderId)
    ensures forall i | 0 <= i < |trace| :: trace[i].message == message
    ensures forall i, j | 0 <= i < j < |trace| :: trace[i].recipient != trace[j].recipient
    ensures |trace| == |reg.Keys - {senderId}|
  {
    trace := [];
    var pending := reg.Keys;
    while pending != {}
      invariant Sending(reg, message, senderId, pending, trace)
      decreases pending
    {
      var k :| k in pending;
      if k != senderId {
        DeliverTo(reg, message, senderId, pending, trace, k);
        trace := trace + [Delivery(reg[k], message)];
      } else {
        SkipSender(reg, message, senderId, pending, trace);
      }
      pending := pending - {k};
    }
    SendingDone(reg, message, senderId, trace);
  }

  /** Once every key has been visited, the trace reaches exactly the
      recipients, each once. */
  lemma SendingDone(reg: Registry, message: string, senderId: UserId, trace: seq<Delivery>)
    requires Keyed(reg) && Sending(reg, message, senderId, {}, trace)
    ensures Receivers(trace) == Recipients(reg, senderId)
    ensures forall i | 0 <= i < |trace| :: trace[i].message == message
    ensures forall i, j | 0 <= i < j < |trace| :: trace[i].recipient != trace[j].recipient
    ensures |trace| == |reg.Keys - {senderId}|
  {
    assert (reg.Keys - {}) - {senderId} == reg.Keys - {senderId};
    assert Recipients(reg, senderId) == Image(reg, reg.Keys - {senderId});
  }

  /** `Pilot.Send`: the pilot hands the message, unchanged, to the mediator
      with its own Id as the sender, so it never hears its own message. */
  method Send(reg: Registry, pilot: Participant, message: string) returns (trace: seq<Delivery>)
    requires Keyed(reg)
    ensures Receivers(trace) == Recipients(reg, pilot.id)
    ensures forall i | 0 <= i < |trace| :: trace[i].message == message && trace[i].recipient.id != pilot.id
  {
    trace := SendMessage(reg, message, pilot.id);
  }

  /** A participant displaced by a later registration under the same Id
      receives none of the messages sent afterwards, whoever sends them. */
  lemma ReplacedParticipantIsSilenced(reg: Registry, displaced: Participant, successor: Participant, senderId: UserId)
    requires Keyed(reg) && displaced.id == successor.id && displaced != successor
    ensures Keyed(AddUser(reg, successor))
    ensures displaced !in Recipients(AddUser(reg, successor), senderId)
    ensures successor.id != senderId ==> successor in Recipients(AddUser(reg, successor), senderId)
  {
  }

  /** The driver: pilots "1", "2" and "3" registered in turn; a message from
      "1" reaches exactly "2" and "3". */
  lemma ThreePilotsScenario()
    ensures var p1, p2, p3 := Pilot("1", 1), Pilot("2", 2), Pilot("3", 3);
      var reg := AddUser(AddUser(AddUser(map[], p1), p2), p3);
      Keyed(reg) && Recipients(reg, "1") == {p2, p3}
  {
    var p1, p2, p3 := Pilot("1", 1), Pilot("2", 2), Pilot("3", 3);
    var reg := AddUser(AddUser(AddUser(map[], p1), p2), p3);
    assert reg == map["1" := p1, "2" := p2, "3" := p3];
    assert p2 in Recipients(reg, "1") && p3 in Recipients(reg, "1");
  }
}
