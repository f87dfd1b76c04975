/** The streaming server: which channels it listens to, who gets a message, and the key
    that tells the rest of the system that somebody is listening. */
module Streaming {
  import opened Lists

  type Channel = string

  /** Listeners are compared by identity; every stream makes its own. */
  type Listener = nat

  // ---- The registry of one worker ----

  /** `subs`, and the channels the Redis connection is subscribed to. */
  datatype Hub = Hub(subs: map<Channel, seq<Listener>>, redis: set<Channel>)

  const IDLE := Hub(map[], {})

  type Message = string

  /** What every listener was called with. */
  type Received = map<Listener, seq<Message>>

  function Inbox(received: Received, l: Listener): seq<Message> {
    if l in received then received[l] else []
  }

  function Delivered(received: Received, list: seq<Listener>, message: Message): Received
    decreases |list|
  {
    if list == [] then received
    else Delivered(received[list[0] := Inbox(received, list[0]) + [message]], list[1..], message)
  }

  function Listeners(h: Hub, channel: Channel): seq<Listener> {
    if channel in h.subs then h.subs[channel] else []
  }

  function Subscribed(h: Hub, channel: Channel, l: Listener): Hub {
    var list := Listeners(h, channel);
    Hub(h.subs[channel := list + [l]], if list == [] then h.redis + {channel} else h.redis)
  }

  function Unsubscribed(h: Hub, channel: Channel, l: Listener): Hub {
    var list := Without(Listeners(h, channel), l);
    Hub(h.subs[channel := list], if list == [] then h.redis - {channel} else h.redis)
  }

  /** Both change the list of their channel only, and the subscription of their channel
      only: it is there as long as somebody is on the list. */
  lemma RegistryMeans(h: Hub, channel: Channel, l: Listener)
    ensures var (on, off) := (Subscribed(h, channel, l), Unsubscribed(h, channel, l));
      && Listeners(on, channel) == Listeners(h, channel) + [l]
      && Listeners(off, channel) == Without(Listeners(h, channel), l)
      && (forall d | d != channel :: Listeners(on, d) == Listeners(h, d) && Listeners(off, d) == Listeners(h, d))
      && (forall d | d != channel :: (d in on.redis <==> d in h.redis) && (d in off.redis <==> d in h.redis))
      && (Listeners(h, channel) == [] ==> channel in on.redis)
      && (Listeners(off, channel) == [] ==> channel !in off.redis)
      && (Listeners(h, channel) != [] ==> (channel in on.redis <==> channel in h.redis))
      && (Listeners(off, channel) != [] ==> (channel in off.redis <==> channel in h.redis))
  {
  }

  class Registry {
    var subs: map<Channel, seq<Listener>>
    var redis: set<Channel>
    var received: Received

    ghost function State(): Hub
      reads this
    {
      Hub(subs, redis)
    }

    constructor ()
      ensures State() == IDLE && received == map[]
    {
      subs, redis, received := map[], {}, map[];
    }

    method Subscribe(channel: Channel, l: Listener)
      modifies this`subs, this`redis
      ensures State() == Subscribed(old(State()), channel, l)
    {
      subs := subs[channel := if channel in subs then subs[channel] else []];
      if |subs[channel]| == 0 {
        redis := redis + {channel};
      }
      subs := subs[channel := subs[channel] + [l]];
    }

    /** There is a list for every channel that was ever subscribed to. */
    method Unsubscribe(channel: Channel, l: Listener)
      requires channel in subs
      modifies this`subs, this`redis
      ensures State() == Unsubscribed(old(State()), channel, l)
    {
      subs := subs[channel := Without(subs[channel], l)];
      if |subs[channel]| == 0 {
        redis := redis - {channel};
      }
    }

    /** A message comes in on the channel. */
    method Dispatch(channel: Channel, message: Message)
      modifies this`received
      ensures received == Delivered(old(received), Listeners(State(), channel), message)
    {
      if channel !in subs {
        return;
      }
      var callbacks := subs[channel];
      for i := 0 to |callbacks|
        invariant Delivered(old(received), callbacks, message) == Delivered(received, callbacks[i..], message)
      {
        assert callbacks[i..][1..] == callbacks[i + 1..];
        received := received[callbacks[i] := Inbox(received, callbacks[i]) + [message]];
      }
    }
  }

  // ---- Runs of streams ----

  /** Seconds between two heartbeats, and seconds a heartbeat lasts. */
  const INTERVAL := 360
  const LEASE := 1080

  type Stream = (Channel, Listener)

  /** A stream opens once with a listener of its own, with a heartbeat or without; its end
      may be reported any number of times, by `close` and by `error`.  `Beat` is the timer
      of a stream going off, `BeatElsewhere` a heartbeat of another worker. */
  datatype Event =
    | Open(channel: Channel, listener: Listener, backed: bool)
    | End(channel: Channel, listener: Listener)
    | Publish(channel: Channel, message: Message)
    | Beat(listener: Listener)
    | BeatElsewhere(channel: Channel)
    | Pass(seconds: nat)

  /** `known` are all streams so far, `live` those whose end was not reported yet and
      `backed` those opened with a heartbeat; `beats` are the running timers, with the
      channel and the time of the last heartbeat, and `expiry` says when the key
      `subscribed:<channel>` expires. */
  datatype World = World(hub: Hub, received: Received, known: set<Stream>, live: set<Stream>, backed: set<Stream>,
                         beats: map<Listener, (Channel, int)>, expiry: map<Channel, int>, now: int)

  const QUIET := World(IDLE, map[], {}, {}, {}, map[], map[], 0)

  /** The event loop serves a due timer at most `late` seconds late. */
  ghost predicate Possible(w: World, e: Event, late: nat) {
    match e
    case Open(_, l, _) => forall s | s in w.known :: s.1 != l
    case End(c, l) => (c, l) in w.known
    case Beat(l) => l in w.beats
    case Pass(seconds) => forall l | l in w.beats :: w.now + seconds <= w.beats[l].1 + INTERVAL + late
    case _ => true
  }

  /** `tellSubscribed`. */
  function Told(w: World, c: Channel): World {
    w.(expiry := w.expiry[c := w.now + LEASE])
  }

  function AfterEvent(w: World, e: Event): World {
    match e
    case Open(c, l, backed) =>
      var open := w.(hub := Subscribed(w.hub, c, l), known := w.known + {(c, l)}, live := w.live + {(c, l)});
      if backed then Told(open, c).(backed := w.backed + {(c, l)}, beats := w.beats[l := (c, w.now)]) else open
    case End(c, l) =>
      w.(hub := Unsubscribed(w.hub, c, l), live := w.live - {(c, l)}, beats := w.beats - {l})
    case Publish(c, m) =>
      if c in w.hub.redis then w.(received := Delivered(w.received, Listeners(w.hub, c), m)) else w
    case Beat(l) =>
      if l in w.beats then Told(w, w.beats[l].0).(beats := w.beats[l := (w.beats[l].0, w.now)]) else w
    case BeatElsewhere(c) => Told(w, c)
    case Pass(seconds) => w.(now := w.now + seconds)
  }

  ghost predicate Legal(w: World, events: seq<Event>, late: nat)
    decreases |events|
  {
    events == [] || (Possible(w, events[0], late) && Legal(AfterEvent(w, events[0]), events[1..], late))
  }

  function AfterAll(w: World, events: seq<Event>): World
    decreases |events|
  {
    if events == [] then w else AfterAll(AfterEvent(w, events[0]), events[1..])
  }

  ghost predicate NoTwice(list: seq<Listener>) {
    forall i, j | 0 <= i < j < |list| :: list[i] != list[j]
  }

  /** The lists hold the live streams, each once; Redis is subscribed to what somebody
      listens to; and there is a list for every channel ever subscribed to. */
  ghost predicate HubInv(w: World) {
    && w.live <= w.known && w.backed <= w.known
    && (forall s, t | s in w.known && t in w.known && s.1 == t.1 :: s == t)
    && (forall c, l :: l in Listeners(w.hub, c) <==> (c, l) in w.live)
    && (forall c :: NoTwice(Listeners(w.hub, c)))
    && (forall c :: c in w.hub.redis <==> Listeners(w.hub, c) != [])
    && (forall c, l | (c, l) in w.known :: c in w.hub.subs)
  }

  lemma {:induction false} WithoutMembers(list: seq<Listener>, item: Listener)
    ensures forall l :: l in Without(list, item) <==> l in list && l != item
    ensures NoTwice(list) ==> NoTwice(Without(list, item))
  {
    if list != [] {
      WithoutMembers(list[1..], item);
      var rest := Without(list[1..], item);
      forall l ensures l in list <==> l == list[0] || l in list[1..] {
        if l in list {
          var i :| 0 <= i < |list| && list[i] == l;
          assert i == 0 || list[1..][i - 1] == l;
        }
      }
      if NoTwice(list) {
        assert NoTwice(list[1..]) && list[0] !in list[1..];
        assert NoTwice([list[0]] + rest);
      }
    }
  }

  lemma OpenKeepsHub(w: World, c: Channel, l: Listener, backed: bool, late: nat)
    requires HubInv(w) && Possible(w, Open(c, l, backed), late)
    ensures HubInv(AfterEvent(w, Open(c, l, backed)))
  {
    var after := AfterEvent(w, Open(c, l, backed));
    var list := Listeners(w.hub, c);
    assert (c, l) !in w.live;
    assert Listeners(after.hub, c) == list + [l];
    forall d | d != c ensures Listeners(after.hub, d) == Listeners(w.hub, d) {
    }
  }

  lemma EndKeepsHub(w: World, c: Channel, l: Listener, late: nat)
    requires HubInv(w) && Possible(w, End(c, l), late)
    ensures HubInv(AfterEvent(w, End(c, l)))
  {
    var after := AfterEvent(w, End(c, l));
    var list := Listeners(w.hub, c);
    WithoutMembers(list, l);
    assert Listeners(after.hub, c) == Without(list, l);
    forall d | d != c ensures Listeners(after.hub, d) == Listeners(w.hub, d) {
    }
  }

  /** The running timers are those of the live streams with a heartbeat. */
  ghost predicate TimersInv(w: World) {
    && (forall c, l | (c, l) in w.live && (c, l) in w.backed :: l in w.beats && w.beats[l].0 == c)
    && (forall l | l in w.beats :: (w.beats[l].0, l) in w.live && (w.beats[l].0, l) in w.backed)
  }

  lemma EventKeepsTimers(w: World, e: Event, late: nat)
    requires HubInv(w) && TimersInv(w) && Possible(w, e, late)
    ensures TimersInv(AfterEvent(w, e))
  {
    match e {
      case Open(c, l, backed) => OpenKeepsTimers(w, c, l, backed, late);
      case End(c, l) => EndKeepsTimers(w, c, l, late);
      case _ =>
    }
  }

  lemma OpenKeepsTimers(w: World, c: Channel, l: Listener, backed: bool, late: nat)
    requires HubInv(w) && TimersInv(w) && Possible(w, Open(c, l, backed), late)
    ensures TimersInv(AfterEvent(w, Open(c, l, backed)))
  {
    assert (c, l) !in w.backed;
    forall k | k in w.beats ensures k != l {
      assert (w.beats[k].0, k) in w.known;
    }
  }

  lemma EndKeepsTimers(w: World, c: Channel, l: Listener, late: nat)
    requires HubInv(w) && TimersInv(w) && Possible(w, End(c, l), late)
    ensures TimersInv(AfterEvent(w, End(c, l)))
  {
    forall d, k | (d, k) in w.live && (d, k) != (c, l) ensures k != l {
    }
  }

  /** No timer is overdue, and the key of its channel lasts from its last heartbeat on. */
  ghost predicate Lasting(w: World, late: nat, l: Listener)
    requires l in w.beats
  {
    var (c, last) := w.beats[l];
    w.now <= last + INTERVAL + late && c in w.expiry && w.expiry[c] >= last + LEASE
  }

  ghost predicate LeaseInv(w: World, late: nat) {
    (forall l | l in w.beats :: Lasting(w, late, l)) && (forall c | c in w.expiry :: w.expiry[c] <= w.now + LEASE)
  }

  lemma EventKeepsLease(w: World, e: Event, late: nat)
    requires LeaseInv(w, late) && Possible(w, e, late)
    ensures LeaseInv(AfterEvent(w, e), late)
  {
    var after := AfterEvent(w, e);
    forall l | l in after.beats ensures Lasting(after, late, l) {
      if l in w.beats {
        assert Lasting(w, late, l);
      }
    }
  }

  ghost predicate Inv(w: World, late: nat) {
    HubInv(w) && TimersInv(w) && LeaseInv(w, late)
  }

  lemma EventKeepsInv(w: World, e: Event, late: nat)
    requires Inv(w, late) && Possible(w, e, late)
    ensures Inv(AfterEvent(w, e), late)
  {
    EventKeepsTimers(w, e, late);
    EventKeepsLease(w, e, late);
    match e {
      case Open(c, l, backed) => OpenKeepsHub(w, c, l, backed, late);
      case End(c, l) => EndKeepsHub(w, c, l, late);
      case _ =>
    }
  }

  lemma {:induction false} RunKeepsInv(w: World, events: seq<Event>, late: nat)
    requires Inv(w, late) && Legal(w, events, late)
    ensures Inv(AfterAll(w, events), late)
    decreases |events|
  {
    if events != [] {
      EventKeepsInv(w, events[0], late);
      RunKeepsInv(AfterEvent(w, events[0]), events[1..], late);
    }
  }

  // ---- Delivery ----

  lemma {:induction false} DeliveredOnce(received: Received, list: seq<Listener>, m: Message, l: Listener)
    requires NoTwice(list)
    ensures Inbox(Delivered(received, list, m), l) == Inbox(received, l) + if l in list then [m] else []
    decreases |list|
  {
    if list != [] {
      assert NoTwice(list[1..]) && list[0] !in list[1..];
      assert l in list <==> l == list[0] || l in list[1..];
      DeliveredOnce(received[list[0] := Inbox(received, list[0]) + [m]], list[1..], m, l);
    }
  }

  /** The messages published on the channel of a stream while it is live, in order. */
  function Due(w: World, events: seq<Event>, c: Channel, l: Listener): seq<Message>
    decreases |events|
  {
    if events == [] then []
    else
      (if events[0].Publish? && events[0].channel == c && (c, l) in w.live then [events[0].message] else [])
      + Due(AfterEvent(w, events[0]), events[1..], c, l)
  }

  /** The stream is known, or its listener has yet to come. */
  ghost predicate KnownOrNew(w: World, c: Channel, l: Listener) {
    (c, l) in w.known || forall s | s in w.known :: s.1 != l
  }

  lemma EventDelivers(w: World, e: Event, late: nat, c: Channel, l: Listener)
    requires HubInv(w) && Possible(w, e, late) && KnownOrNew(AfterEvent(w, e), c, l)
    ensures KnownOrNew(w, c, l)
    ensures Inbox(AfterEvent(w, e).received, l) == Inbox(w.received, l) +
      if e.Publish? && e.channel == c && (c, l) in w.live then [e.message] else []
  {
    if e.Publish? {
      var list := Listeners(w.hub, e.channel);
      DeliveredOnce(w.received, list, e.message, l);
      assert l in list <==> (e.channel, l) in w.live;
    }
  }

  lemma {:induction false} RunDelivers(w: World, events: seq<Event>, late: nat, c: Channel, l: Listener)
    requires Inv(w, late) && Legal(w, events, late) && (c, l) in AfterAll(w, events).known
    ensures Inbox(AfterAll(w, events).received, l) == Inbox(w.received, l) + Due(w, events, c, l)
    ensures KnownOrNew(w, c, l)
    decreases |events|
  {
    if events != [] {
      var next := AfterEvent(w, events[0]);
      EventKeepsInv(w, events[0], late);
      RunDelivers(next, events[1..], late, c, l);
      EventDelivers(w, events[0], late, c, l);
      var due := Due(next, events[1..], c, l);
      var now := if events[0].Publish? && events[0].channel == c && (c, l) in w.live then [events[0].message] else [];
      assert Due(w, events, c, l) == now + due;
      assert Inbox(w.received, l) + now + due == Inbox(w.received, l) + (now + due);
    }
  }

  /** Main result: whatever streams open and end, and however often an end is reported,
      the server listens to exactly the channels with a live stream, and every stream got
      the messages published on its channel while it was live, in order, each once, and
      no others. */
  lemma DeliveryIsExact(events: seq<Event>, late: nat, c: Channel, l: Listener)
    requires Legal(QUIET, events, late)
    ensures var w := AfterAll(QUIET, events);
      && (c in w.hub.redis <==> exists k :: (c, k) in w.live)
      && ((c, l) in w.known ==> Inbox(w.received, l) == Due(QUIET, events, c, l))
  {
    RunKeepsInv(QUIET, events, late);
    var w := AfterAll(QUIET, events);
    var list := Listeners(w.hub, c);
    if list != [] {
      assert list[0] in list && (c, list[0]) in w.live;
    }
    if k :| (c, k) in w.live {
      assert k in list;
    }
    if (c, l) in w.known {
      RunDelivers(QUIET, events, late, c, l);
    }
  }

  /** A second report of the same end changes nothing. */
  lemma SecondEndIsHarmless(w: World, late: nat, c: Channel, l: Listener)
    requires HubInv(w) && Possible(w, End(c, l), late)
    ensures var once := AfterEvent(w, End(c, l)); AfterEvent(once, End(c, l)) == once
  {
    var once := AfterEvent(w, End(c, l));
    WithoutMembers(Listeners(w.hub, c), l);
    WithoutNobody(Listeners(once.hub, c), l);
  }

  lemma {:induction false} WithoutNobody(list: seq<Listener>, item: Listener)
    requires item !in list
    ensures Without(list, item) == list
  {
    if list != [] {
      WithoutNobody(list[1..], item);
    }
  }

  // ---- The lease ----

  ghost predicate KeyExists(w: World, c: Channel) {
    c in w.expiry && w.now < w.expiry[c]
  }

  /** Eighteen minutes after a heartbeat the key is gone if no other has come, and not
      before. */
  lemma HeartbeatLasts(w: World, c: Channel, seconds: nat)
    ensures KeyExists(AfterEvent(AfterEvent(w, BeatElsewhere(c)), Pass(seconds)), c) <==> seconds < 1080
  {
  }

  /** In every run the key of a channel is there while a stream with a heartbeat is live
      on it. */
  ghost predicate KeysLast(late: nat) {
    forall events, c, l | Legal(QUIET, events, late) ::
      var w := AfterAll(QUIET, events);
      (c, l) in w.live && (c, l) in w.backed ==> KeyExists(w, c)
  }

  /** Main result: whichever streams open and end, on the same channel or not, the key of a
      channel lasts as long as a stream with a heartbeat is live on it, if and only if
      timers are served less than 720 seconds late. */
  lemma LeaseHoldsIff(late: nat)
    ensures KeysLast(late) <==> late < 720
  {
    if late < 720 {
      forall events, c, l | Legal(QUIET, events, late)
        ensures var w := AfterAll(QUIET, events);
          (c, l) in w.live && (c, l) in w.backed ==> KeyExists(w, c)
      {
        RunKeepsInv(QUIET, events, late);
        var w := AfterAll(QUIET, events);
        assert l in w.beats ==> Lasting(w, late, l);
      }
    } else {
      var start, overdue := Open("", 0, true), Pass(LEASE);
      var events := [start, overdue];
      var w := AfterEvent(QUIET, start);
      assert events[1..] == [overdue] && [overdue][1..] == [];
      assert AfterAll(w, [overdue]) == AfterEvent(w, overdue);
      assert Legal(w, [overdue], late) && Legal(QUIET, events, late);
      assert ("", 0) in AfterAll(QUIET, events).live;
      assert !KeyExists(AfterAll(QUIET, events), "");
    }
  }
}
