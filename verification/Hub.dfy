/** The live-connection hub: a map from sessions to buffered channels of capacity one. Looking a
    channel up and sending to it are separate steps, because the lock is released in between. */
module Hub {
  import opened Common

  type SessionId = int

  type ChannelId = int

  const CAPACITY := 1

  /** `buffers` holds what each channel still has, `taken` what was received from it before. */
  datatype HubState = HubState(
    channels: map<SessionId, ChannelId>,
    buffers: map<ChannelId, seq<string>>,
    taken: map<ChannelId, seq<string>>,
    nextChannel: ChannelId,
    lookedUp: map<int, (ChannelId, string)>)

  datatype HubStep =
    | Register(session: SessionId)
    | Unregister(session: SessionId)
    | Lookup(notifier: int, session: SessionId, event: string)
    | Send(notifier: int)
    | Take(channel: ChannelId)

  const NO_CONNECTIONS := HubState(map[], map[], map[], 1, map[])

  function Registered(h: HubState, session: SessionId): HubState {
    h.(channels := h.channels[session := h.nextChannel],
       buffers := h.buffers[h.nextChannel := []],
       taken := h.taken[h.nextChannel := []],
       nextChannel := h.nextChannel + 1)
  }

  /** The non-blocking send: a full buffer drops the event. */
  function Offer(buffer: seq<string>, event: string): seq<string> {
    if |buffer| < CAPACITY then buffer + [event] else buffer
  }

  function Sent(h: HubState, c: ChannelId, event: string): HubState {
    if c in h.buffers then h.(buffers := h.buffers[c := Offer(h.buffers[c], event)]) else h
  }

  function Next(h: HubState, s: HubStep): HubState {
    match s
    case Register(session) => Registered(h, session)
    case Unregister(session) => h.(channels := h.channels - {session})
    case Lookup(n, session, event) =>
      if session in h.channels then h.(lookedUp := h.lookedUp[n := (h.channels[session], event)])
      else h.(lookedUp := h.lookedUp - {n})
    case Send(n) =>
      if n in h.lookedUp then Sent(h, h.lookedUp[n].0, h.lookedUp[n].1).(lookedUp := h.lookedUp - {n}) else h
    case Take(c) =>
      if c in h.buffers && c in h.taken && h.buffers[c] != []
      then h.(buffers := h.buffers[c := h.buffers[c][1..]], taken := h.taken[c := h.taken[c] + [h.buffers[c][0]]])
      else h
  }

  function Run(h: HubState, steps: seq<HubStep>): HubState
    decreases |steps|
  {
    if steps == [] then h else Run(Next(h, steps[0]), steps[1..])
  }

  ghost predicate Valid(h: HubState) {
    && h.buffers.Keys == h.taken.Keys
    && (forall c :: c in h.buffers ==> c < h.nextChannel && |h.buffers[c]| <= CAPACITY)
    && (forall s :: s in h.channels ==> h.channels[s] in h.buffers)
    && (forall n :: n in h.lookedUp ==> h.lookedUp[n].0 in h.buffers)
  }

  lemma NextKeepsValid(h: HubState, s: HubStep)
    requires Valid(h)
    ensures Valid(Next(h, s))
  {
  }

  /** No channel ever holds more than one event, in any run. */
  lemma {:induction false} AtMostOneEvent(h: HubState, steps: seq<HubStep>)
    requires Valid(h)
    ensures Valid(Run(h, steps))
    decreases |steps|
  {
    if steps != [] {
      NextKeepsValid(h, steps[0]);
      AtMostOneEvent(Next(h, steps[0]), steps[1..]);
    }
  }

  /** Everything a channel was ever given, oldest first. */
  function History(h: HubState, c: ChannelId): seq<string>
    requires c in h.buffers && c in h.taken
  {
    h.taken[c] + h.buffers[c]
  }

  /** What a channel was given stays, in order: received events are received once, and the one that
      waits is never replaced or lost. */
  lemma {:induction false} NothingIsLost(h: HubState, steps: seq<HubStep>, c: ChannelId)
    requires Valid(h) && c in h.buffers
    ensures c in Run(h, steps).buffers && c in Run(h, steps).taken
    ensures h.taken[c] <= Run(h, steps).taken[c]
    ensures History(h, c) <= History(Run(h, steps), c)
    decreases |steps|
  {
    if steps != [] {
      NextKeepsValid(h, steps[0]);
      NextExtendsHistory(h, steps[0], c);
      NothingIsLost(Next(h, steps[0]), steps[1..], c);
    }
  }

  lemma NextExtendsHistory(h: HubState, s: HubStep, c: ChannelId)
    requires Valid(h) && c in h.buffers
    ensures c in Next(h, s).buffers && c in Next(h, s).taken
    ensures h.taken[c] <= Next(h, s).taken[c]
    ensures History(h, c) <= History(Next(h, s), c)
  {
  }

  /** The event is under way to the channel from a lookup, or is one the channel was given. */
  ghost predicate Carries(h: HubState, c: ChannelId, event: string)
    requires c in h.buffers && c in h.taken
  {
    event in History(h, c) || exists n :: n in h.lookedUp && h.lookedUp[n] == (c, event)
  }

  /** The step looks this very event up for this channel. */
  predicate Brings(h: HubState, s: HubStep, c: ChannelId, event: string) {
    s.Lookup? && s.event == event && s.session in h.channels && h.channels[s.session] == c
  }

  lemma CarriesAfter(h: HubState, s: HubStep, c: ChannelId, event: string)
    requires Valid(h) && c in h.buffers && Carries(Next(h, s), c, event)
    ensures Carries(h, c, event) || Brings(h, s, c, event)
  {
    var h' := Next(h, s);
    NextKeepsValid(h, s);
    match s {
      case Lookup(n, session, e) =>
        assert forall m :: m in h'.lookedUp && m != n ==> m in h.lookedUp && h'.lookedUp[m] == h.lookedUp[m];
      case Send(n) =>
        assert forall m :: m in h'.lookedUp ==> m in h.lookedUp && h'.lookedUp[m] == h.lookedUp[m];
        if n in h.lookedUp && h.lookedUp[n].0 == c && event in History(h', c) && event !in History(h, c) {
          assert History(h', c) == History(h, c) + [h.lookedUp[n].1];
          assert h.lookedUp[n] == (c, event);
        }
      case Take(d) =>
        assert History(h', c) == History(h, c);
      case _ =>
    }
  }

  /** Over any run, every event that a channel is given was looked up as that event for that channel. */
  lemma {:induction false} EventsWereLookedUp(h: HubState, steps: seq<HubStep>, c: ChannelId, event: string)
    requires Valid(h) && c in h.buffers && c in Run(h, steps).buffers && c in Run(h, steps).taken
    requires Carries(Run(h, steps), c, event)
    ensures Carries(h, c, event)
            || exists i :: 0 <= i < |steps| && Brings(Run(h, steps[..i]), steps[i], c, event)
    decreases |steps|
  {
    if steps != [] {
      NextKeepsValid(h, steps[0]);
      NextExtendsHistory(h, steps[0], c);
      EventsWereLookedUp(Next(h, steps[0]), steps[1..], c, event);
      if Carries(Next(h, steps[0]), c, event) {
        CarriesAfter(h, steps[0], c, event);
        assert Run(h, steps[..0]) == h;
        assert Carries(h, c, event) || Brings(Run(h, steps[..0]), steps[0], c, event);
      } else {
        var i :| 0 <= i < |steps[1..]| && Brings(Run(Next(h, steps[0]), steps[1..][..i]), steps[1..][i], c, event);
        assert steps[..i + 1][1..] == steps[1..][..i];
        assert Brings(Run(h, steps[..i + 1]), steps[i + 1], c, event);
      }
    }
  }

  // ----- delivery -----

  predicate Touches(s: HubStep, session: SessionId) {
    s == Register(session) || s == Unregister(session)
  }

  predicate Untouched(steps: seq<HubStep>, session: SessionId) {
    forall i :: 0 <= i < |steps| ==> !Touches(steps[i], session)
  }

  lemma {:induction false} UntouchedStaysRegistered(h: HubState, steps: seq<HubStep>, session: SessionId)
    requires Untouched(steps, session)
    ensures session in Run(h, steps).channels <==> session in h.channels
    ensures session in h.channels ==> Run(h, steps).channels[session] == h.channels[session]
    decreases |steps|
  {
    if steps != [] {
      assert !Touches(steps[0], session);
      assert Untouched(steps[1..], session) by {
        assert forall i :: 0 <= i < |steps| - 1 ==> steps[1..][i] == steps[i + 1];
      }
      UntouchedStaysRegistered(Next(h, steps[0]), steps[1..], session);
    }
  }

  /** A channel that is not the session's never becomes so again; channels are not reused. */
  lemma {:induction false} ReplacedForGood(h: HubState, steps: seq<HubStep>, session: SessionId, c: ChannelId)
    requires Valid(h) && c < h.nextChannel && !(session in h.channels && h.channels[session] == c)
    ensures var end := Run(h, steps); !(session in end.channels && end.channels[session] == c)
    decreases |steps|
  {
    if steps != [] {
      NextKeepsValid(h, steps[0]);
      ReplacedForGood(Next(h, steps[0]), steps[1..], session, c);
    }
  }

  /** A notifier finds the channel of a connection exactly when nobody else registered or
      unregistered the session since: one connection per session at a time is what delivery needs. */
  lemma FoundIffUntouched(h: HubState, session: SessionId, steps: seq<HubStep>)
    requires Valid(h)
    ensures var end := Run(Next(h, Register(session)), steps);
            session in end.channels && end.channels[session] == h.nextChannel <==> Untouched(steps, session)
  {
    var open := Next(h, Register(session));
    NextKeepsValid(h, Register(session));
    if Untouched(steps, session) {
      UntouchedStaysRegistered(open, steps, session);
    } else {
      var i :| 0 <= i < |steps| && Touches(steps[i], session);
      var m := Run(open, steps[..i]);
      AtMostOneEvent(open, steps[..i]);
      ChannelsGrow(open, steps[..i]);
      RunSplit(open, steps[..i], steps[i..]);
      assert steps == steps[..i] + steps[i..];
      NextKeepsValid(m, steps[i]);
      ReplacedForGood(Next(m, steps[i]), steps[i..][1..], session, h.nextChannel);
    }
  }

  lemma {:induction false} ChannelsGrow(h: HubState, steps: seq<HubStep>)
    ensures h.nextChannel <= Run(h, steps).nextChannel
    decreases |steps|
  {
    if steps != [] {
      ChannelsGrow(Next(h, steps[0]), steps[1..]);
    }
  }

  lemma {:induction false} RunSplit(h: HubState, first: seq<HubStep>, second: seq<HubStep>)
    ensures Run(h, first + second) == Run(Run(h, first), second)
    decreases |first|
  {
    if first == [] {
      assert first + second == second;
    } else {
      assert (first + second)[1..] == first[1..] + second;
      RunSplit(Next(h, first[0]), first[1..], second);
    }
  }

  predicate UsesNotifier(s: HubStep, n: int) {
    s == Send(n) || (s.Lookup? && s.notifier == n)
  }

  lemma {:induction false} LookupIsKept(h: HubState, steps: seq<HubStep>, n: int)
    requires forall i :: 0 <= i < |steps| ==> !UsesNotifier(steps[i], n)
    ensures n in Run(h, steps).lookedUp <==> n in h.lookedUp
    ensures n in h.lookedUp ==> Run(h, steps).lookedUp[n] == h.lookedUp[n]
    decreases |steps|
  {
    if steps != [] {
      assert !UsesNotifier(steps[0], n);
      forall i | 0 <= i < |steps| - 1 ensures !UsesNotifier(steps[1..][i], n) {
        assert steps[1..][i] == steps[i + 1];
      }
      LookupIsKept(Next(h, steps[0]), steps[1..], n);
    }
  }

  /** If a notifier looks the session up while the connection is registered, then once it sends,
      and ever after, that connection's channel holds an event or one was already taken from it. */
  lemma NotifyIsDelivered(h: HubState, session: SessionId, since: seq<HubStep>, n: int, event: string,
                          between: seq<HubStep>, afterwards: seq<HubStep>)
    requires Valid(h) && Untouched(since, session)
    requires forall i :: 0 <= i < |between| ==> !UsesNotifier(between[i], n)
    ensures var c := h.nextChannel;
            var found := Next(Run(Next(h, Register(session)), since), Lookup(n, session, event));
            var m := Run(found, between);
            var end := Run(Next(m, Send(n)), afterwards);
            && c in m.buffers && c in m.taken && c in end.buffers && c in end.taken
            && (end.buffers[c] != [] || end.taken[c] != [])
            && (History(m, c) == [] ==> [event] <= History(end, c))
  {
    var c := h.nextChannel;
    var open := Next(h, Register(session));
    NextKeepsValid(h, Register(session));
    AtMostOneEvent(open, since);
    FoundIffUntouched(h, session, since);
    var found := Next(Run(open, since), Lookup(n, session, event));
    NextKeepsValid(Run(open, since), Lookup(n, session, event));
    assert n in found.lookedUp && found.lookedUp[n] == (c, event);
    LookupIsKept(found, between, n);
    AtMostOneEvent(found, between);
    var m := Run(found, between);
    var sent := Next(m, Send(n));
    NextKeepsValid(m, Send(n));
    assert sent.buffers[c] != [];
    NothingIsLost(sent, afterwards, c);
    var end := Run(sent, afterwards);
    assert |History(sent, c)| <= |History(end, c)|;
  }

  /** A lookup that ran before the connection registered gives it nothing, however late it sends. */
  lemma EarlyLookupMisses(h: HubState, session: SessionId, n: int, event: string, between: seq<HubStep>)
    requires Valid(h) && forall i :: 0 <= i < |between| ==> !UsesNotifier(between[i], n)
    ensures var c := h.nextChannel;
            var ready := Run(Next(Next(h, Lookup(n, session, event)), Register(session)), between);
            && c in ready.buffers && c in Next(ready, Send(n)).buffers
            && Next(ready, Send(n)).buffers[c] == ready.buffers[c]
  {
    var found := Next(h, Lookup(n, session, event));
    NextKeepsValid(h, Lookup(n, session, event));
    var open := Next(found, Register(session));
    NextKeepsValid(found, Register(session));
    LookupIsKept(open, between, n);
    NothingIsLost(open, between, h.nextChannel);
  }

  // ----- a notification with nothing in between -----

  /** Looking up and sending at once. */
  function Notified(h: HubState, session: SessionId, event: string): HubState {
    if session in h.channels then Sent(h, h.channels[session], event) else h
  }

  lemma NotifiedIsLookupThenSend(h: HubState, n: int, session: SessionId, event: string)
    requires n !in h.lookedUp
    ensures Next(Next(h, Lookup(n, session, event)), Send(n)) == Notified(h, session, event)
  {
    if session in h.channels {
      assert h.lookedUp[n := (h.channels[session], event)] - {n} == h.lookedUp;
    } else {
      assert h.lookedUp - {n} == h.lookedUp;
    }
  }

  function NotifiedAll(h: HubState, sessions: seq<SessionId>, event: string): HubState
    decreases |sessions|
  {
    if sessions == [] then h
    else Notified(NotifiedAll(h, sessions[..|sessions| - 1], event), sessions[|sessions| - 1], event)
  }

  lemma NotifiedFillsOneChannel(h: HubState, session: SessionId, event: string)
    requires Valid(h)
    ensures var h' := Notified(h, session, event);
            && Valid(h') && h' == h.(buffers := h'.buffers)
            && (session in h.channels ==>
                  var c := h.channels[session];
                  h'.buffers[c] == if h.buffers[c] == [] then [event] else h.buffers[c])
            && (forall c :: c in h.buffers ==> h.buffers[c] <= h'.buffers[c])
            && (forall c :: c in h.buffers && !(session in h.channels && h.channels[session] == c)
                            ==> h'.buffers[c] == h.buffers[c])
  {
  }

  /** Every listed session that has a connection hears, in whatever order; no other channel changes. */
  lemma {:induction false} AllNotifiedHear(h: HubState, sessions: seq<SessionId>, event: string)
    requires Valid(h)
    ensures var h' := NotifiedAll(h, sessions, event);
            && Valid(h') && h' == h.(buffers := h'.buffers)
            && (forall s :: s in sessions && s in h.channels ==>
                            h'.buffers[h.channels[s]]
                            == if h.buffers[h.channels[s]] == [] then [event] else h.buffers[h.channels[s]])
            && (forall c :: c in h.buffers ==> h.buffers[c] <= h'.buffers[c])
            && (forall c :: c in h.buffers && (forall s :: s in sessions && s in h.channels ==> h.channels[s] != c)
                            ==> h'.buffers[c] == h.buffers[c])
    decreases |sessions|
  {
    if sessions != [] {
      var init, last := sessions[..|sessions| - 1], sessions[|sessions| - 1];
      AllNotifiedHear(h, init, event);
      NotifiedFillsOneChannel(NotifiedAll(h, init, event), last, event);
      assert sessions == init + [last];
    }
  }

  /** A connection is offered a notification of its session exactly when nobody else registered or
      unregistered the session since it did; otherwise its channel is left as it is. */
  lemma HeardIffUntouched(h: HubState, session: SessionId, since: seq<HubStep>, event: string)
    requires Valid(h)
    ensures var m := Run(Next(h, Register(session)), since);
            var c := h.nextChannel;
            && c in m.buffers && c in Notified(m, session, event).buffers
            && Notified(m, session, event).buffers[c]
               == if Untouched(since, session) then Offer(m.buffers[c], event) else m.buffers[c]
  {
    NextKeepsValid(h, Register(session));
    AtMostOneEvent(Next(h, Register(session)), since);
    NothingIsLost(Next(h, Register(session)), since, h.nextChannel);
    FoundIffUntouched(h, session, since);
  }

  // ----- the hub as it is written -----

  /** The map behind the lock, with the channels it hands out. */
  class SessionHub {
    var channels: map<SessionId, ChannelId>
    var buffers: map<ChannelId, seq<string>>
    var taken: map<ChannelId, seq<string>>
    var nextChannel: ChannelId
    var lookedUp: map<int, (ChannelId, string)>

    constructor ()
      ensures State() == NO_CONNECTIONS
    {
      channels, buffers, taken, nextChannel, lookedUp := map[], map[], map[], 1, map[];
    }

    ghost function State(): HubState
      reads this
    {
      HubState(channels, buffers, taken, nextChannel, lookedUp)
    }

    method Register(session: SessionId) returns (channel: ChannelId)
      modifies this
      ensures State() == Next(old(State()), HubStep.Register(session))
      ensures channel == old(nextChannel) && nextChannel == channel + 1 && channels == old(channels)[session := channel]
      ensures buffers == old(buffers)[channel := []] && taken == old(taken)[channel := []] && lookedUp == old(lookedUp)
    {
      channel := nextChannel;
      nextChannel := nextChannel + 1;
      buffers, taken := buffers[channel := []], taken[channel := []];
      channels := channels[session := channel];
    }

    method Unregister(session: SessionId)
      modifies this
      ensures State() == Next(old(State()), HubStep.Unregister(session))
      ensures channels == old(channels) - {session} && nextChannel == old(nextChannel)
      ensures buffers == old(buffers) && taken == old(taken) && lookedUp == old(lookedUp)
    {
      channels := channels - {session};
    }

    /** The first half of a notification, under the read lock. */
    method LookUp(notifier: int, session: SessionId, event: string)
      modifies this
      ensures State() == Next(old(State()), Lookup(notifier, session, event))
      ensures lookedUp == if session in channels then old(lookedUp)[notifier := (channels[session], event)]
                          else old(lookedUp) - {notifier}
      ensures channels == old(channels) && buffers == old(buffers) && taken == old(taken)
    {
      if session in channels {
        lookedUp := lookedUp[notifier := (channels[session], event)];
      } else {
        lookedUp := lookedUp - {notifier};
      }
    }

    /** The second half, without the lock; a full channel is skipped, so it never waits. */
    method TrySend(notifier: int)
      requires Valid(State())
      modifies this
      ensures State() == Next(old(State()), Send(notifier))
      ensures buffers == if notifier in old(lookedUp) && old(buffers)[old(lookedUp)[notifier].0] == []
                         then old(buffers)[old(lookedUp)[notifier].0 := [old(lookedUp)[notifier].1]] else old(buffers)
      ensures channels == old(channels) && taken == old(taken) && lookedUp == old(lookedUp) - {notifier}
    {
      if notifier in lookedUp {
        var (channel, event) := lookedUp[notifier];
        if |buffers[channel]| < CAPACITY {
          assert buffers[channel] == [] && buffers[channel] + [event] == [event];
          buffers := buffers[channel := buffers[channel] + [event]];
        }
        lookedUp := lookedUp - {notifier};
      }
    }

    method Receive(channel: ChannelId) returns (event: Option<string>)
      requires Valid(State())
      modifies this
      ensures State() == Next(old(State()), Take(channel))
      ensures event.Some? <==> channel in old(buffers) && old(buffers)[channel] != []
      ensures event.Some? ==> old(buffers)[channel] == [event.value]
      ensures event.Some? ==> buffers == old(buffers)[channel := []]
                              && taken == old(taken)[channel := old(taken)[channel] + [event.value]]
      ensures event.None? ==> buffers == old(buffers) && taken == old(taken)
      ensures channels == old(channels) && lookedUp == old(lookedUp)
    {
      if channel !in buffers || buffers[channel] == [] {
        return None;
      }
      event := Some(buffers[channel][0]);
      taken := taken[channel := taken[channel] + [buffers[channel][0]]];
      buffers := buffers[channel := buffers[channel][1..]];
    }

    /** Kicking and expiring send different events this way. */
    method Notify(session: SessionId, event: string)
      requires Valid(State())
      modifies this
      ensures State() == Notified(old(State()), session, event)
      ensures buffers == if session in old(channels) && old(buffers)[old(channels)[session]] == []
                         then old(buffers)[old(channels)[session] := [event]] else old(buffers)
      ensures channels == old(channels) && taken == old(taken) && lookedUp == old(lookedUp)
    {
      if session in channels {
        var channel := channels[session];
        if |buffers[channel]| < CAPACITY {
          assert buffers[channel] == [] && buffers[channel] + [event] == [event];
          buffers := buffers[channel := buffers[channel] + [event]];
        }
        assert buffers == Sent(old(State()), channel, event).buffers;
      }
    }
  }
}
