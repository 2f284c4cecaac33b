/** The event hub: a mutex-protected set of bounded channels. */
module Hub {
  type Message = string

  const CAPACITY := 64

  datatype Channel = Channel(buffer: seq<Message>, open: bool)

  /** All channels ever made, by number; those registered; and whether anything the Go
      runtime would panic on (sending on or closing a closed channel) has happened. */
  datatype State = State(channels: seq<Channel>, clients: set<nat>, closed: bool, panicked: bool)

  /** The atomic steps: each critical section, and a subscriber taking one message. */
  datatype Event =
    | Subscribe
    | Unsubscribe(c: nat)
    | Close
    | Broadcast(msg: Message)
    | Take(c: nat)

  const EMPTY := State([], {}, false, false)

  /** A non-blocking send. */
  function Offer(ch: Channel, msg: Message): Channel {
    if ch.open && |ch.buffer| < CAPACITY then ch.(buffer := ch.buffer + [msg]) else ch
  }

  /** Some registered channel is not open. */
  predicate ClosedClient(s: State) {
    exists c :: c in s.clients && c < |s.channels| && !s.channels[c].open
  }

  function Step(s: State, e: Event): State {
    match e
    case Subscribe =>
      if s.closed then s.(channels := s.channels + [Channel([], false)])
      else s.(channels := s.channels + [Channel([], true)], clients := s.clients + {|s.channels|})
    case Unsubscribe(c) => s.(clients := s.clients - {c})
    case Close =>
      State(seq(|s.channels|, i requires 0 <= i < |s.channels| =>
                  if i in s.clients then s.channels[i].(open := false) else s.channels[i]),
            {}, true, s.panicked || ClosedClient(s))
    case Broadcast(msg) =>
      if s.closed then s
      else
        s.(channels := seq(|s.channels|, i requires 0 <= i < |s.channels| =>
                             if i in s.clients then Offer(s.channels[i], msg) else s.channels[i]),
           panicked := s.panicked || ClosedClient(s))
    case Take(c) =>
      if c < |s.channels| && s.channels[c].buffer != []
      then s.(channels := s.channels[c := s.channels[c].(buffer := s.channels[c].buffer[1..])])
      else s
  }

  /** What every step keeps. */
  ghost predicate Safe(s: State) {
    && !s.panicked
    && (forall c :: c in s.clients ==> c < |s.channels| && s.channels[c].open)
    && (s.closed ==> s.clients == {})
    && (forall c :: 0 <= c < |s.channels| ==> |s.channels[c].buffer| <= CAPACITY)
  }

  lemma StepKeepsSafe(s: State, e: Event)
    requires Safe(s)
    ensures Safe(Step(s, e))
  {
  }

  // ---- The hub object ----------------------------------------------------------------------

  class EventHub {
    var channels: seq<Channel>
    var clients: set<nat>
    var closed: bool

    constructor ()
      ensures Valid() && Contents() == EMPTY
    {
      channels, clients, closed := [], {}, false;
    }

    ghost function Contents(): State
      reads this
    {
      State(channels, clients, closed, false)
    }

    ghost predicate Valid()
      reads this
    {
      Safe(Contents())
    }

    /** close(ch): the runtime panics unless the channel is open. */
    method CloseChannel(c: nat)
      requires c < |channels| && channels[c].open
      modifies this`channels
      ensures channels == old(channels)[c := old(channels)[c].(open := false)]
    {
      channels := channels[c := channels[c].(open := false)];
    }

    /** select { case ch <- msg: default: }: panics on a closed channel, drops when full. */
    method TrySend(c: nat, msg: Message)
      requires c < |channels| && channels[c].open
      modifies this`channels
      ensures channels == old(channels)[c := Offer(old(channels)[c], msg)]
    {
      if |channels[c].buffer| < CAPACITY {
        channels := channels[c := channels[c].(buffer := channels[c].buffer + [msg])];
      }
    }

    method SubscribeClient() returns (c: nat)
      requires Valid()
      modifies this
      ensures Valid() && Contents() == Step(old(Contents()), Subscribe)
      ensures c == old(|channels|)
    {
      c := |channels|;
      channels := channels + [Channel([], true)];
      if closed {
        CloseChannel(c);
        return;
      }
      clients := clients + {c};
    }

    /** The unsubscribe function handed to subscriber `c`. */
    method UnsubscribeClient(c: nat)
      requires Valid()
      modifies this
      ensures Valid() && Contents() == Step(old(Contents()), Unsubscribe(c))
    {
      clients := clients - {c};
    }

    method CloseHub()
      requires Valid()
      modifies this
      ensures Valid() && Contents() == Step(old(Contents()), Close)
    {
      closed := true;
      while clients != {}
        invariant closed && |channels| == |old(channels)| && clients <= old(clients)
        invariant forall c :: 0 <= c < |channels| ==>
                    channels[c] == if c in old(clients) && c !in clients then old(channels)[c].(open := false)
                                   else old(channels)[c]
        decreases |clients|
      {
        var c :| c in clients;
        CloseChannel(c);
        clients := clients - {c};
      }
    }

    method BroadcastMessage(msg: Message)
      requires Valid()
      modifies this`channels
      ensures Valid() && Contents() == Step(old(Contents()), Broadcast(msg))
    {
      if closed {
        return;
      }
      var pending := clients;
      while pending != {}
        invariant pending <= clients && |channels| == |old(channels)|
        invariant forall c :: 0 <= c < |channels| ==>
                    channels[c] == if c in clients && c !in pending then Offer(old(channels)[c], msg)
                                   else old(channels)[c]
        decreases |pending|
      {
        var c :| c in pending;
        TrySend(c, msg);
        pending := pending - {c};
      }
    }

    /** The subscriber's receive; None when the buffer is empty. */
    method TakeMessage(c: nat) returns (taken: bool, msg: Message)
      requires Valid() && c < |channels|
      modifies this`channels
      ensures Valid() && Contents() == Step(old(Contents()), Take(c))
      ensures taken <==> old(channels[c].buffer) != []
      ensures taken ==> msg == old(channels[c].buffer)[0]
    {
      taken, msg := channels[c].buffer != [], "";
      if taken {
        msg := channels[c].buffer[0];
        channels := channels[c := channels[c].(buffer := channels[c].buffer[1..])];
      }
    }
  }
}
