/** Safety and delivery over every interleaving of hub events. */
module HubDelivery {
  import opened Hub

  /** The state after a run. */
  function After(events: seq<Event>): State {
    if events == [] then EMPTY else Step(After(events[..|events| - 1]), events[|events| - 1])
  }

  // ---- Subscription windows, from the events alone ----------------------------------------------

  function Subscriptions(events: seq<Event>): nat {
    if events == [] then 0
    else Subscriptions(events[..|events| - 1]) + if events[|events| - 1].Subscribe? then 1 else 0
  }

  /** Subscriber `c` (the c-th to subscribe) is inside its window: it subscribed before any
      Close, and neither its Unsubscribe nor a Close has happened since. */
  predicate InWindow(events: seq<Event>, c: nat) {
    if events == [] then false
    else
      var init := events[..|events| - 1];
      match events[|events| - 1]
      case Subscribe => if Subscriptions(init) == c then Close !in init else InWindow(init, c)
      case Unsubscribe(d) => d != c && InWindow(init, c)
      case Close => false
      case _ => InWindow(init, c)
  }

  /** The messages broadcast inside the window of `c`, in order. */
  function WindowMessages(events: seq<Event>, c: nat): seq<Message> {
    if events == [] then []
    else
      var init, last := events[..|events| - 1], events[|events| - 1];
      WindowMessages(init, c) + if last.Broadcast? && InWindow(init, c) then [last.msg] else []
  }

  /** How many messages the buffer of `c` holds at the end of a run. */
  function Occupancy(events: seq<Event>, c: nat): nat {
    if c < |After(events).channels| then |After(events).channels[c].buffer| else 0
  }

  /** Those that found fewer than 64 messages buffered. */
  function RoomMessages(events: seq<Event>, c: nat): seq<Message> {
    if events == [] then []
    else
      var init, last := events[..|events| - 1], events[|events| - 1];
      RoomMessages(init, c)
      + if last.Broadcast? && InWindow(init, c) && Occupancy(init, c) < 64 then [last.msg] else []
  }

  /** How many found exactly 64 messages buffered. */
  function FullCount(events: seq<Event>, c: nat): nat {
    if events == [] then 0
    else
      var init, last := events[..|events| - 1], events[|events| - 1];
      FullCount(init, c) + if last.Broadcast? && InWindow(init, c) && Occupancy(init, c) == 64 then 1 else 0
  }

  /** The messages subscriber `c` has taken, in order. */
  function TakenMessages(events: seq<Event>, c: nat): seq<Message> {
    if events == [] then []
    else
      var init, last := events[..|events| - 1], events[|events| - 1];
      TakenMessages(init, c)
      + if last == Take(c) && Occupancy(init, c) > 0 then [After(init).channels[c].buffer[0]] else []
  }

  function Buffered(events: seq<Event>, c: nat): seq<Message> {
    if c < |After(events).channels| then After(events).channels[c].buffer else []
  }

  predicate Subsequence(a: seq<Message>, b: seq<Message>) {
    if a == [] then true
    else if b == [] then false
    else (a[|a| - 1] == b[|b| - 1] && Subsequence(a[..|a| - 1], b[..|b| - 1])) || Subsequence(a, b[..|b| - 1])
  }

  // ---- Safety -------------------------------------------------------------------------------------

  /** In every run: nothing panics, registered channels are open, a closed hub has no clients. */
  lemma {:induction false} AlwaysSafe(events: seq<Event>)
    ensures Safe(After(events))
  {
    if events != [] {
      AlwaysSafe(events[..|events| - 1]);
      StepKeepsSafe(After(events[..|events| - 1]), events[|events| - 1]);
    }
  }

  /** The hub is closed exactly when Close has happened, so closing is permanent. */
  lemma {:induction false} ClosedExactly(events: seq<Event>)
    ensures After(events).closed <==> Close in events
    ensures |After(events).channels| == Subscriptions(events)
  {
    if events != [] {
      var init, last := events[..|events| - 1], events[|events| - 1];
      ClosedExactly(init);
      assert events == init + [last];
    }
  }

  /** A channel is registered exactly while its subscriber is inside its window. */
  lemma {:induction false} RegisteredExactly(events: seq<Event>, c: nat)
    ensures c in After(events).clients <==> InWindow(events, c)
  {
    if events != [] {
      var init := events[..|events| - 1];
      RegisteredExactly(init, c);
      AlwaysSafe(init);
      ClosedExactly(init);
    }
  }

  /** The channel of `c` is still open: it was made before any Close, and no Close has
      happened inside its window. */
  predicate StaysOpen(events: seq<Event>, c: nat) {
    if events == [] then false
    else
      var init := events[..|events| - 1];
      match events[|events| - 1]
      case Subscribe => if Subscriptions(init) == c then Close !in init else StaysOpen(init, c)
      case Close => StaysOpen(init, c) && !InWindow(init, c)
      case _ => StaysOpen(init, c)
  }

  /** Close closes exactly the channels registered at that moment; a late subscriber gets a
      closed channel; an unsubscribed channel is never closed. */
  lemma {:induction false} OpenExactly(events: seq<Event>, c: nat)
    requires c < |After(events).channels|
    ensures After(events).channels[c].open <==> StaysOpen(events, c)
  {
    var init, last := events[..|events| - 1], events[|events| - 1];
    ClosedExactly(init);
    RegisteredExactly(init, c);
    if c < |After(init).channels| {
      OpenExactly(init, c);
    }
  }

  // ---- Delivery --------------------------------------------------------------------------------------

  /** What one event does to a subscriber's buffer. */
  lemma BufferStep(init: seq<Event>, last: Event, c: nat)
    ensures Buffered(init + [last], c)
         == if last == Take(c) && Buffered(init, c) != [] then Buffered(init, c)[1..]
            else if last.Broadcast? && InWindow(init, c) && |Buffered(init, c)| < 64 then Buffered(init, c) + [last.msg]
            else Buffered(init, c)
  {
    assert (init + [last])[..|init + [last]| - 1] == init;
    AlwaysSafe(init);
    RegisteredExactly(init, c);
    ClosedExactly(init);
  }

  /** What a subscriber has taken, followed by what is buffered for it, is exactly the
      messages of its window that found room. */
  lemma {:induction false} DeliveredExactly(events: seq<Event>, c: nat)
    ensures TakenMessages(events, c) + Buffered(events, c) == RoomMessages(events, c)
  {
    if events != [] {
      var init, last := events[..|events| - 1], events[|events| - 1];
      assert events == init + [last];
      DeliveredExactly(init, c);
      BufferStep(init, last, c);
      var before := Buffered(init, c);
      assert before != [] ==> before == [before[0]] + before[1..];
    }
  }

  lemma {:induction false} SubsequenceSnoc(a: seq<Message>, b: seq<Message>, m: Message)
    requires Subsequence(a, b)
    ensures Subsequence(a, b + [m]) && Subsequence(a + [m], b + [m])
  {
    assert (b + [m])[..|b|] == b;
    assert (a + [m])[..|a|] == a;
  }

  lemma {:induction false} RoomInWindow(events: seq<Event>, c: nat)
    ensures Subsequence(RoomMessages(events, c), WindowMessages(events, c))
    ensures |WindowMessages(events, c)| == |RoomMessages(events, c)| + FullCount(events, c)
  {
    if events != [] {
      var init, last := events[..|events| - 1], events[|events| - 1];
      RoomInWindow(init, c);
      AlwaysSafe(init);
      if last.Broadcast? { SubsequenceSnoc(RoomMessages(init, c), WindowMessages(init, c), last.msg); }
      assert RoomMessages(init, c) + [] == RoomMessages(init, c);
      assert WindowMessages(init, c) + [] == WindowMessages(init, c);
    }
  }

  /** Every subscriber receives, in order, the broadcasts of its window; one is missing
      only when 64 messages were buffered at that instant; none is counted twice. */
  lemma DeliveredInOrderOrDroppedWhenFull(events: seq<Event>, c: nat)
    ensures Subsequence(TakenMessages(events, c) + Buffered(events, c), WindowMessages(events, c))
    ensures |TakenMessages(events, c)| + |Buffered(events, c)| + FullCount(events, c)
         == |WindowMessages(events, c)|
    ensures FullCount(events, c) == 0 ==>
              TakenMessages(events, c) + Buffered(events, c) == WindowMessages(events, c)
  {
    DeliveredExactly(events, c);
    RoomInWindow(events, c);
    SameLengthSubsequence(RoomMessages(events, c), WindowMessages(events, c));
  }

  lemma {:induction false} SubsequenceLength(a: seq<Message>, b: seq<Message>)
    requires Subsequence(a, b)
    ensures |a| <= |b|
    decreases |b|
  {
    if a != [] {
      if a[|a| - 1] == b[|b| - 1] && Subsequence(a[..|a| - 1], b[..|b| - 1]) {
        SubsequenceLength(a[..|a| - 1], b[..|b| - 1]);
      } else {
        SubsequenceLength(a, b[..|b| - 1]);
      }
    }
  }

  lemma {:induction false} SameLengthSubsequence(a: seq<Message>, b: seq<Message>)
    requires Subsequence(a, b)
    ensures |a| == |b| ==> a == b
    decreases |b|
  {
    if a != [] && |a| == |b| {
      if Subsequence(a, b[..|b| - 1]) {
        SubsequenceLength(a, b[..|b| - 1]);
      } else {
        SameLengthSubsequence(a[..|a| - 1], b[..|b| - 1]);
        assert a == a[..|a| - 1] + [a[|a| - 1]] && b == b[..|b| - 1] + [b[|b| - 1]];
      }
    }
  }
}
