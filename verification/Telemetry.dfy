/** The key rate a client reports with each heartbeat (over reals). */
module Telemetry {
  import opened Basics

  /** One heartbeat: when it was sent and the key count it read. */
  datatype Beat = Beat(now: real, count: nat)

  function RateAt(last: Option<Beat>, now: real, count: nat): real {
    if last.Some? && now - last.value.now > 0.0
    then (count as real - last.value.count as real) / (now - last.value.now)
    else 0.0
  }

  class HeartbeatSender {
    var lastHeartbeat: Option<real>
    var lastKeyCount: nat

    constructor ()
      ensures Last().None?
    {
      lastHeartbeat, lastKeyCount := None, 0;
    }

    ghost function Last(): Option<Beat>
      reads this
    {
      match lastHeartbeat
      case None => None
      case Some(at) => Some(Beat(at, lastKeyCount))
    }

    /** sendHeartbeat: the reading is remembered before the request, so a failed request
        (`delivered` false) changes nothing about it. */
    method SendHeartbeat(now: real, currentCount: nat, delivered: bool) returns (ok: bool, keyRate: real)
      modifies this
      ensures Last() == Some(Beat(now, currentCount))
      ensures keyRate == RateAt(old(Last()), now, currentCount)
      ensures old(Last()).None? || now <= old(Last()).value.now ==> keyRate == 0.0
      ensures old(Last()).Some? && now > old(Last()).value.now ==>
                keyRate * (now - old(Last()).value.now) == currentCount as real - old(Last()).value.count as real
      ensures ok == delivered
    {
      keyRate := 0.0;
      if lastHeartbeat.Some? {
        var elapsed := now - lastHeartbeat.value;
        if elapsed > 0.0 {
          keyRate := (currentCount as real - lastKeyCount as real) / elapsed;
        }
      }
      lastHeartbeat := Some(now);
      lastKeyCount := currentCount;
      ok := delivered;
    }
  }

  /** The rate reported by beat `i` of a sequence. */
  function Rate(beats: seq<Beat>, i: nat): real
    requires i < |beats|
  {
    RateAt(if i == 0 then None else Some(beats[i - 1]), beats[i].now, beats[i].count)
  }

  /** Rates times elapsed times, added up. */
  function Estimated(beats: seq<Beat>): real {
    if |beats| <= 1 then 0.0
    else
      var n := |beats| - 1;
      Estimated(beats[..n]) + Rate(beats, n) * (beats[n].now - beats[n - 1].now)
  }

  ghost predicate CountsGrow(beats: seq<Beat>) {
    forall i, j :: 0 <= i < j < |beats| ==> beats[i].count <= beats[j].count
  }

  /** No two consecutive beats share a clock reading (or go back) while keys were counted. */
  ghost predicate NothingLost(beats: seq<Beat>) {
    forall i :: 0 < i < |beats| ==> beats[i].now > beats[i - 1].now || beats[i].count == beats[i - 1].count
  }

  lemma RateTimesElapsed(beats: seq<Beat>, i: nat)
    requires 0 < i < |beats|
    ensures Rate(beats, i) * (beats[i].now - beats[i - 1].now)
         == if beats[i].now > beats[i - 1].now then beats[i].count as real - beats[i - 1].count as real else 0.0
  {
  }

  /** No rate is negative. */
  lemma RateNotNegative(beats: seq<Beat>, i: nat)
    requires CountsGrow(beats) && i < |beats|
    ensures Rate(beats, i) >= 0.0
  {
    if i > 0 && beats[i].now > beats[i - 1].now {
      var keys := beats[i].count as real - beats[i - 1].count as real;
      var elapsed := beats[i].now - beats[i - 1].now;
      assert beats[i - 1].count <= beats[i].count;
      assert keys >= 0.0 && elapsed > 0.0;
      assert Rate(beats, i) == keys / elapsed;
    }
  }

  lemma EstimatedStep(beats: seq<Beat>, n: nat)
    requires 0 < n == |beats| - 1
    ensures Estimated(beats)
         == Estimated(beats[..n])
            + if beats[n].now > beats[n - 1].now then beats[n].count as real - beats[n - 1].count as real else 0.0
  {
    RateTimesElapsed(beats, n);
  }

  lemma NothingLostSnoc(beats: seq<Beat>, n: nat)
    requires 0 < n == |beats| - 1
    ensures NothingLost(beats)
       <==> NothingLost(beats[..n]) && (beats[n].now > beats[n - 1].now || beats[n].count == beats[n - 1].count)
  {
    var init := beats[..n];
    assert forall i :: 0 <= i < n ==> init[i] == beats[i];
  }

  /** The rates account for exactly the keys counted since the first beat, just when no keys
      were counted between two beats at the same instant; otherwise they fall short. */
  lemma {:induction false} RatesTelescope(beats: seq<Beat>)
    requires beats != [] && CountsGrow(beats)
    ensures Estimated(beats) <= beats[|beats| - 1].count as real - beats[0].count as real
    ensures Estimated(beats) == beats[|beats| - 1].count as real - beats[0].count as real <==> NothingLost(beats)
  {
    if |beats| > 1 {
      var n := |beats| - 1;
      var init := beats[..n];
      RatesTelescope(init);
      EstimatedStep(beats, n);
      NothingLostSnoc(beats, n);
      assert beats[n - 1].count <= beats[n].count;
    }
  }

  ghost predicate TimesIncrease(beats: seq<Beat>) {
    forall i :: 0 < i < |beats| ==> beats[i - 1].now < beats[i].now
  }

  /** With increasing times the estimate is the count gained since the first beat. */
  lemma RatesTelescopeInTime(beats: seq<Beat>)
    requires beats != [] && CountsGrow(beats) && TimesIncrease(beats)
    ensures Estimated(beats) == beats[|beats| - 1].count as real - beats[0].count as real
  {
    RatesTelescope(beats);
  }
}
