/**
  The schedule of the background poller, `ClusterLoadUpdateThread.run`
  (run_gui.py:158-185). One counter, starting at 120, decides on every
  half-second iteration whether the cluster load is fetched (counter a
  multiple of 120, after which the counter restarts at 0) and whether the
  job list is fetched (counter a multiple of 10). Errors of the cluster-load
  fetch are caught; an error of the job-list fetch ends the thread.
*/
module Poller {

  /** What one iteration of the loop did. */
  datatype Tick = Tick(clusterPoll: bool, jobPoll: bool)

  /** The iteration-`k` schedule, counted from 0. */
  function Expected(k: nat): Tick {
    Tick(k % 120 == 0, k % 10 == 0)
  }

  /** The counter's last decimal digit is the iteration's: 120 is a multiple of 10. */
  lemma {:induction false} CounterTens(k: nat)
    ensures (k % 120) % 10 == k % 10
    decreases k
  {
    if k >= 120 {
      CounterTens(k - 120);
      Shift(k);
    }
  }

  /** The counter steps by one and wraps to 0 after 119. */
  lemma {:induction false} CounterNext(k: nat)
    ensures (k + 1) % 120 == if k % 120 == 119 then 0 else k % 120 + 1
    decreases k
  {
    if k >= 120 {
      CounterNext(k - 120);
      Shift(k);
      Shift(k + 1);
    }
  }

  lemma Shift(k: int)
    ensures k % 120 == (k - 120) % 120 && k % 10 == (k - 120) % 10
  {
  }

  /**
    The loop, run against the `running` flag as read at the top of each
    iteration (the loop also ends when the flags run out) and the set of
    iterations whose job-list fetch raises. Returns one tick per iteration.
  */
  method Run(running: seq<bool>, jobPollFails: set<nat>) returns (ticks: seq<Tick>)
    ensures |ticks| <= |running|
    ensures forall k :: 0 <= k < |ticks| ==> running[k] && ticks[k] == Expected(k)
    ensures forall k :: 0 <= k < |ticks| - 1 ==> !(k % 10 == 0 && k in jobPollFails)
    ensures |ticks| < |running| && running[|ticks|] ==>
              |ticks| > 0 && (|ticks| - 1) % 10 == 0 && |ticks| - 1 in jobPollFails
  {
    var counter := 120;
    var k := 0;
    ticks := [];
    while k < |running| && running[k]
      invariant k == |ticks| <= |running|
      invariant counter == if k % 120 == 0 then 120 else k % 120
      invariant forall j :: 0 <= j < k ==> running[j] && ticks[j] == Expected(j)
      invariant forall j :: 0 <= j < k ==> !(j % 10 == 0 && j in jobPollFails)
      decreases |running| - k
    {
      CounterTens(k);
      CounterNext(k);
      var clusterPoll := counter % 120 == 0;
      if clusterPoll {
        // the fetch itself, and the errors it swallows, are the session's concern
        counter := 0;
      }
      var jobPoll := counter % 10 == 0;
      assert Tick(clusterPoll, jobPoll) == Expected(k);
      ticks := ticks + [Tick(clusterPoll, jobPoll)];
      if jobPoll && k in jobPollFails {
        return;
      }
      counter := counter + 1;
      k := k + 1;
    }
  }
}
