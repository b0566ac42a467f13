/** The coalescing flush rule shared by the persistence flush of a reactive interface
    and the hardware flush of the pixel surface. Time is an integer number of
    microseconds, the resolution of the clock the system reads. */
module Debounce {
  import opened Wrappers

  /** `last` is the time of the last physical flush (`None` for "never", the clock's minimum);
      `pending` says whether a deferred flush timer is alive. */
  datatype State = State(last: Option<int>, pending: bool)

  /** What one flush request does. */
  datatype Decision = FlushNow | Schedule(delay: int) | Coalesced

  const Initial := State(None, false)

  /** The cooldown has run out since the last physical flush. */
  predicate CooledDown(s: State, now: int, cooldown: int) {
    s.last.None? || now - s.last.value >= cooldown
  }

  /** A flush request at time `now`: flush at once when the cooldown has run out, otherwise
      start a deferred flush for the remaining time unless one is already pending. */
  function Request(s: State, now: int, cooldown: int): (r: (State, Decision))
    ensures r.1.FlushNow? <==> CooledDown(s, now, cooldown)
    ensures r.1.FlushNow? ==> r.0 == s.(last := Some(now))
    ensures r.1.Schedule? <==> !CooledDown(s, now, cooldown) && !s.pending
    ensures r.1.Schedule? ==> r.0 == s.(pending := true) && r.1.delay > 0
    ensures r.1.Schedule? ==> now + r.1.delay == s.last.value + cooldown
    ensures r.1.Coalesced? ==> r.0 == s && s.pending
  {
    if CooledDown(s, now, cooldown) then (s.(last := Some(now)), FlushNow)
    else if !s.pending then (s.(pending := true), Schedule(cooldown - (now - s.last.value)))
    else (s, Coalesced)
  }

  /** The deferred flush firing at `now`: it flushes, records the time and clears the timer. */
  function Fire(s: State, now: int): (r: State)
    ensures r.last == Some(now) && !r.pending
  {
    State(Some(now), false)
  }

  /** A burst of flush requests at the given times, with no timer firing in between. */
  function Burst(s: State, times: seq<int>, cooldown: int): (r: (State, seq<Decision>))
    ensures |r.1| == |times|
    decreases |times|
  {
    if |times| == 0 then (s, [])
    else
      var first := Request(s, times[0], cooldown);
      var rest := Burst(first.0, times[1..], cooldown);
      (rest.0, [first.1] + rest.1)
  }

  /** After a burst, the recorded flush time is that of its last immediate flush (unchanged
      when there was none), and a timer is pending exactly when one was before or the burst
      started one. */
  lemma {:induction false} BurstRecords(s: State, times: seq<int>, cooldown: int)
    ensures var r := Burst(s, times, cooldown);
      (forall j :: 0 <= j < |times| ==> !r.1[j].FlushNow?) ==> r.0.last == s.last
    ensures var r := Burst(s, times, cooldown);
      forall j :: 0 <= j < |times| && r.1[j].FlushNow? && (forall k :: j < k < |times| ==> !r.1[k].FlushNow?) ==>
        r.0.last == Some(times[j])
    ensures var r := Burst(s, times, cooldown);
      r.0.pending <==> s.pending || exists j :: 0 <= j < |times| && r.1[j].Schedule?
    decreases |times|
  {
    if |times| > 0 {
      var first := Request(s, times[0], cooldown);
      var tail := times[1..];
      var rest := Burst(first.0, tail, cooldown);
      BurstRecords(first.0, tail, cooldown);
      var r := Burst(s, times, cooldown);
      assert r == (rest.0, [first.1] + rest.1);
      assert forall j :: 0 < j < |times| ==> r.1[j] == rest.1[j - 1] && times[j] == tail[j - 1];
      assert first.0.pending <==> s.pending || first.1.Schedule?;
      assert !first.1.FlushNow? ==> first.0.last == s.last;
      assert first.1.FlushNow? ==> first.0.last == Some(times[0]);
      forall j | 0 <= j < |times| && r.1[j].FlushNow? && (forall k :: j < k < |times| ==> !r.1[k].FlushNow?)
        ensures r.0.last == Some(times[j])
      {
        assert forall k :: j <= k < |tail| ==> !rest.1[k].FlushNow? by {
          forall k | j <= k < |tail| ensures !rest.1[k].FlushNow? {
            assert r.1[k + 1] == rest.1[k];
          }
        }
        if j > 0 {
          assert rest.1[j - 1].FlushNow?;
        }
      }
      if forall j :: 0 <= j < |times| ==> !r.1[j].FlushNow? {
        assert !first.1.FlushNow? by { assert r.1[0] == first.1; }
        forall k | 0 <= k < |tail| ensures !rest.1[k].FlushNow? {
          assert r.1[k + 1] == rest.1[k];
        }
      }
      if exists j :: 0 <= j < |times| && r.1[j].Schedule? {
        var j :| 0 <= j < |times| && r.1[j].Schedule?;
        if j > 0 {
          assert rest.1[j - 1].Schedule?;
        }
      }
      if exists j :: 0 <= j < |tail| && rest.1[j].Schedule? {
        var j :| 0 <= j < |tail| && rest.1[j].Schedule?;
        assert r.1[j + 1].Schedule?;
      }
    }
  }

  function CountSchedules(ds: seq<Decision>): nat {
    if |ds| == 0 then 0 else (if ds[0].Schedule? then 1 else 0) + CountSchedules(ds[1..])
  }

  /** However long the burst, it starts at most one deferred flush, and none while one is pending. */
  lemma {:induction false} AtMostOneTimer(s: State, times: seq<int>, cooldown: int)
    ensures CountSchedules(Burst(s, times, cooldown).1) <= (if s.pending then 0 else 1)
    ensures s.pending ==> Burst(s, times, cooldown).0.pending
    decreases |times|
  {
    if |times| > 0 {
      var (s1, d) := Request(s, times[0], cooldown);
      AtMostOneTimer(s1, times[1..], cooldown);
      var ds := Burst(s, times, cooldown).1;
      assert ds == [d] + Burst(s1, times[1..], cooldown).1;
      assert ds[1..] == Burst(s1, times[1..], cooldown).1;
    }
  }

  predicate Sorted(times: seq<int>) {
    forall i, j :: 0 <= i < j < |times| ==> times[i] <= times[j]
  }

  /** With a non-decreasing clock, two immediate flushes of one burst are at least a
      cooldown apart, and each is at least a cooldown after the last recorded flush. */
  lemma {:induction false} ImmediateFlushesSpaced(s: State, times: seq<int>, cooldown: int)
    requires Sorted(times)
    requires s.last.Some? && |times| > 0 ==> s.last.value <= times[0]
    ensures var ds := Burst(s, times, cooldown).1;
      forall i, j :: 0 <= i < j < |times| && ds[i].FlushNow? && ds[j].FlushNow? ==> times[j] - times[i] >= cooldown
    ensures var ds := Burst(s, times, cooldown).1;
      forall j :: 0 <= j < |times| && ds[j].FlushNow? && s.last.Some? ==> times[j] - s.last.value >= cooldown
    decreases |times|
  {
    if |times| > 0 {
      var (s1, d) := Request(s, times[0], cooldown);
      var tail := times[1..];
      assert Sorted(tail);
      ImmediateFlushesSpaced(s1, tail, cooldown);
      var ds := Burst(s, times, cooldown).1;
      var ds1 := Burst(s1, tail, cooldown).1;
      assert ds == [d] + ds1;
      forall j | 0 < j < |times| && ds[j].FlushNow?
        ensures s1.last.Some? ==> times[j] - s1.last.value >= cooldown
      {
        assert ds1[j - 1].FlushNow? && tail[j - 1] == times[j];
      }
    }
  }

  /** The documented example: cooldown 5 s, requests at 0 s, 1 s and 2 s give one immediate
      flush, one deferred flush due 4 s later and no second timer; the timer then flushes once. */
  lemma FiveSecondExample()
    ensures Burst(Initial, [0, 1_000_000, 2_000_000], 5_000_000)
         == (State(Some(0), true), [FlushNow, Schedule(4_000_000), Coalesced])
    ensures Fire(State(Some(0), true), 5_000_000) == State(Some(5_000_000), false)
  {
    var s1 := State(Some(0), false);
    var s2 := State(Some(0), true);
    assert Request(Initial, 0, 5_000_000) == (s1, FlushNow);
    assert Request(s1, 1_000_000, 5_000_000) == (s2, Schedule(4_000_000));
    assert Request(s2, 2_000_000, 5_000_000) == (s2, Coalesced);
    assert [2_000_000][1..] == [];
    assert Burst(s2, [], 5_000_000) == (s2, []);
    assert [Coalesced] + [] == [Coalesced];
    assert Burst(s2, [2_000_000], 5_000_000) == (s2, [Coalesced]);
    assert [1_000_000, 2_000_000][1..] == [2_000_000];
    assert [Schedule(4_000_000)] + [Coalesced] == [Schedule(4_000_000), Coalesced];
    assert Burst(s1, [1_000_000, 2_000_000], 5_000_000) == (s2, [Schedule(4_000_000), Coalesced]);
    assert [0, 1_000_000, 2_000_000][1..] == [1_000_000, 2_000_000];
    assert [FlushNow] + [Schedule(4_000_000), Coalesced] == [FlushNow, Schedule(4_000_000), Coalesced];
  }
}
