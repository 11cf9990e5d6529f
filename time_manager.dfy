/** Fixed-timestep accounting of src/timeManager.ts. The wall clock
    (Date.now) is a parameter of every operation that reads it, and the
    callback that Update invokes once per timestep is modelled by the
    sequence of arguments it would receive. */
module Timing {
  import opened Util

  /** What one Update decides: how many timesteps to run and how much time
      it carries over to the next Update. */
  datatype Plan = Plan(count: int, leftoverMs: real)

  /** The number of whole timesteps that fit in totalMs (Math.floor, so
      negative for a negative total): they fill totalMs up to less than one
      timestep. */
  function WholeSteps(totalMs: real, timestepMs: real): (k: int)
    requires timestepMs > 0.0
    ensures k as real * timestepMs <= totalMs < (k + 1) as real * timestepMs
  {
    FloorOfQuotient(totalMs, timestepMs);
    (totalMs / timestepMs).Floor
  }

  /** Floor division undone: the floor of a / b times b lies within one b
      below a. */
  lemma FloorOfQuotient(a: real, b: real)
    requires b > 0.0
    ensures var k := (a / b).Floor;
      k as real * b <= a < (k + 1) as real * b
  {
    var q := a / b;
    var k := q.Floor;
    assert q * b == a;
    assert k as real <= q < (k + 1) as real;
    assert (q - k as real) * b >= 0.0;
    assert (q - k as real) * b == a - k as real * b;
    assert ((k + 1) as real - q) * b > 0.0;
    assert ((k + 1) as real - q) * b == (k + 1) as real * b - a;
    assert k as real * b <= a;
    assert a < (k + 1) as real * b;
  }

  /** The plan of one Update for a total of elapsed plus leftover time:
      the whole timesteps, clamped to the per-update limit, and the time
      that does not fill a whole timestep. Timesteps cut off by the limit
      are dropped, not carried over. */
  function PlanUpdate(totalMs: real, timestepMs: real, limit: int): (p: Plan)
    requires timestepMs > 0.0
    ensures 0.0 <= p.leftoverMs < timestepMs
    ensures p.count <= limit
  {
    var whole := WholeSteps(totalMs, timestepMs);
    Plan(Min(whole, limit), totalMs - whole as real * timestepMs)
  }

  /** Below the limit nothing is lost: the timesteps run plus the leftover
      make up the whole total, and no further timestep would fit. */
  lemma PlanConservesTime(totalMs: real, timestepMs: real, limit: int)
    requires timestepMs > 0.0
    requires WholeSteps(totalMs, timestepMs) <= limit
    ensures var p := PlanUpdate(totalMs, timestepMs, limit);
      && p.count as real * timestepMs + p.leftoverMs == totalMs
      && (p.count + 1) as real * timestepMs > totalMs
  {
  }

  /** Above the limit exactly limit timesteps run and the time of the
      others is dropped: what is carried over is still less than one
      timestep. */
  lemma PlanDropsExcess(totalMs: real, timestepMs: real, limit: int)
    requires timestepMs > 0.0
    requires WholeSteps(totalMs, timestepMs) > limit
    ensures var p := PlanUpdate(totalMs, timestepMs, limit);
      && p.count == limit
      && p.count as real * timestepMs + p.leftoverMs < totalMs
  {
    var whole := WholeSteps(totalMs, timestepMs);
    assert (whole - limit) as real * timestepMs > 0.0;
  }

  /** 23 ms at 10 ms per timestep: two timesteps, 3 ms carried over. */
  lemma PlanExample()
    ensures PlanUpdate(23.0, 10.0, 10) == Plan(2, 3.0)
  {
    assert 23.0 / 10.0 == 2.3;
    assert (2.3).Floor == 2;
  }

  /** A one-second stall at 10 ms per timestep with a limit of 10: ten
      timesteps run and the other ninety are dropped. */
  lemma LagSpikeExample()
    ensures PlanUpdate(1000.0, 10.0, 10) == Plan(10, 0.0)
  {
    assert 1000.0 / 10.0 == 100.0;
    assert (100.0).Floor == 100;
  }

  class TimeManager {
    const timestepMs: real
    const timestepSec: real
    const timestepLimitPerUpdate: int
    var lastUpdateTime: real
    var leftoverTimeMs: real

    /** The carried-over time is always less than one timestep. */
    ghost predicate Valid()
      reads this
    {
      timestepMs > 0.0 && 0.0 <= leftoverTimeMs < timestepMs
    }

    /** Starts the clock at now with nothing carried over. */
    constructor (timestepMs: real, timestepLimitPerUpdate: int, now: real)
      requires timestepMs > 0.0
      ensures Valid()
      ensures this.timestepMs == timestepMs && timestepSec == timestepMs / 1000.0
      ensures this.timestepLimitPerUpdate == timestepLimitPerUpdate
      ensures lastUpdateTime == now && leftoverTimeMs == 0.0
    {
      this.timestepMs := timestepMs;
      timestepSec := timestepMs / 1000.0;
      this.timestepLimitPerUpdate := timestepLimitPerUpdate;
      lastUpdateTime := now;
      leftoverTimeMs := 0.0;
    }

    /** Runs the timesteps that fit in the time since the last update plus
        the carried-over time: the result lists the argument (the timestep
        in seconds) of each callback invocation, in order. */
    method Update(now: real) returns (calls: seq<real>)
      requires Valid()
      modifies this
      ensures Valid()
      ensures var p := PlanUpdate(now - old(lastUpdateTime) + old(leftoverTimeMs), timestepMs, timestepLimitPerUpdate);
        && |calls| == Max(p.count, 0)
        && leftoverTimeMs == p.leftoverMs
      ensures forall k :: 0 <= k < |calls| ==> calls[k] == timestepSec
      ensures lastUpdateTime == now
    {
      var time := now;
      var elapsedMs := time - lastUpdateTime;
      var timestepCount := ((elapsedMs + leftoverTimeMs) / timestepMs).Floor;
      assert timestepCount == WholeSteps(elapsedMs + leftoverTimeMs, timestepMs);
      leftoverTimeMs := (elapsedMs + leftoverTimeMs) - timestepCount as real * timestepMs;
      timestepCount := Min(timestepCount, timestepLimitPerUpdate);
      calls := [];
      var i := 0;
      while i < timestepCount
        invariant 0 <= i && (timestepCount >= 0 ==> i <= timestepCount)
        invariant timestepCount < 0 ==> i == 0
        invariant |calls| == i
        invariant forall k :: 0 <= k < |calls| ==> calls[k] == timestepSec
      {
        calls := calls + [timestepSec];
        i := i + 1;
      }
      lastUpdateTime := time;
    }

    /** The time since the last update, carried-over time included, in
        timesteps. */
    function GetTimeSinceLastUpdate(now: real): (r: real)
      reads this
      requires Valid()
      ensures r * timestepMs == now - lastUpdateTime + leftoverTimeMs
      ensures now >= lastUpdateTime ==> r >= 0.0
    {
      var elapsedMs := now - lastUpdateTime + leftoverTimeMs;
      elapsedMs / timestepMs
    }
  }

  /** Right after an update, the time since it is less than one timestep:
      the fraction a renderer can interpolate with. */
  lemma FreshUpdateFraction(m: TimeManager, now: real)
    requires m.Valid() && m.lastUpdateTime == now
    ensures 0.0 <= m.GetTimeSinceLastUpdate(now) < 1.0
  {
    assert m.GetTimeSinceLastUpdate(now) == m.leftoverTimeMs / m.timestepMs;
    DivBelowOne(m.leftoverTimeMs, m.timestepMs);
  }

  lemma DivBelowOne(a: real, b: real)
    requires 0.0 <= a < b
    ensures 0.0 <= a / b < 1.0
  {
    assert a / b * b == a;
  }
}
