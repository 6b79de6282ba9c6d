/**
 * The per-pool alert state machine of the polling cycle (`checkPools`).
 *
 * Each pool id has a zone, `Inside` or `Outside`; an id with no entry counts as
 * `Inside`. A poll feeds each pool, in registry order, a freshly fetched price or
 * nothing. A breach alert fires only on the Inside -> Outside edge and a recovery
 * alert only on the Outside -> Inside edge.
 */
module Alerts {
  import opened Wrappers
  import opened PriceMath

  /** One monitored pool. */
  datatype PoolConfig = PoolConfig(
    id: string,
    name: string,
    min: real,
    max: real,
    decimals0: int,
    decimals1: int,
    invert: bool)

  datatype Zone = Inside | Outside

  /** A notification; each is delivered both as a desktop notice and a chat message. */
  datatype Alert =
    | Breach(pool: PoolConfig, price: Quote)
    | Recovery(pool: PoolConfig, price: Quote)

  /** The alert status table after a step, and the alerts that step emitted. */
  datatype Step = Step(status: map<string, Zone>, alerts: seq<Alert>)

  /** The ids of a list of pools. */
  function Ids(pools: seq<PoolConfig>): set<string>
  {
    set i | 0 <= i < |pools| :: pools[i].id
  }

  predicate DistinctIds(pools: seq<PoolConfig>)
  {
    forall i, j :: 0 <= i < j < |pools| ==> pools[i].id != pools[j].id
  }

  /** The zone recorded for an id; a missing entry reads as `Inside`. */
  function ZoneOf(status: map<string, Zone>, id: string): Zone
  {
    if id in status then status[id] else Inside
  }

  /** A missing decimals setting, or zero, falls back to 6. */
  function DecimalsOrDefault(decimals: int): (r: int)
    ensures r != 0
    ensures decimals == 0 ==> r == 6
    ensures decimals != 0 ==> r == decimals
  {
    if decimals == 0 then 6 else decimals
  }

  /**
   * The price `getPoolData` returns for a pool, given the pool's `sqrt_price`
   * field (`None` when the field is absent, empty or the fetch failed).
   */
  function FetchedPrice(config: PoolConfig, sqrtPriceX64: Option<nat>): (r: Option<Quote>)
    ensures r.Some? <==> sqrtPriceX64.Some?
  {
    match sqrtPriceX64
    case None => None
    case Some(s) =>
      Some(CalcPriceFromSqrt(s, DecimalsOrDefault(config.decimals0), DecimalsOrDefault(config.decimals1), config.invert))
  }

  /** A fetch result the poll acts on: present and truthy (zero is falsy). */
  predicate Usable(fetched: Option<Quote>)
  {
    fetched.Some? && fetched.value != Finite(0.0)
  }

  /** Whether a price lies outside `[min, max]`; infinity exceeds every finite bound. */
  predicate IsOutside(price: Quote, min: real, max: real)
  {
    match price
    case Finite(p) => p < min || p > max
    case PosInfinity => true
  }

  function Classify(price: Quote, config: PoolConfig): Zone
  {
    if IsOutside(price, config.min, config.max) then Outside else Inside
  }

  /** The loop body of `checkPools` for one pool. */
  function PoolStep(status: map<string, Zone>, config: PoolConfig, fetched: Option<Quote>): (r: Step)
    // a failed or falsy fetch leaves everything as it was
    ensures !Usable(fetched) ==> r == Step(status, [])
    // after a usable price the pool's zone is that price's classification
    ensures Usable(fetched) ==> ZoneOf(r.status, config.id) == Classify(fetched.value, config)
    // no other id is touched, and no id is added but this one
    ensures r.status - {config.id} == status - {config.id}
    ensures r.status.Keys <= status.Keys + {config.id}
    // an alert is emitted exactly when the pool's zone changes
    ensures r.alerts == [] <==> r.status == status
    ensures r.alerts == [] <==> ZoneOf(r.status, config.id) == ZoneOf(status, config.id)
    // at most one alert, about this pool and this price: a breach on entering Outside, else a recovery
    ensures r.alerts != [] ==>
              Usable(fetched) && |r.alerts| == 1 &&
              r.alerts[0].pool == config && r.alerts[0].price == fetched.value &&
              (r.alerts[0].Breach? <==> ZoneOf(status, config.id) == Inside)
  {
    if !Usable(fetched) then Step(status, [])
    else
      var price := fetched.value;
      var previous := ZoneOf(status, config.id);
      var outside := IsOutside(price, config.min, config.max);
      if outside && previous == Inside then
        Step(status[config.id := Outside], [Breach(config, price)])
      else if !outside && previous == Outside then
        Step(status[config.id := Inside], [Recovery(config, price)])
      else
        assert previous == Classify(price, config);
        Step(status, [])
  }

  /**
   * One whole poll: every pool in registry order, each seeing the status table as
   * the pools before it left it.
   */
  function Cycle(status: map<string, Zone>, pools: seq<PoolConfig>, fetched: seq<Option<Quote>>): (r: Step)
    requires |fetched| == |pools|
    ensures |r.alerts| <= |pools|
    ensures r.status.Keys <= status.Keys + Ids(pools)
    decreases |pools|
  {
    if |pools| == 0 then Step(status, [])
    else
      var n := |pools| - 1;
      var before := Cycle(status, pools[..n], fetched[..n]);
      var last := PoolStep(before.status, pools[n], fetched[n]);
      IdsOfPrefix(pools, n);
      Step(last.status, before.alerts + last.alerts)
  }

  /** Each pool evaluated on its own against the status at the start of the poll. */
  function Independent(status: map<string, Zone>, pools: seq<PoolConfig>, fetched: seq<Option<Quote>>): seq<Alert>
    requires |fetched| == |pools|
    decreases |pools|
  {
    if |pools| == 0 then []
    else
      var n := |pools| - 1;
      Independent(status, pools[..n], fetched[..n]) + PoolStep(status, pools[n], fetched[n]).alerts
  }

  lemma IdsOfPrefix(pools: seq<PoolConfig>, n: nat)
    requires n < |pools|
    ensures Ids(pools[..n]) + {pools[n].id} <= Ids(pools)
    ensures n == |pools| - 1 ==> Ids(pools) == Ids(pools[..n]) + {pools[n].id}
  {
    assert forall i | 0 <= i < n :: pools[..n][i] == pools[i];
  }

  /** With distinct ids, a pool's id does not occur among the pools before it. */
  lemma DistinctPrefix(pools: seq<PoolConfig>, n: nat)
    requires DistinctIds(pools) && n < |pools|
    ensures DistinctIds(pools[..n])
    ensures pools[n].id !in Ids(pools[..n])
  {
    forall k | 0 <= k < n
      ensures pools[..n][k].id != pools[n].id
    {
      assert pools[..n][k] == pools[k];
    }
  }

  /** The last pool of a poll sees the status the pools before it left. */
  lemma CycleLast(status: map<string, Zone>, pools: seq<PoolConfig>, fetched: seq<Option<Quote>>, n: nat)
    requires |fetched| == |pools| && n < |pools|
    ensures var before := Cycle(status, pools[..n], fetched[..n]);
            var last := PoolStep(before.status, pools[n], fetched[n]);
            Cycle(status, pools[..n + 1], fetched[..n + 1]) == Step(last.status, before.alerts + last.alerts)
  {
    assert pools[..n + 1][..n] == pools[..n] && fetched[..n + 1][..n] == fetched[..n];
    assert pools[..n + 1][n] == pools[n] && fetched[..n + 1][n] == fetched[n];
  }

  /** A poll leaves the entry of every id not in the registry exactly as it was. */
  lemma {:induction false} CycleFrame(status: map<string, Zone>, pools: seq<PoolConfig>, fetched: seq<Option<Quote>>, id: string)
    requires |fetched| == |pools|
    requires id !in Ids(pools)
    ensures id in Cycle(status, pools, fetched).status <==> id in status
    ensures id in status ==> Cycle(status, pools, fetched).status[id] == status[id]
  {
    if |pools| > 0 {
      var n := |pools| - 1;
      IdsOfPrefix(pools, n);
      CycleFrame(status, pools[..n], fetched[..n], id);
      var before := Cycle(status, pools[..n], fetched[..n]);
      var last := PoolStep(before.status, pools[n], fetched[n]);
      assert id in last.status - {pools[n].id} <==> id in before.status - {pools[n].id};
    }
  }

  lemma FrameZone(status: map<string, Zone>, pools: seq<PoolConfig>, fetched: seq<Option<Quote>>, id: string)
    requires |fetched| == |pools|
    requires id !in Ids(pools)
    ensures ZoneOf(Cycle(status, pools, fetched).status, id) == ZoneOf(status, id)
  {
    CycleFrame(status, pools, fetched, id);
  }

  /** One step leaves every other id's zone alone. */
  lemma StepOtherZone(status: map<string, Zone>, config: PoolConfig, fetched: Option<Quote>, id: string)
    requires id != config.id
    ensures ZoneOf(PoolStep(status, config, fetched).status, id) == ZoneOf(status, id)
  {
    var r := PoolStep(status, config, fetched);
    assert id in r.status <==> id in r.status - {config.id};
    assert id in status <==> id in status - {config.id};
    if id in r.status {
      assert r.status[id] == (r.status - {config.id})[id];
      assert status[id] == (status - {config.id})[id];
    }
  }

  /**
   * With distinct ids, after a poll each pool's zone is the classification of the
   * price it was just given, or its old zone when the fetch failed or was zero.
   */
  lemma {:induction false} CycleZone(status: map<string, Zone>, pools: seq<PoolConfig>, fetched: seq<Option<Quote>>, i: nat)
    requires |fetched| == |pools| && i < |pools|
    requires DistinctIds(pools)
    ensures ZoneOf(Cycle(status, pools, fetched).status, pools[i].id)
         == if Usable(fetched[i]) then Classify(fetched[i].value, pools[i]) else ZoneOf(status, pools[i].id)
  {
    var n := |pools| - 1;
    var before := Cycle(status, pools[..n], fetched[..n]);
    assert Cycle(status, pools, fetched).status == PoolStep(before.status, pools[n], fetched[n]).status;
    DistinctPrefix(pools, n);
    if i == n {
      FrameZone(status, pools[..n], fetched[..n], pools[n].id);
    } else {
      CycleZone(status, pools[..n], fetched[..n], i);
      assert pools[..n][i] == pools[i] && fetched[..n][i] == fetched[i];
      assert pools[i].id != pools[n].id;
      StepOtherZone(before.status, pools[n], fetched[n], pools[i].id);
    }
  }

  /**
   * With distinct ids the registry order only orders the alerts: a poll emits
   * exactly the alerts each pool would emit alone against the starting status.
   */
  lemma {:induction false} CycleIsIndependent(status: map<string, Zone>, pools: seq<PoolConfig>, fetched: seq<Option<Quote>>)
    requires |fetched| == |pools|
    requires DistinctIds(pools)
    ensures Cycle(status, pools, fetched).alerts == Independent(status, pools, fetched)
  {
    if |pools| > 0 {
      var n := |pools| - 1;
      var before := Cycle(status, pools[..n], fetched[..n]);
      assert Cycle(status, pools, fetched).alerts
          == before.alerts + PoolStep(before.status, pools[n], fetched[n]).alerts;
      assert Independent(status, pools, fetched)
          == Independent(status, pools[..n], fetched[..n]) + PoolStep(status, pools[n], fetched[n]).alerts;
      DistinctPrefix(pools, n);
      CycleIsIndependent(status, pools[..n], fetched[..n]);
      FrameZone(status, pools[..n], fetched[..n], pools[n].id);
      StepAlertsByZone(before.status, status, pools[n], fetched[n]);
    }
  }

  /** What a step emits depends only on the pool's own zone. */
  lemma StepAlertsByZone(s1: map<string, Zone>, s2: map<string, Zone>, config: PoolConfig, fetched: Option<Quote>)
    requires ZoneOf(s1, config.id) == ZoneOf(s2, config.id)
    ensures PoolStep(s1, config, fetched).alerts == PoolStep(s2, config, fetched).alerts
  {
  }

  /** Staying outside across polls never repeats the breach alert. */
  lemma NoRepeatedBreach(status: map<string, Zone>, config: PoolConfig, first: Option<Quote>, second: Option<Quote>)
    requires Usable(first) && IsOutside(first.value, config.min, config.max)
    ensures PoolStep(PoolStep(status, config, first).status, config, second).alerts == []
         || PoolStep(PoolStep(status, config, first).status, config, second).alerts[0].Recovery?
  {
  }

  /**
   * A pool with square-root price 0 is skipped when not inverted (its price is the
   * falsy 0) and breaches when inverted (its price is infinite).
   */
  lemma ZeroSqrtPrice(status: map<string, Zone>, config: PoolConfig)
    ensures !config.invert ==> PoolStep(status, config, FetchedPrice(config, Some(0))) == Step(status, [])
    ensures config.invert ==> ZoneOf(PoolStep(status, config, FetchedPrice(config, Some(0))).status, config.id) == Outside
  {
  }

  /**
   * An un-inverted price that is positive but below 5e-11 rounds to zero, so the pool
   * is skipped as if the fetch had failed.
   */
  lemma TinyPriceSkipped(status: map<string, Zone>, config: PoolConfig, sqrtPriceX64: nat)
    requires !config.invert
    requires RawPrice(sqrtPriceX64, DecimalsOrDefault(config.decimals0), DecimalsOrDefault(config.decimals1)) < 1.0 / (2.0 * Scale)
    ensures PoolStep(status, config, FetchedPrice(config, Some(sqrtPriceX64))) == Step(status, [])
  {
    ToFixedZero(RawPrice(sqrtPriceX64, DecimalsOrDefault(config.decimals0), DecimalsOrDefault(config.decimals1)));
  }
}
