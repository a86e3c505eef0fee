// Checkpoint statistics of fb303 (thrift/contrib/fb303/cpp/ServiceTracker.cpp). What is between
// locking and unlocking statisticsMutex_ is one call here; any threads can make the calls.
module ServiceTracker {
  // CHECKPOINT_MINIMUM_INTERVAL_SECONDS
  const MINIMUM_INTERVAL: nat := 60

  const TWO64: nat := 0x1_0000_0000_0000_0000

  function U64(x: int): (r: nat)
    ensures r < TWO64
  {
    x % TWO64
  }

  // int64_t
  function I64(x: int): int {
    U64(x + TWO64 / 2) - TWO64 / 2
  }

  lemma {:induction false} Wraps(x: int, y: int)
    ensures U64(U64(x) + y) == U64(x + y) && I64(I64(x) + y) == I64(x + y) && I64(U64(x)) == I64(x)
  {
    SameRest(U64(x) + y, x + y, x / TWO64);
    SameRest(I64(x) + y + TWO64 / 2, x + y + TWO64 / 2, (x + TWO64 / 2) / TWO64);
    SameRest(U64(x) + TWO64 / 2, x + TWO64 / 2, x / TWO64);
  }

  lemma {:induction false} SameRest(a: int, b: int, q: int)
    requires b == a + q * TWO64
    ensures U64(a) == U64(b)
  {
    var d := b / TWO64 - a / TWO64 - q;
    assert U64(a) - U64(b) == d * TWO64;
  }

  // Calls of a service, and how long they took together.
  datatype Stats = Stats(count: nat, duration: nat)

  // What is logged at a checkpoint.
  datatype Checkpoint = Checkpoint(interval: nat, services: nat, duration: nat, lifetime: int)

  // ---------------------------------------------------------------------------
  // Sums over the services
  // ---------------------------------------------------------------------------

  ghost function Count(m: map<string, Stats>): int
    decreases |m|
  {
    if m == map[] then 0
    else
      var k :| k in m;
      m[k].count + Count(m - {k})
  }

  ghost function Duration(m: map<string, Stats>): int
    decreases |m|
  {
    if m == map[] then 0
    else
      var k :| k in m;
      m[k].duration + Duration(m - {k})
  }

  // Any service can be taken first.
  lemma {:induction false} TakeFirst(m: map<string, Stats>, k: string)
    requires k in m
    ensures Count(m) == m[k].count + Count(m - {k}) && Duration(m) == m[k].duration + Duration(m - {k})
    decreases |m|
  {
    var j :| j in m && Count(m) == m[j].count + Count(m - {j});
    TakeFirstDuration(m, k);
    if j != k {
      TakeFirst(m - {j}, k);
      TakeFirst(m - {k}, j);
      assert m - {j} - {k} == m - {k} - {j};
    }
  }

  lemma {:induction false} TakeFirstDuration(m: map<string, Stats>, k: string)
    requires k in m
    ensures Duration(m) == m[k].duration + Duration(m - {k})
    decreases |m|
  {
    var j :| j in m && Duration(m) == m[j].duration + Duration(m - {j});
    if j != k {
      TakeFirstDuration(m - {j}, k);
      TakeFirstDuration(m - {k}, j);
      assert m - {j} - {k} == m - {k} - {j};
    }
  }

  lemma {:induction false} SumsUpdate(m: map<string, Stats>, k: string, s: Stats)
    ensures Count(m[k := s]) == Count(m) + s.count - (if k in m then m[k].count else 0)
    ensures Duration(m[k := s]) == Duration(m) + s.duration - (if k in m then m[k].duration else 0)
  {
    TakeFirst(m[k := s], k);
    assert m[k := s] - {k} == m - {k};
    if k in m {
      TakeFirst(m, k);
    } else {
      assert m - {k} == m;
    }
  }

  lemma {:induction false} SumsOfNone()
    ensures U64(Count(map[])) == 0 == U64(Duration(map[]))
  {
  }

  // ---------------------------------------------------------------------------
  // The tracker
  // ---------------------------------------------------------------------------

  // Services that were logged at the first n checkpoints.
  ghost function Logged(logged: seq<Checkpoint>, n: nat): int
    requires n <= |logged|
  {
    if n == 0 then 0 else Logged(logged, n - 1) + logged[n - 1].services
  }

  lemma {:induction false} LoggedPrefix(logged: seq<Checkpoint>, c: Checkpoint, n: nat)
    requires n <= |logged|
    ensures Logged(logged + [c], n) == Logged(logged, n)
  {
    if n > 0 {
      LoggedPrefix(logged, c, n - 1);
    }
  }

  // Every checkpoint says the lifetime count, by which all services logged so far are counted.
  ghost predicate CheckpointsOk(logged: seq<Checkpoint>) {
    forall i :: 0 <= i < |logged| ==> logged[i].lifetime == I64(Logged(logged, i + 1))
  }

  lemma {:induction false} NextCheckpoint(logged: seq<Checkpoint>, c: Checkpoint)
    requires CheckpointsOk(logged) && c.lifetime == I64(Logged(logged, |logged|) + c.services)
    ensures CheckpointsOk(logged + [c]) && Logged(logged + [c], |logged| + 1) == Logged(logged, |logged|) + c.services
  {
    forall i | 0 <= i <= |logged|
      ensures Logged(logged + [c], i) == Logged(logged, i)
    {
      LoggedPrefix(logged, c, i);
    }
  }

  // One call more, modulo the width of the counters.
  lemma {:induction false} CountsOneMore(m: map<string, Stats>, duration: int, stats: Stats)
    ensures U64(Count(m) + U64(stats.count + 1) - stats.count) == U64(U64(Count(m)) + 1)
    ensures U64(Duration(m) + U64(stats.duration + duration) - stats.duration) == U64(U64(Duration(m)) + duration)
  {
    Wraps(Count(m), 1);
    Wraps(Duration(m), duration);
    Wraps(stats.count + 1, Count(m) - stats.count);
    Wraps(stats.duration + duration, Duration(m) - stats.duration);
  }

  // A service's statistics with one call more.
  function OneMore(m: map<string, Stats>, name: string, duration: int): Stats {
    var stats := if name in m then m[name] else Stats(0, 0);
    Stats(U64(stats.count + 1), U64(stats.duration + duration))
  }

  // One call of that service more, and none of the others.
  ghost predicate Counted(m: map<string, Stats>, m': map<string, Stats>, name: string, duration: int) {
    && m'.Keys == m.Keys + {name}
    && m'[name].count == ((if name in m then m[name].count else 0) + 1) % TWO64
    && m'[name].duration == ((if name in m then m[name].duration else 0) + duration) % TWO64
    && forall k :: k in m && k != name ==> m'[k] == m[k]
  }

  lemma {:induction false} CallCounted(m: map<string, Stats>, name: string, duration: int)
    ensures var m' := m[name := OneMore(m, name, duration)];
            U64(Count(m')) == U64(U64(Count(m)) + 1) && U64(Duration(m')) == U64(U64(Duration(m)) + duration)
  {
    SumsUpdate(m, name, OneMore(m, name, duration));
    CountsOneMore(m, duration, if name in m then m[name] else Stats(0, 0));
  }

  // Every call that was counted is in a checkpoint or in the current count, and in the lifetime count.
  ghost predicate Conserved(finished: nat, lifetime: int, logged: seq<Checkpoint>, services: nat) {
    U64(finished) == U64(Logged(logged, |logged|) + services) && lifetime == I64(finished)
  }

  lemma {:induction false} FinishedOneMore(finished: nat, lifetime: int, logged: seq<Checkpoint>, services: nat)
    requires Conserved(finished, lifetime, logged, services)
    ensures Conserved(finished + 1, I64(lifetime + 1), logged, U64(services + 1))
  {
    Wraps(finished, 1);
    Wraps(Logged(logged, |logged|) + services, 1);
    Wraps(services + 1, Logged(logged, |logged|));
  }

  lemma {:induction false} Reported(finished: nat, lifetime: int, logged: seq<Checkpoint>, interval: nat, services: nat,
                                    duration: nat)
    requires Conserved(finished, lifetime, logged, services) && CheckpointsOk(logged)
    ensures var logged' := logged + [Checkpoint(interval, services, duration, lifetime)];
            Conserved(finished, lifetime, logged', 0) && CheckpointsOk(logged')
  {
    Wraps(finished, 0);
    Wraps(Logged(logged, |logged|) + services, 0);
    NextCheckpoint(logged, Checkpoint(interval, services, duration, lifetime));
  }

  class Tracker {
    var checkpointTime: int
    var checkpointServices: nat
    var checkpointDuration: nat
    var checkpointServiceDuration: map<string, Stats>
    // The handler's counters lifetime_services and checkpoint_time, those of the services, and what
    // is logged.
    var lifetimeServices: int
    var exportedTime: int
    var exported: map<string, (int, int)>
    var logged: seq<Checkpoint>
    // All calls that were counted.
    ghost var finished: nat

    // The duration is not initialised.
    constructor (now: int, garbage: nat)
      ensures Accounted() && logged == [] && finished == 0
    {
      checkpointTime, checkpointServices, checkpointDuration, checkpointServiceDuration := now, 0, garbage, map[];
      lifetimeServices, exportedTime, exported, logged, finished := 0, 0, map[], [], 0;
    }

    // When the mutex is free: every call is counted once for its service and once for all, and is
    // in the lifetime count and either in a checkpoint or in the current count. The durations add
    // up from the first checkpoint on.
    ghost predicate Accounted()
      reads this
    {
      && checkpointServices == U64(Count(checkpointServiceDuration))
      && Conserved(finished, lifetimeServices, logged, checkpointServices)
      && (logged != [] ==> checkpointDuration == U64(Duration(checkpointServiceDuration)))
      && CheckpointsOk(logged)
    }

    // finishService, in checkpoint mode, for a service that is not only logged; now and later are
    // the times at which it and reportCheckpoint look at the clock.
    method FinishService(name: string, duration: int, now: int, later: int)
      requires Accounted()
      modifies this
      ensures Accounted() && finished == old(finished) + 1
      ensures logged == old(logged) <==> U64(now - old(checkpointTime)) < 60
      ensures logged != old(logged) ==>
                && logged == old(logged) + [Checkpoint(U64(later - old(checkpointTime)),
                                                       U64(old(checkpointServices) + 1),
                                                       U64(old(checkpointDuration) + duration), I64(finished))]
                && checkpointServices == 0 && checkpointDuration == 0 && checkpointServiceDuration == map[]
                && checkpointTime == later
      ensures logged == old(logged) ==>
                && checkpointServices == U64(old(checkpointServices) + 1)
                && Counted(old(checkpointServiceDuration), checkpointServiceDuration, name, duration)
    {
      CountService(name, duration);
      var checkInterval := U64(now - checkpointTime);
      if checkInterval >= MINIMUM_INTERVAL {
        ReportCheckpoint(later);
      }
    }

    // The call is counted.
    method CountService(name: string, duration: int)
      requires Accounted()
      modifies `lifetimeServices, `finished, `checkpointServices, `checkpointDuration, `checkpointServiceDuration
      ensures Accounted() && finished == old(finished) + 1
      ensures checkpointServices == U64(old(checkpointServices) + 1)
              && checkpointDuration == U64(old(checkpointDuration) + duration)
      ensures Counted(old(checkpointServiceDuration), checkpointServiceDuration, name, duration)
    {
      var counted := OneMore(checkpointServiceDuration, name, duration);
      CallCounted(checkpointServiceDuration, name, duration);
      FinishedOneMore(finished, lifetimeServices, logged, checkpointServices);
      lifetimeServices := I64(lifetimeServices + 1);
      finished := finished + 1;
      checkpointServices := U64(checkpointServices + 1);
      checkpointDuration := U64(checkpointDuration + duration);
      checkpointServiceDuration := checkpointServiceDuration[name := counted];
    }

    method ReportCheckpoint(now: int)
      requires Accounted()
      modifies this
      ensures Accounted() && finished == old(finished) && lifetimeServices == old(lifetimeServices)
      ensures var interval := U64(now - old(checkpointTime));
              && exportedTime == I64(interval)
              && logged == old(logged) + [Checkpoint(interval, old(checkpointServices), old(checkpointDuration),
                                                     lifetimeServices)]
      ensures checkpointServices == 0 && checkpointDuration == 0 && checkpointServiceDuration == map[]
              && checkpointTime == now
      ensures forall k :: k in old(checkpointServiceDuration) ==>
                && k in exported
                && Averaged(old(checkpointServiceDuration)[k].count, old(checkpointServiceDuration)[k].duration,
                            exported[k].0, exported[k].1)
    {
      var checkCount, checkDuration := checkpointServices, checkpointDuration;
      var checkInterval := U64(now - checkpointTime);
      exportedTime := I64(checkInterval);
      Export(checkpointServiceDuration);
      AllAveraged(checkpointServiceDuration, exported);
      Reported(finished, lifetimeServices, logged, checkInterval, checkCount, checkDuration);
      SumsOfNone();
      checkpointServiceDuration, checkpointTime, checkpointServices, checkpointDuration := map[], now, 0, 0;
      logged := logged + [Checkpoint(checkInterval, checkCount, checkDuration, lifetimeServices)];
    }

    // The loop of reportCheckpoint.
    method Export(services: map<string, Stats>)
      modifies `exported
      ensures forall k :: k in services ==> k in exported && exported[k] == Exported(services[k])
      ensures forall k :: k in old(exported) && k !in services ==> k in exported && exported[k] == old(exported)[k]
    {
      var left := services;
      while left != map[]
        invariant left.Keys <= services.Keys
        invariant forall k :: k in services && k !in left ==> k in exported && exported[k] == Exported(services[k])
        invariant forall k :: k in old(exported) && k !in services ==> k in exported && exported[k] == old(exported)[k]
        decreases |left|
      {
        var k :| k in left;
        exported := exported[k := Exported(services[k])];
        left := left - {k};
      }
    }
  }

  // checkpoint_count_ and checkpoint_speed_ of a service.
  function Exported(s: Stats): (int, int) {
    (I64(s.count), if s.count == 0 then 0 else I64(s.duration / s.count))
  }

  // The first is how many calls there were, and the second how long they took on average, rounded down.
  ghost predicate Averaged(calls: nat, duration: nat, count: int, speed: int) {
    && I64Of(calls, count)
    && if calls == 0 then speed == 0
       else exists q {:trigger I64Of(q, speed)} :: q * calls <= duration < (q + 1) * calls && I64Of(q, speed)
  }

  // The int64_t that is the same modulo 2 to the 64.
  ghost predicate I64Of(x: int, r: int) {
    -0x8000_0000_0000_0000 <= r < 0x8000_0000_0000_0000 && (r - x) % TWO64 == 0
  }

  lemma {:induction false} I64Is(x: int)
    ensures I64Of(x, I64(x))
  {
    var q := (x + TWO64 / 2) / TWO64;
    assert I64(x) - x == -q * TWO64;
  }

  lemma {:induction false} ExportedIs(s: Stats)
    ensures Averaged(s.count, s.duration, Exported(s).0, Exported(s).1)
  {
    I64Is(s.count);
    if s.count > 0 {
      var q := s.duration / s.count;
      I64Is(q);
      assert s.duration == q * s.count + s.duration % s.count;
      assert I64Of(q, Exported(s).1);
    }
  }

  lemma {:induction false} AllAveraged(services: map<string, Stats>, exported: map<string, (int, int)>)
    requires forall k :: k in services ==> k in exported && exported[k] == Exported(services[k])
    ensures forall k :: k in services ==>
              Averaged(services[k].count, services[k].duration, exported[k].0, exported[k].1)
  {
    forall k | k in services
      ensures Averaged(services[k].count, services[k].duration, exported[k].0, exported[k].1)
    {
      ExportedIs(services[k]);
    }
  }
}
