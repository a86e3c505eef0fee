// The counters of fb303's FacebookBase (thrift/contrib/fb303/cpp/FacebookBase.cpp): any number of
// threads, one step of one thread at a time, with a lock for the map and one for every entry.
module Counters {
  import opened Options

  datatype Op = Increment(key: string, amount: int) | SetTo(key: string, value: int) | Get(key: string) | GetAll

  // What a call did to the counters, or saw of them, at one moment.
  datatype Event = Event(call: nat, op: Op, result: int)

  // A call that has ended: log[at] is its event, and start how long the log was when it began.
  datatype Return = Return(call: nat, op: Op, result: int, start: nat, at: nat)

  // What getCounters returned; the log was start long when it began and end long when it ended.
  datatype Listing = Listing(values: map<string, int>, start: nat, end: nat)

  // Where a thread is: waiting for the map's lock to read, looking the key up, before it gives the
  // lock back to get it for writing, waiting for that, looking the key up once more, waiting for
  // the entry's lock, before it reads or stores the value, before it releases the entry and the
  // map, and in the loop of getCounters. In locked the map's lock is held for writing.
  datatype Pc =
    | Idle
    | MapRead(call: nat, op: Op, start: nat)
    | Find(call: nat, op: Op, start: nat)
    | Retry(call: nat, op: Op, start: nat)
    | MapWrite(call: nat, op: Op, start: nat)
    | FindAgain(call: nat, op: Op, start: nat)
    | Entry(call: nat, op: Op, start: nat, locked: bool)
    | Load(call: nat, op: Op, start: nat, locked: bool)
    | Store(call: nat, op: Op, start: nat, locked: bool, count: int)
    | Unlock(call: nat, op: Op, start: nat, locked: bool, result: int, at: nat)
    | Leave(call: nat, op: Op, start: nat, locked: bool, result: int, at: nat)
    | Listed(call: nat, start: nat, todo: set<string>, values: map<string, int>)

  datatype State = State(
    counters: map<string, int>,
    mapReaders: set<nat>, mapWriter: Option<nat>,
    entryReaders: set<(string, nat)>, entryWriters: map<string, nat>,
    threads: seq<Pc>, calls: nat, log: seq<Event>, ended: seq<Return>, listings: seq<Listing>)

  // int64_t arithmetic
  function Wrap(x: int): int {
    (x + 0x8000_0000_0000_0000) % 0x1_0000_0000_0000_0000 - 0x8000_0000_0000_0000
  }

  // ---------------------------------------------------------------------------
  // Counters used by one call at a time
  // ---------------------------------------------------------------------------

  function Apply(value: Option<int>, op: Op): int {
    match op
    case Increment(_, amount) => if value.Some? then Wrap(value.value + amount) else amount
    case SetTo(_, v) => v
    case _ => if value.Some? then value.value else 0
  }

  predicate Writes(op: Op) { op.Increment? || op.SetTo? }

  predicate Changes(op: Op, key: string) { Writes(op) && op.key == key }

  // A counter's value after the events of a log: its last set value plus all later increments.
  function Value(log: seq<Event>, key: string): Option<int> {
    if log == [] then None
    else
      var last := log[|log| - 1];
      var before := Value(log[..|log| - 1], key);
      if Changes(last.op, key) then Some(Apply(before, last.op)) else before
  }

  // Every event's result is what its operation gives where it stands.
  ghost predicate Legal(log: seq<Event>) {
    forall i {:trigger log[i]} :: 0 <= i < |log| ==>
      !log[i].op.GetAll? && log[i].result == Apply(Value(log[..i], log[i].op.key), log[i].op)
  }

  // ---------------------------------------------------------------------------
  // Steps
  // ---------------------------------------------------------------------------

  ghost predicate Init(s: State) {
    && s.counters == map[] && s.mapReaders == {} && s.mapWriter == None && s.entryReaders == {}
    && s.entryWriters == map[]
    && (forall t :: 0 <= t < |s.threads| ==> s.threads[t] == Idle)
    && s.calls == 0 && s.log == [] && s.ended == [] && s.listings == []
  }

  function At(s: State, t: nat, pc: Pc): State
    requires t < |s.threads|
  {
    s.(threads := s.threads[t := pc])
  }

  // The call has its effect now.
  function Logged(s: State, event: Event): State {
    s.(log := s.log + [event],
       counters := if Writes(event.op) then s.counters[event.op.key := event.result] else s.counters)
  }

  // What a thread does next: op is the operation of a new call, and key the one that getCounters
  // comes to. A thread that has to wait does nothing.
  ghost function Do(s: State, t: nat, op: Op, key: string): State
    requires t < |s.threads|
  {
    match s.threads[t]
    case Idle => At(s.(calls := s.calls + 1), t, MapRead(s.calls, op, |s.log|))
    case MapRead(c, o, b) =>
      if s.mapWriter.Some? then s
      else At(s.(mapReaders := s.mapReaders + {t}), t,
              if o.GetAll? then Listed(c, b, s.counters.Keys, map[]) else Find(c, o, b))
    case Find(c, o, b) =>
      if o.GetAll? then s
      else if o.key in s.counters then At(s, t, Entry(c, o, b, false))
      else if o.Get? then At(Logged(s, Event(c, o, 0)), t, Leave(c, o, b, false, 0, |s.log|))
      else At(s, t, Retry(c, o, b))
    case Retry(c, o, b) => At(s.(mapReaders := s.mapReaders - {t}), t, MapWrite(c, o, b))
    case MapWrite(c, o, b) =>
      if s.mapWriter.Some? || s.mapReaders != {} then s else At(s.(mapWriter := Some(t)), t, FindAgain(c, o, b))
    case FindAgain(c, o, b) =>
      if o.Increment? then
        if o.key in s.counters then At(s, t, Entry(c, o, b, true))
        else At(Logged(s, Event(c, o, o.amount)), t, Leave(c, o, b, true, o.amount, |s.log|))
      else if o.SetTo? then At(Logged(s, Event(c, o, o.value)), t, Leave(c, o, b, true, o.value, |s.log|))
      else s
    case Entry(c, o, b, w) =>
      if o.GetAll? || o.key in s.entryWriters || (!o.Get? && exists u :: (o.key, u) in s.entryReaders) then s
      else if o.Get? then At(s.(entryReaders := s.entryReaders + {(o.key, t)}), t, Load(c, o, b, w))
      else At(s.(entryWriters := s.entryWriters[o.key := t]), t,
              if o.SetTo? then Store(c, o, b, w, o.value) else Load(c, o, b, w))
    case Load(c, o, b, w) =>
      if o.GetAll? || o.key !in s.counters then s
      else if o.Get? then At(Logged(s, Event(c, o, s.counters[o.key])), t,
                             Unlock(c, o, b, w, s.counters[o.key], |s.log|))
      else if o.Increment? then At(s, t, Store(c, o, b, w, Wrap(s.counters[o.key] + o.amount)))
      else s
    case Store(c, o, b, w, count) => At(Logged(s, Event(c, o, count)), t, Unlock(c, o, b, w, count, |s.log|))
    case Unlock(c, o, b, w, result, at) =>
      if o.GetAll? then s
      else if o.Get? then At(s.(entryReaders := s.entryReaders - {(o.key, t)}), t, Leave(c, o, b, w, result, at))
      else At(s.(entryWriters := s.entryWriters - {o.key}), t, Leave(c, o, b, w, result, at))
    case Leave(c, o, b, w, result, at) =>
      var left := if w then s.(mapWriter := None) else s.(mapReaders := s.mapReaders - {t});
      At(left.(ended := s.ended + [Return(c, o, result, b, at)]), t, Idle)
    case Listed(c, b, todo, values) =>
      if todo == {} then At(s.(mapReaders := s.mapReaders - {t},
                               listings := s.listings + [Listing(values, b, |s.log|)]), t, Idle)
      else if key in todo && key in s.counters then At(s, t, Listed(c, b, todo - {key}, values[key := s.counters[key]]))
      else s
  }

  ghost predicate Steps(s: State, s': State, t: nat, op: Op, key: string) {
    t < |s.threads| && s' == Do(s, t, op, key)
  }

  ghost predicate Next(s: State, s': State) {
    exists t, op, key :: Steps(s, s', t, op, key)
  }

  ghost predicate Run(run: seq<State>) {
    run != [] && Init(run[0]) && forall i {:trigger run[i]} :: 0 < i < |run| ==> Next(run[i - 1], run[i])
  }

  // ---------------------------------------------------------------------------
  // Locks
  // ---------------------------------------------------------------------------

  predicate ReadsMap(pc: Pc) {
    pc.Find? || pc.Retry? || pc.Listed?
        || ((pc.Entry? || pc.Load? || pc.Store? || pc.Unlock? || pc.Leave?) && !pc.locked)
  }

  predicate WritesMap(pc: Pc) {
    pc.FindAgain? || ((pc.Entry? || pc.Load? || pc.Store? || pc.Unlock? || pc.Leave?) && pc.locked)
  }

  predicate Looking(pc: Pc) { pc.Idle? || pc.MapRead? || pc.Find? || pc.Retry? || pc.MapWrite? || pc.FindAgain? }

  predicate InEntry(pc: Pc) { pc.Load? || pc.Store? || pc.Unlock? }

  predicate ReadsEntry(pc: Pc, key: string) { InEntry(pc) && pc.op == Get(key) }

  predicate WritesEntry(pc: Pc, key: string) { InEntry(pc) && Changes(pc.op, key) }

  // The locks are held by exactly the threads that have to hold them, and exclude one another.
  ghost predicate MapLockOk(s: State) {
    && (forall t :: t in s.mapReaders ==> t < |s.threads|)
    && (s.mapWriter.Some? ==> s.mapWriter.value < |s.threads| && s.mapReaders == {})
    && forall t {:trigger s.threads[t]} :: 0 <= t < |s.threads| ==>
         (ReadsMap(s.threads[t]) <==> t in s.mapReaders) && (WritesMap(s.threads[t]) <==> s.mapWriter == Some(t))
  }

  ghost predicate EntryLocksOk(s: State) {
    && (forall k, t :: (k, t) in s.entryReaders ==> t < |s.threads| && k !in s.entryWriters)
    && (forall k :: k in s.entryWriters ==> s.entryWriters[k] < |s.threads|)
    && forall t {:trigger s.threads[t]} :: 0 <= t < |s.threads| ==> EntryLockOk(s, t)
  }

  ghost predicate EntryLockOk(s: State, t: nat)
    requires t < |s.threads|
  {
    && (forall k {:trigger (k, t) in s.entryReaders} :: ReadsEntry(s.threads[t], k) <==> (k, t) in s.entryReaders)
    && (forall k {:trigger k in s.entryWriters} ::
          WritesEntry(s.threads[t], k) <==> k in s.entryWriters && s.entryWriters[k] == t)
  }

  // ---------------------------------------------------------------------------
  // What every step keeps
  // ---------------------------------------------------------------------------

  predicate Past(pc: Pc) { pc.Unlock? || pc.Leave? }

  // getCounters has found its values in the log as it was at some time since it began.
  ghost predicate Held(log: seq<Event>, start: nat, end: nat, values: map<string, int>) {
    start <= end <= |log| && forall k :: k in values ==>
      exists p :: start <= p <= end && Value(log[..p], k) == Some(values[k])
  }

  // Which operations get where.
  ghost predicate OpOk(pc: Pc) {
    && (!pc.Idle? && !pc.MapRead? && !pc.Listed? ==> !pc.op.GetAll?)
    && (pc.Retry? || pc.MapWrite? || pc.FindAgain? || pc.Store? ==> !pc.op.Get?)
    && (pc.Load? ==> !pc.op.SetTo?)
  }

  ghost predicate PcOk(s: State, pc: Pc) {
    && OpOk(pc)
    && (!pc.Idle? ==> pc.call < s.calls && pc.start <= |s.log|)
    && (!pc.Idle? && !Past(pc) ==> forall i :: 0 <= i < |s.log| ==> s.log[i].call != pc.call)
    && (pc.Entry? || InEntry(pc) ==> pc.op.key in s.counters)
    && (pc.Store? ==> pc.count == Apply(Some(s.counters[pc.op.key]), pc.op))
    && (Past(pc) ==> pc.start <= pc.at < |s.log| && s.log[pc.at] == Event(pc.call, pc.op, pc.result))
    && (pc.Listed? ==> pc.todo + pc.values.Keys == s.counters.Keys && Held(s.log, pc.start, |s.log|, pc.values))
  }

  ghost predicate ReturnOk(s: State, r: Return) {
    r.start <= r.at < |s.log| && s.log[r.at] == Event(r.call, r.op, r.result)
  }

  ghost predicate LogOk(s: State) {
    && Legal(s.log)
    && (forall i :: 0 <= i < |s.log| ==> s.log[i].call < s.calls)
    && (forall i, j :: 0 <= i < j < |s.log| ==> s.log[i].call != s.log[j].call)
    && forall k :: Value(s.log, k) == if k in s.counters then Some(s.counters[k]) else None
  }

  ghost predicate CallsOk(s: State) {
    forall t, u :: 0 <= t < u < |s.threads| && !s.threads[t].Idle? && !s.threads[u].Idle? ==>
      s.threads[t].call != s.threads[u].call
  }

  ghost predicate Inv(s: State) {
    && MapLockOk(s) && EntryLocksOk(s) && LogOk(s) && CallsOk(s)
    && (forall t :: 0 <= t < |s.threads| ==> PcOk(s, s.threads[t]))
    && (forall i :: 0 <= i < |s.ended| ==> ReturnOk(s, s.ended[i]))
    && (forall i :: 0 <= i < |s.listings| ==> Held(s.log, s.listings[i].start, s.listings[i].end, s.listings[i].values))
  }

  lemma {:induction false} InitInv(s: State)
    requires Init(s)
    ensures Inv(s)
  {
    forall t | 0 <= t < |s.threads|
      ensures s.threads[t] == Idle && EntryLockOk(s, t)
    {
    }
  }

  // A step changes one thread, and adds at most one event, that of this thread's call.
  ghost predicate Framed(s: State, s': State, t: nat)
    requires t < |s.threads|
  {
    && |s'.threads| == |s.threads| && s.calls <= s'.calls && s.counters.Keys <= s'.counters.Keys
    && (forall u :: 0 <= u < |s.threads| && u != t ==> s'.threads[u] == s.threads[u])
    && ((s'.log == s.log && s'.counters == s.counters) || exists e :: NewEvent(s, s', t, e))
  }

  lemma {:induction false} StepFrame(s: State, s': State, t: nat, op: Op, key: string)
    requires Steps(s, s', t, op, key) && PcOk(s, s.threads[t])
    ensures Framed(s, s', t)
  {
    if Looking(s.threads[t]) || s.threads[t].Listed? {
      FrameLooking(s, s', t, op, key);
    } else {
      FrameInEntry(s, s', t, op, key);
    }
  }

  lemma {:induction false} FrameLooking(s: State, s': State, t: nat, op: Op, key: string)
    requires Steps(s, s', t, op, key) && PcOk(s, s.threads[t]) && (Looking(s.threads[t]) || s.threads[t].Listed?)
    ensures Framed(s, s', t)
  {
    if s'.log != s.log {
      assert NewEvent(s, s', t, s'.log[|s.log|]);
    }
  }

  lemma {:induction false} FrameInEntry(s: State, s': State, t: nat, op: Op, key: string)
    requires Steps(s, s', t, op, key) && PcOk(s, s.threads[t]) && !Looking(s.threads[t]) && !s.threads[t].Listed?
    ensures Framed(s, s', t)
  {
    if s'.log != s.log {
      assert NewEvent(s, s', t, s'.log[|s.log|]);
    }
  }

  ghost predicate NewEvent(s: State, s': State, t: nat, e: Event)
    requires t < |s.threads|
  {
    var pc := s.threads[t];
    && (pc.FindAgain? || pc.Store? || ((pc.Find? || pc.Load?) && e.op.Get?))
    && s'.log == s.log + [e] && e.call == pc.call && e.op == pc.op && !e.op.GetAll?
    && e.result == Apply(if e.op.key in s.counters then Some(s.counters[e.op.key]) else None, e.op)
    && s'.counters == (if e.op.Get? then s.counters else s.counters[e.op.key := e.result])
  }

  // A step leaves the map's lock alone, or takes it, or releases it.
  ghost predicate MapEffect(s: State, s': State, t: nat)
    requires t < |s.threads| == |s'.threads|
  {
    var pc, pc' := s.threads[t], s'.threads[t];
    || (&& s'.mapReaders == s.mapReaders && s'.mapWriter == s.mapWriter
        && (ReadsMap(pc) <==> ReadsMap(pc')) && (WritesMap(pc) <==> WritesMap(pc')))
    || (&& s.mapWriter == None && s'.mapWriter == None && s'.mapReaders == s.mapReaders + {t}
        && ReadsMap(pc') && !WritesMap(pc'))
    || (&& s.mapWriter == None && s.mapReaders == {} && s'.mapWriter == Some(t) && s'.mapReaders == {}
        && WritesMap(pc') && !ReadsMap(pc'))
    || (&& ReadsMap(pc) && s'.mapReaders == s.mapReaders - {t} && s'.mapWriter == s.mapWriter
        && !ReadsMap(pc') && !WritesMap(pc'))
    || (&& WritesMap(pc) && s'.mapReaders == s.mapReaders && s'.mapWriter == None
        && !ReadsMap(pc') && !WritesMap(pc'))
  }

  lemma {:induction false} StepMapEffect(s: State, s': State, t: nat, op: Op, key: string)
    requires Steps(s, s', t, op, key) && OpOk(s.threads[t]) && Looking(s.threads[t])
    ensures |s'.threads| == |s.threads| && MapEffect(s, s', t)
    ensures forall u :: 0 <= u < |s.threads| && u != t ==> s'.threads[u] == s.threads[u]
  {
    var pc := s.threads[t];
    if pc.Idle? || pc.MapRead? || pc.Find? {
      MapEffectReading(s, s', t, op, key);
    }
  }

  lemma {:induction false} MapEffectReading(s: State, s': State, t: nat, op: Op, key: string)
    requires Steps(s, s', t, op, key) && OpOk(s.threads[t])
    requires s.threads[t].Idle? || s.threads[t].MapRead? || s.threads[t].Find?
    ensures |s'.threads| == |s.threads| && MapEffect(s, s', t)
    ensures forall u :: 0 <= u < |s.threads| && u != t ==> s'.threads[u] == s.threads[u]
  {
  }

  // In the entry the map's lock is kept, and in the end it is released.
  lemma {:induction false} StepMapKept(s: State, s': State, t: nat, op: Op, key: string)
    requires Steps(s, s', t, op, key) && OpOk(s.threads[t]) && (s.threads[t].Entry? || InEntry(s.threads[t]))
    ensures |s'.threads| == |s.threads| && MapEffect(s, s', t)
    ensures forall u :: 0 <= u < |s.threads| && u != t ==> s'.threads[u] == s.threads[u]
  {
  }

  lemma {:induction false} StepMapReleased(s: State, s': State, t: nat, op: Op, key: string)
    requires Steps(s, s', t, op, key) && (s.threads[t].Leave? || s.threads[t].Listed?)
    ensures |s'.threads| == |s.threads| && MapEffect(s, s', t)
    ensures forall u :: 0 <= u < |s.threads| && u != t ==> s'.threads[u] == s.threads[u]
  {
  }

  lemma {:induction false} MapEffectOk(s: State, s': State, t: nat)
    requires MapLockOk(s) && t < |s.threads| == |s'.threads| && MapEffect(s, s', t)
    requires forall u :: 0 <= u < |s.threads| && u != t ==> s'.threads[u] == s.threads[u]
    ensures MapLockOk(s')
  {
  }

  lemma {:induction false} StepMapLock(s: State, s': State, t: nat, op: Op, key: string)
    requires MapLockOk(s) && Steps(s, s', t, op, key) && OpOk(s.threads[t])
    ensures MapLockOk(s')
  {
    if Looking(s.threads[t]) {
      StepMapEffect(s, s', t, op, key);
    } else if s.threads[t].Leave? || s.threads[t].Listed? {
      StepMapReleased(s, s', t, op, key);
    } else {
      StepMapKept(s, s', t, op, key);
    }
    MapEffectOk(s, s', t);
  }

  // A step leaves the entries' locks alone, or takes one, or releases it.
  ghost predicate EntryEffect(s: State, s': State, t: nat)
    requires t < |s.threads| == |s'.threads|
  {
    var pc, pc' := s.threads[t], s'.threads[t];
    || (&& s'.entryReaders == s.entryReaders && s'.entryWriters == s.entryWriters
        && (InEntry(pc) <==> InEntry(pc')) && (InEntry(pc) ==> pc'.op == pc.op))
    || (&& pc.Entry? && pc.op.Get? && InEntry(pc') && pc'.op == pc.op && pc.op.key !in s.entryWriters
        && s'.entryReaders == s.entryReaders + {(pc.op.key, t)} && s'.entryWriters == s.entryWriters)
    || (&& pc.Entry? && Writes(pc.op) && InEntry(pc') && pc'.op == pc.op && pc.op.key !in s.entryWriters
        && (forall u :: (pc.op.key, u) !in s.entryReaders)
        && s'.entryReaders == s.entryReaders && s'.entryWriters == s.entryWriters[pc.op.key := t])
    || (&& pc.Unlock? && pc.op.Get? && !InEntry(pc')
        && s'.entryReaders == s.entryReaders - {(pc.op.key, t)} && s'.entryWriters == s.entryWriters)
    || (&& pc.Unlock? && Writes(pc.op) && !InEntry(pc')
        && s'.entryReaders == s.entryReaders && s'.entryWriters == s.entryWriters - {pc.op.key})
  }

  lemma {:induction false} StepEntryEffect(s: State, s': State, t: nat, op: Op, key: string)
    requires Steps(s, s', t, op, key) && OpOk(s.threads[t])
    ensures |s'.threads| == |s.threads| && EntryEffect(s, s', t)
    ensures forall u :: 0 <= u < |s.threads| && u != t ==> s'.threads[u] == s.threads[u]
  {
    if Looking(s.threads[t]) || s.threads[t].Listed? {
      StepNoEntry(s, s', t, op, key);
    } else {
      StepEntry(s, s', t, op, key);
    }
  }

  lemma {:induction false} StepNoEntry(s: State, s': State, t: nat, op: Op, key: string)
    requires Steps(s, s', t, op, key) && OpOk(s.threads[t]) && (Looking(s.threads[t]) || s.threads[t].Listed?)
    ensures |s'.threads| == |s.threads| && s'.entryReaders == s.entryReaders && s'.entryWriters == s.entryWriters
    ensures !InEntry(s.threads[t]) && !InEntry(s'.threads[t])
    ensures forall u :: 0 <= u < |s.threads| && u != t ==> s'.threads[u] == s.threads[u]
  {
  }

  lemma {:induction false} StepEntry(s: State, s': State, t: nat, op: Op, key: string)
    requires Steps(s, s', t, op, key) && OpOk(s.threads[t]) && !Looking(s.threads[t]) && !s.threads[t].Listed?
    ensures |s'.threads| == |s.threads| && EntryEffect(s, s', t)
    ensures forall u :: 0 <= u < |s.threads| && u != t ==> s'.threads[u] == s.threads[u]
  {
  }

  lemma {:induction false} StepEntryLock(s: State, s': State, t: nat, u: nat)
    requires EntryLocksOk(s) && t < |s.threads| == |s'.threads| && u < |s.threads| && EntryEffect(s, s', t)
    requires u != t ==> s'.threads[u] == s.threads[u]
    ensures EntryLockOk(s', u)
  {
    assert EntryLockOk(s, t) && EntryLockOk(s, u);
    var pc := s.threads[t];
    if pc.Unlock? && Writes(pc.op) {
      assert WritesEntry(pc, pc.op.key) && pc.op.key in s.entryWriters;
    }
    if u == t {
      OwnEntryLock(s, s', t);
    } else {
      forall k
        ensures ReadsEntry(s'.threads[u], k) <==> (k, u) in s'.entryReaders
        ensures WritesEntry(s'.threads[u], k) <==> k in s'.entryWriters && s'.entryWriters[k] == u
      {
        assert ReadsEntry(s.threads[u], k) <==> (k, u) in s.entryReaders;
        assert WritesEntry(s.threads[u], k) <==> k in s.entryWriters && s.entryWriters[k] == u;
      }
    }
  }

  lemma {:induction false} OwnEntryLock(s: State, s': State, t: nat)
    requires t < |s.threads| == |s'.threads| && EntryLockOk(s, t) && EntryEffect(s, s', t)
    ensures EntryLockOk(s', t)
  {
    forall k
      ensures ReadsEntry(s'.threads[t], k) <==> (k, t) in s'.entryReaders
      ensures WritesEntry(s'.threads[t], k) <==> k in s'.entryWriters && s'.entryWriters[k] == t
    {
      assert ReadsEntry(s.threads[t], k) <==> (k, t) in s.entryReaders;
      assert WritesEntry(s.threads[t], k) <==> k in s.entryWriters && s.entryWriters[k] == t;
    }
  }

  lemma {:induction false} StepEntryLocks(s: State, s': State, t: nat, op: Op, key: string)
    requires EntryLocksOk(s) && Steps(s, s', t, op, key) && OpOk(s.threads[t])
    ensures EntryLocksOk(s')
  {
    StepEntryEffect(s, s', t, op, key);
    assert EntryLockOk(s, t);
    forall u | 0 <= u < |s'.threads|
      ensures EntryLockOk(s', u)
    {
      StepEntryLock(s, s', t, u);
    }
  }

  // ---------------------------------------------------------------------------
  // The log
  // ---------------------------------------------------------------------------

  lemma {:induction false} ValueSnoc(log: seq<Event>, e: Event, key: string)
    ensures Value(log + [e], key) == if Changes(e.op, key) then Some(Apply(Value(log, key), e.op)) else Value(log, key)
  {
    assert (log + [e])[..|log|] == log;
  }

  lemma {:induction false} LegalSnoc(log: seq<Event>, e: Event)
    requires Legal(log) && !e.op.GetAll? && e.result == Apply(Value(log, e.op.key), e.op)
    ensures Legal(log + [e])
  {
    forall i | 0 <= i < |log| + 1
      ensures var l := log + [e]; !l[i].op.GetAll? && l[i].result == Apply(Value(l[..i], l[i].op.key), l[i].op)
    {
      assert (log + [e])[..i] == if i < |log| then log[..i] else log;
    }
  }

  lemma {:induction false} StepLog(s: State, s': State, t: nat, e: Event)
    requires LogOk(s) && t < |s.threads| && PcOk(s, s.threads[t]) && NewEvent(s, s', t, e) && s.calls <= s'.calls
    ensures LogOk(s')
  {
    LegalSnoc(s.log, e);
    forall k
      ensures Value(s'.log, k) == if k in s'.counters then Some(s'.counters[k]) else None
    {
      ValueSnoc(s.log, e, k);
    }
  }

  // What a log held, a longer one holds.
  lemma {:induction false} HeldStays(log: seq<Event>, log': seq<Event>, start: nat, end: nat, values: map<string, int>)
    requires Held(log, start, end, values) && log <= log'
    ensures Held(log', start, end, values)
    ensures Held(log', start, |log'|, values)
  {
    forall k | k in values
      ensures exists p :: start <= p <= end && Value(log'[..p], k) == Some(values[k])
    {
      var p: nat :| start <= p <= end && Value(log[..p], k) == Some(values[k]);
      assert log'[..p] == log[..p];
    }
  }

  // ---------------------------------------------------------------------------
  // Threads
  // ---------------------------------------------------------------------------

  // A thread in an entry has it to itself if it writes, and the keys stay what they are for every
  // thread that reads the map.
  lemma {:induction false} Undisturbed(s: State, s': State, t: nat, e: Event, u: nat)
    requires MapLockOk(s) && EntryLocksOk(s) && t < |s.threads| && u < |s.threads| && t != u
    requires NewEvent(s, s', t, e) && PcOk(s, s.threads[t]) && PcOk(s, s.threads[u])
    ensures ReadsMap(s.threads[u]) || WritesMap(s.threads[u]) ==> s'.counters.Keys == s.counters.Keys || !Writes(e.op)
    ensures s.threads[u].Store? && s.threads[u].op.key in s.counters ==>
              s.threads[u].op.key in s'.counters && s'.counters[s.threads[u].op.key] == s.counters[s.threads[u].op.key]
  {
    var pc, pu := s.threads[t], s.threads[u];
    assert EntryLockOk(s, t) && EntryLockOk(s, u);
    if pu.Store? && Writes(e.op) && e.op.key == pu.op.key {
      assert WritesEntry(pu, pu.op.key) && pu.op.key in s.entryWriters;
      assert pc.Store? ==> WritesEntry(pc, pu.op.key);
    }
  }

  lemma {:induction false} StepOther(s: State, s': State, t: nat, op: Op, key: string, u: nat)
    requires Inv(s) && Steps(s, s', t, op, key) && u < |s.threads| && u != t
    ensures u < |s'.threads| && PcOk(s', s'.threads[u])
  {
    StepFrame(s, s', t, op, key);
    var pu := s.threads[u];
    assert PcOk(s, s.threads[t]) && PcOk(s, pu);
    if s'.log != s.log {
      var e :| NewEvent(s, s', t, e);
      Undisturbed(s, s', t, e, u);
    }
    if pu.Listed? {
      HeldStays(s.log, s'.log, pu.start, |s.log|, pu.values);
    }
  }

  lemma {:induction false} StepLooking(s: State, s': State, t: nat, op: Op, key: string)
    requires Steps(s, s', t, op, key) && PcOk(s, s.threads[t]) && Looking(s.threads[t])
    requires forall i :: 0 <= i < |s.log| ==> s.log[i].call < s.calls
    ensures |s'.threads| == |s.threads| && PcOk(s', s'.threads[t])
  {
    var pc := s.threads[t];
    if pc.Idle? || pc.MapRead? || pc.Find? {
      StepReading(s, s', t, op, key);
    } else {
      StepWriting(s, s', t, op, key);
    }
  }

  lemma {:induction false} StepReading(s: State, s': State, t: nat, op: Op, key: string)
    requires Steps(s, s', t, op, key) && PcOk(s, s.threads[t])
             && (s.threads[t].Idle? || s.threads[t].MapRead? || s.threads[t].Find?)
    requires forall i :: 0 <= i < |s.log| ==> s.log[i].call < s.calls
    ensures |s'.threads| == |s.threads| && PcOk(s', s'.threads[t])
  {
  }

  lemma {:induction false} StepWriting(s: State, s': State, t: nat, op: Op, key: string)
    requires Steps(s, s', t, op, key) && PcOk(s, s.threads[t])
             && (s.threads[t].Retry? || s.threads[t].MapWrite? || s.threads[t].FindAgain?)
    ensures |s'.threads| == |s.threads| && PcOk(s', s'.threads[t])
  {
  }

  lemma {:induction false} StepInEntry(s: State, s': State, t: nat, op: Op, key: string)
    requires Steps(s, s', t, op, key) && PcOk(s, s.threads[t]) && !Looking(s.threads[t]) && !s.threads[t].Listed?
    ensures |s'.threads| == |s.threads| && PcOk(s', s'.threads[t])
  {
    var pc := s.threads[t];
    if pc.Entry? || pc.Load? {
      StepLoad(s, s', t, op, key);
    } else {
      StepStore(s, s', t, op, key);
    }
  }

  lemma {:induction false} StepLoad(s: State, s': State, t: nat, op: Op, key: string)
    requires Steps(s, s', t, op, key) && PcOk(s, s.threads[t]) && (s.threads[t].Entry? || s.threads[t].Load?)
    ensures |s'.threads| == |s.threads| && PcOk(s', s'.threads[t])
  {
  }

  lemma {:induction false} StepStore(s: State, s': State, t: nat, op: Op, key: string)
    requires Steps(s, s', t, op, key) && PcOk(s, s.threads[t])
             && (s.threads[t].Store? || s.threads[t].Unlock? || s.threads[t].Leave?)
    ensures |s'.threads| == |s.threads| && PcOk(s', s'.threads[t])
  {
  }

  lemma {:induction false} StepListed(s: State, s': State, t: nat, op: Op, key: string)
    requires Steps(s, s', t, op, key) && PcOk(s, s.threads[t]) && s.threads[t].Listed? && LogOk(s)
    ensures |s'.threads| == |s.threads| && PcOk(s', s'.threads[t])
  {
    var pc := s.threads[t];
    if pc.todo != {} && key in pc.todo && key in s.counters {
      var values := pc.values[key := s.counters[key]];
      forall k | k in values
        ensures exists p :: pc.start <= p <= |s.log| && Value(s.log[..p], k) == Some(values[k])
      {
        if k == key {
          assert s.log[..|s.log|] == s.log;
        }
      }
    }
  }

  lemma {:induction false} StepInv(s: State, s': State, t: nat, op: Op, key: string)
    requires Inv(s) && Steps(s, s', t, op, key)
    ensures Inv(s') && s.log <= s'.log && |s'.threads| == |s.threads|
  {
    StepFrame(s, s', t, op, key);
    StepMapLock(s, s', t, op, key);
    StepEntryLocks(s, s', t, op, key);
    if s'.log != s.log {
      var e :| NewEvent(s, s', t, e);
      StepLog(s, s', t, e);
    }
    forall u | 0 <= u < |s'.threads|
      ensures PcOk(s', s'.threads[u])
    {
      if u != t {
        StepOther(s, s', t, op, key, u);
      } else if Looking(s.threads[t]) {
        StepLooking(s, s', t, op, key);
      } else if s.threads[t].Listed? {
        StepListed(s, s', t, op, key);
      } else {
        StepInEntry(s, s', t, op, key);
      }
    }
    StepCalls(s, s', t, op, key);
    StepEnds(s, s', t, op, key);
  }

  lemma {:induction false} StepCalls(s: State, s': State, t: nat, op: Op, key: string)
    requires Steps(s, s', t, op, key) && CallsOk(s) && OpOk(s.threads[t])
    requires forall u :: 0 <= u < |s.threads| && !s.threads[u].Idle? ==> s.threads[u].call < s.calls
    ensures CallsOk(s')
  {
    OwnCall(s, s', t, op, key);
    forall u, w | 0 <= u < w < |s'.threads| && !s'.threads[u].Idle? && !s'.threads[w].Idle?
      ensures s'.threads[u].call != s'.threads[w].call
    {
      assert s'.threads[u] == s.threads[u] || u == t;
      assert s'.threads[w] == s.threads[w] || w == t;
    }
  }

  lemma {:induction false} OwnCall(s: State, s': State, t: nat, op: Op, key: string)
    requires Steps(s, s', t, op, key) && OpOk(s.threads[t])
    ensures |s'.threads| == |s.threads|
    ensures forall u :: 0 <= u < |s.threads| && u != t ==> s'.threads[u] == s.threads[u]
    ensures s'.threads[t].Idle? || s'.threads[t].call == if s.threads[t].Idle? then s.calls else s.threads[t].call
  {
    if Looking(s.threads[t]) {
      OwnCallLooking(s, s', t, op, key);
    } else {
      OwnCallInEntry(s, s', t, op, key);
    }
  }

  lemma {:induction false} OwnCallLooking(s: State, s': State, t: nat, op: Op, key: string)
    requires Steps(s, s', t, op, key) && OpOk(s.threads[t]) && Looking(s.threads[t])
    ensures |s'.threads| == |s.threads|
    ensures forall u :: 0 <= u < |s.threads| && u != t ==> s'.threads[u] == s.threads[u]
    ensures s'.threads[t].Idle? || s'.threads[t].call == if s.threads[t].Idle? then s.calls else s.threads[t].call
  {
  }

  lemma {:induction false} OwnCallInEntry(s: State, s': State, t: nat, op: Op, key: string)
    requires Steps(s, s', t, op, key) && OpOk(s.threads[t]) && !Looking(s.threads[t])
    ensures |s'.threads| == |s.threads|
    ensures forall u :: 0 <= u < |s.threads| && u != t ==> s'.threads[u] == s.threads[u]
    ensures s'.threads[t].Idle? || s'.threads[t].call == if s.threads[t].Idle? then s.calls else s.threads[t].call
  {
  }

  lemma {:induction false} StepEnds(s: State, s': State, t: nat, op: Op, key: string)
    requires Steps(s, s', t, op, key) && PcOk(s, s.threads[t]) && s.log <= s'.log
    requires forall i :: 0 <= i < |s.ended| ==> ReturnOk(s, s.ended[i])
    requires forall i :: 0 <= i < |s.listings| ==>
               Held(s.log, s.listings[i].start, s.listings[i].end, s.listings[i].values)
    ensures forall i :: 0 <= i < |s'.ended| ==> ReturnOk(s', s'.ended[i])
    ensures forall i :: 0 <= i < |s'.listings| ==>
              Held(s'.log, s'.listings[i].start, s'.listings[i].end, s'.listings[i].values)
  {
    forall i | 0 <= i < |s.listings|
      ensures Held(s'.log, s.listings[i].start, s.listings[i].end, s.listings[i].values)
    {
      HeldStays(s.log, s'.log, s.listings[i].start, s.listings[i].end, s.listings[i].values);
    }
  }

  lemma {:induction false} NextInv(s: State, s': State)
    requires Inv(s) && Next(s, s')
    ensures Inv(s')
  {
    var t, op, key :| Steps(s, s', t, op, key);
    StepInv(s, s', t, op, key);
  }

  lemma {:induction false} RunInv(run: seq<State>, i: nat)
    requires Run(run) && i < |run|
    ensures Inv(run[i])
  {
    if i == 0 {
      InitInv(run[0]);
    } else {
      RunInv(run, i - 1);
      assert Next(run[i - 1], run[i]);
      NextInv(run[i - 1], run[i]);
    }
  }

  // ---------------------------------------------------------------------------
  // What every run keeps
  // ---------------------------------------------------------------------------

  // No update is lost: every counter has the value that the events so far give it, one after the
  // other, and each event gives what it would give in a run of one call at a time.
  lemma {:induction false} NoLostUpdate(run: seq<State>, i: nat, key: string)
    requires Run(run) && i < |run|
    ensures Legal(run[i].log)
    ensures Value(run[i].log, key) == if key in run[i].counters then Some(run[i].counters[key]) else None
    ensures forall j, k :: 0 <= j < k < |run[i].log| ==> run[i].log[j].call != run[i].log[k].call
  {
    RunInv(run, i);
  }

  // ---------------------------------------------------------------------------
  // Sums
  // ---------------------------------------------------------------------------

  const TWO64: int := 0x1_0000_0000_0000_0000

  predicate Int64(x: int) { -0x8000_0000_0000_0000 <= x <= 0x7fff_ffff_ffff_ffff }

  predicate Congruent(x: int, y: int) { (x - y) % TWO64 == 0 }

  lemma {:induction false} CongruentPlus(x: int, y: int, d: int)
    requires Congruent(x, y)
    ensures Congruent(x + d, y + d)
  {
    assert (x + d) - (y + d) == x - y;
  }

  lemma {:induction false} CongruentTransitive(x: int, y: int, z: int)
    requires Congruent(x, y) && Congruent(y, z)
    ensures Congruent(x, z)
  {
    var p, q := (x - y) / TWO64, (y - z) / TWO64;
    assert x - z == (p + q) * TWO64;
  }

  lemma {:induction false} WrapIs(x: int)
    ensures Int64(Wrap(x)) && Congruent(Wrap(x), x) && (Int64(x) ==> Wrap(x) == x)
  {
    var q := (x + 0x8000_0000_0000_0000) / TWO64;
    assert Wrap(x) - x == -q * TWO64;
  }

  // The amounts by which a counter is incremented, added up.
  function Amounts(log: seq<Event>, key: string): int {
    if log == [] then 0
    else
      var last := log[|log| - 1].op;
      Amounts(log[..|log| - 1], key)
      + (match last case Increment(k, amount) => (if k == key then amount else 0) case _ => 0)
  }

  // How many events there are up to the last that sets it.
  function LastSet(log: seq<Event>, key: string): (n: nat)
    ensures n <= |log| && (0 < n ==> log[n - 1].op.SetTo? && log[n - 1].op.key == key)
    ensures forall i :: n <= i < |log| ==> !(log[i].op.SetTo? && log[i].op.key == key)
  {
    if log == [] then 0
    else if log[|log| - 1].op.SetTo? && log[|log| - 1].op.key == key then |log|
    else LastSet(log[..|log| - 1], key)
  }

  // Its last set value plus all later amounts, in plain arithmetic.
  function Plain(log: seq<Event>, key: string): int {
    var n := LastSet(log, key);
    (if n == 0 then 0 else log[n - 1].op.value) + Amounts(log[n..], key)
  }

  ghost predicate Touched(log: seq<Event>, key: string) {
    exists i :: 0 <= i < |log|
                && ((log[i].op.Increment? && log[i].op.key == key) || (log[i].op.SetTo? && log[i].op.key == key))
  }

  lemma {:induction false} PlainNext(log: seq<Event>, e: Event, key: string)
    ensures Plain(log + [e], key) == match e.op
            case SetTo(k, v) => if k == key then v else Plain(log, key)
            case Increment(k, amount) => Plain(log, key) + if k == key then amount else 0
            case _ => Plain(log, key)
    ensures Touched(log + [e], key) <==>
            Touched(log, key) || (e.op.Increment? && e.op.key == key) || (e.op.SetTo? && e.op.key == key)
  {
    var log' := log + [e];
    assert log'[..|log|] == log && log'[|log|] == e;
    TouchedNext(log, e, key);
    if e.op.SetTo? && e.op.key == key {
      assert log'[|log'|..] == [];
    } else {
      var n := LastSet(log, key);
      assert LastSet(log', key) == n;
      assert log'[n..][..|log| - n] == log[n..] && log'[n..][|log| - n] == e;
    }
  }

  lemma {:induction false} TouchedNext(log: seq<Event>, e: Event, key: string)
    ensures Touched(log + [e], key) <==>
            Touched(log, key) || (e.op.Increment? && e.op.key == key) || (e.op.SetTo? && e.op.key == key)
  {
    var log' := log + [e];
    assert log'[|log|] == e && forall i :: 0 <= i < |log| ==> log'[i] == log[i];
    if Touched(log, key) {
      var i :| 0 <= i < |log| && ((log[i].op.Increment? && log[i].op.key == key)
                                  || (log[i].op.SetTo? && log[i].op.key == key));
      assert log'[i] == log[i];
    }
  }

  // All the partial sums fit into 64 bits.
  ghost predicate NoOverflow(log: seq<Event>, key: string) {
    forall n {:trigger Plain(log[..n], key)} :: 0 <= n <= |log| ==> Int64(Plain(log[..n], key))
  }

  lemma {:induction false} ValueIsSum(log: seq<Event>, key: string)
    ensures Value(log, key).Some? <==> Touched(log, key)
    ensures var sum := Plain(log, key);
            if Value(log, key).None? then sum == 0
            else Congruent(Value(log, key).value, sum) && (NoOverflow(log, key) ==> Value(log, key).value == sum)
  {
    if log != [] {
      var before, e := log[..|log| - 1], log[|log| - 1];
      assert log == before + [e];
      ValueIsSum(before, key);
      PlainNext(before, e, key);
      if NoOverflow(log, key) {
        ShorterFits(log, key);
      }
      SumStep(before, e, key);
    }
  }

  lemma {:induction false} SumStep(before: seq<Event>, e: Event, key: string)
    requires Value(before, key).None? ==> Plain(before, key) == 0
    requires Value(before, key).Some? ==> Congruent(Value(before, key).value, Plain(before, key))
    ensures var v, sum := Value(before + [e], key), Plain(before + [e], key);
            if v.None? then sum == 0
            else
              && Congruent(v.value, sum)
              && (Int64(sum) && (Value(before, key).Some? ==> Value(before, key).value == Plain(before, key)) ==>
                    v.value == sum)
  {
    assert (before + [e])[..|before|] == before && (before + [e])[|before|] == e;
    PlainNext(before, e, key);
    if e.op.Increment? && e.op.key == key && Value(before, key).Some? {
      var x := Value(before, key).value + e.op.amount;
      WrapIs(x);
      CongruentPlus(Value(before, key).value, Plain(before, key), e.op.amount);
      CongruentTransitive(Wrap(x), x, Plain(before, key) + e.op.amount);
    }
  }

  lemma {:induction false} ShorterFits(log: seq<Event>, key: string)
    requires log != [] && NoOverflow(log, key)
    ensures NoOverflow(log[..|log| - 1], key) && Int64(Plain(log, key))
  {
    var before := log[..|log| - 1];
    assert log[..|log|] == log;
    forall n | 0 <= n <= |before|
      ensures Int64(Plain(before[..n], key))
    {
      assert before[..n] == log[..n];
    }
  }

  // In every interleaving a counter is there exactly if some call has set or incremented it. It is its
  // last set value plus all later amounts, modulo 2 to the 64, and exactly that if no sum on the way
  // overflows.
  lemma {:induction false} CounterIsSum(run: seq<State>, i: nat, key: string)
    requires Run(run) && i < |run|
    ensures var log, counters := run[i].log, run[i].counters;
            && (key in counters <==> Touched(log, key))
            && (key in counters ==>
                  && Congruent(counters[key], Plain(log, key))
                  && (NoOverflow(log, key) ==> counters[key] == Plain(log, key)))
  {
    RunInv(run, i);
    ValueIsSum(run[i].log, key);
  }

  // ---------------------------------------------------------------------------
  // What calls return
  // ---------------------------------------------------------------------------

  // A call returns what its own event gave, which came after the call began.
  lemma {:induction false} ReturnsOwnResult(run: seq<State>, i: nat, r: Return)
    requires Run(run) && i < |run| && r in run[i].ended
    ensures r.start <= r.at < |run[i].log| && run[i].log[r.at] == Event(r.call, r.op, r.result)
    ensures !r.op.GetAll? && r.result == Apply(Value(run[i].log[..r.at], r.op.key), r.op)
  {
    RunInv(run, i);
  }

  // Each value that getCounters returns was the counter's at some time during the call.
  lemma {:induction false} ListingHeld(run: seq<State>, i: nat, l: Listing, key: string)
    requires Run(run) && i < |run| && l in run[i].listings && key in l.values
    ensures exists p :: l.start <= p <= l.end <= |run[i].log| && Value(run[i].log[..p], key) == Some(l.values[key])
  {
    RunInv(run, i);
    var p: nat :| l.start <= p <= l.end && Value(run[i].log[..p], key) == Some(l.values[key]);
  }

  // It returns just the counters that there were when it ended, for none came or went in the meantime.
  lemma {:induction false} ListingKeys(run: seq<State>, i: nat, l: Listing, key: string)
    requires Run(run) && i < |run| && l in run[i].listings
    ensures l.end <= |run[i].log| && (key in l.values <==> Value(run[i].log[..l.end], key).Some?)
  {
    RunFull(run, i);
    var j :| 0 <= j < |run[i].listings| && run[i].listings[j] == l;
    assert Full(run[i].log, run[i].listings[j]);
  }

  ghost predicate Full(log: seq<Event>, l: Listing) {
    l.end <= |log| && forall k :: k in l.values <==> Value(log[..l.end], k).Some?
  }

  ghost predicate AllFull(s: State) {
    forall j :: 0 <= j < |s.listings| ==> Full(s.log, s.listings[j])
  }

  lemma {:induction false} RunFull(run: seq<State>, i: nat)
    requires Run(run) && i < |run|
    ensures AllFull(run[i])
  {
    if i > 0 {
      RunInv(run, i - 1);
      RunFull(run, i - 1);
      assert Next(run[i - 1], run[i]);
      NextFull(run[i - 1], run[i]);
    }
  }

  lemma {:induction false} NextFull(s: State, s': State)
    requires Inv(s) && Next(s, s') && AllFull(s)
    ensures AllFull(s')
  {
    var t, op, key :| Steps(s, s', t, op, key);
    StepFull(s, s', t, op, key);
  }

  lemma {:induction false} StepFull(s: State, s': State, t: nat, op: Op, key: string)
    requires Inv(s) && Steps(s, s', t, op, key)
    requires AllFull(s)
    ensures AllFull(s')
  {
    StepInv(s, s', t, op, key);
    forall j | 0 <= j < |s'.listings|
      ensures Full(s'.log, s'.listings[j])
    {
      if j < |s.listings| {
        OldListing(s, s', t, op, key, j);
      } else {
        NewListing(s, s', t, op, key, j);
      }
    }
  }

  lemma {:induction false} OldListing(s: State, s': State, t: nat, op: Op, key: string, j: nat)
    requires Steps(s, s', t, op, key) && s.log <= s'.log && j < |s.listings| && Full(s.log, s.listings[j])
    ensures j < |s'.listings| && Full(s'.log, s'.listings[j])
  {
    var l := s.listings[j];
    assert s'.listings[j] == l;
    SamePrefix(s.log, s'.log, l.end);
  }

  lemma {:induction false} SamePrefix(log: seq<Event>, log': seq<Event>, n: nat)
    requires n <= |log| && log <= log'
    ensures log'[..n] == log[..n]
  {
  }

  lemma {:induction false} NewListing(s: State, s': State, t: nat, op: Op, key: string, j: nat)
    requires LogOk(s) && Steps(s, s', t, op, key) && |s.listings| <= j < |s'.listings| && PcOk(s, s.threads[t])
    ensures Full(s'.log, s'.listings[j])
  {
    var pc := s.threads[t];
    assert pc.Listed? && s'.listings[j] == Listing(pc.values, pc.start, |s.log|) && s'.log == s.log;
    assert pc.values.Keys == s.counters.Keys && s.log[..|s.log|] == s.log;
  }

  // A thread that is in no call holds no lock.
  lemma {:induction false} LocksReleased(run: seq<State>, i: nat, t: nat)
    requires Run(run) && i < |run| && t < |run[i].threads| && run[i].threads[t].Idle?
    ensures t !in run[i].mapReaders && run[i].mapWriter != Some(t)
    ensures forall k :: (k, t) !in run[i].entryReaders && (k in run[i].entryWriters ==> run[i].entryWriters[k] != t)
  {
    RunInv(run, i);
    assert EntryLockOk(run[i], t);
  }

  // ---------------------------------------------------------------------------
  // Deadlock
  // ---------------------------------------------------------------------------

  predicate WaitsForEntry(pc: Pc, key: string) { pc.Entry? && Changes(pc.op, key) }

  // A thread can go on, even if locks prefer those that wait to write.
  ghost predicate CanGoOn(s: State, t: nat)
    requires t < |s.threads|
  {
    match s.threads[t]
    case Idle => false
    case MapRead(_, _, _) => s.mapWriter == None && forall u :: 0 <= u < |s.threads| ==> !s.threads[u].MapWrite?
    case MapWrite(_, _, _) => s.mapWriter == None && s.mapReaders == {}
    case Entry(_, op, _, _) =>
      if op.Get? then
        && op.key !in s.entryWriters
        && forall u :: 0 <= u < |s.threads| ==> !WaitsForEntry(s.threads[u], op.key)
      else !op.GetAll? && op.key !in s.entryWriters && forall u :: (op.key, u) !in s.entryReaders
    case _ => true
  }

  // Such a thread does go on.
  lemma {:induction false} GoesOn(s: State, t: nat, op: Op) returns (key: string)
    requires Inv(s) && t < |s.threads| && CanGoOn(s, t)
    ensures Do(s, t, op, key) != s
  {
    var pc := s.threads[t];
    assert PcOk(s, pc);
    key := "";
    if pc.Listed? && pc.todo != {} {
      key :| key in pc.todo;
    }
    assert Do(s, t, op, key).threads[t] != pc;
  }

  // As long as a call has not ended, some thread can go on.
  lemma {:induction false} NoDeadlock(run: seq<State>, i: nat, t: nat) returns (u: nat)
    requires Run(run) && i < |run| && t < |run[i].threads| && !run[i].threads[t].Idle?
    ensures u < |run[i].threads| && CanGoOn(run[i], u)
  {
    RunInv(run, i);
    u := Active(run[i], t);
  }

  lemma {:induction false} Active(s: State, t: nat) returns (u: nat)
    requires Inv(s) && t < |s.threads| && !s.threads[t].Idle?
    ensures u < |s.threads| && CanGoOn(s, u)
  {
    if v: nat :| v < |s.threads| && InEntry(s.threads[v]) {
      u := v;
    } else if v: nat :| v < |s.threads| && s.threads[v].Entry? {
      u := ActiveAtEntry(s, v);
    } else if v: nat :| v < |s.threads| && (ReadsMap(s.threads[v]) || WritesMap(s.threads[v])) {
      u := v;
    } else if v: nat :| v < |s.threads| && s.threads[v].MapWrite? {
      u := v;
      MapFree(s);
    } else {
      u := t;
      MapFree(s);
    }
  }

  // Nobody is in an entry: one of those that wait for it gets it.
  lemma {:induction false} ActiveAtEntry(s: State, v: nat) returns (u: nat)
    requires Inv(s) && v < |s.threads| && s.threads[v].Entry?
    requires forall w :: 0 <= w < |s.threads| ==> !InEntry(s.threads[w])
    ensures u < |s.threads| && CanGoOn(s, u)
  {
    var key := s.threads[v].op.key;
    assert PcOk(s, s.threads[v]);
    forall k
      ensures k !in s.entryWriters && forall w :: (k, w) !in s.entryReaders
    {
      assert k in s.entryWriters ==> EntryLockOk(s, s.entryWriters[k]);
      forall w ensures (k, w) !in s.entryReaders {
        assert (k, w) in s.entryReaders ==> 0 <= w && EntryLockOk(s, w);
      }
    }
    if w: nat :| w < |s.threads| && WaitsForEntry(s.threads[w], key) {
      u := w;
    } else {
      u := v;
    }
  }

  lemma {:induction false} MapFree(s: State)
    requires MapLockOk(s) && forall v :: 0 <= v < |s.threads| ==> !ReadsMap(s.threads[v]) && !WritesMap(s.threads[v])
    ensures s.mapWriter == None && s.mapReaders == {}
  {
    forall v: nat | v < |s.threads|
      ensures s.mapWriter != Some(v) && v !in s.mapReaders
    {
      assert !ReadsMap(s.threads[v]) && !WritesMap(s.threads[v]);
    }
  }
}
