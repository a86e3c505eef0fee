// StableVector of fb303 (thrift/contrib/fb303/TClientInfo.h): where an index is kept.
module StableIndex {
  // kInitialSizePowOf2, kInitialVectorSize and kMaxLevels
  const INITIAL_POWER: nat := 10
  const INITIAL_SIZE: nat := 1024

  // The indices for which 1 << (vno + 9) is an int.
  const INDEX_LIMIT: nat := 0x8000_0000

  function Pow2(k: nat): (p: nat)
    ensures 0 < p
  {
    if k == 0 then 1 else 2 * Pow2(k - 1)
  }

  // CHAR_BIT * sizeof(upper) - __builtin_clz(upper)
  function BitLength(u: nat): nat {
    if u == 0 then 0 else 1 + BitLength(u / 2)
  }

  lemma {:induction false} BitLengthBounds(u: nat)
    requires 0 < u
    ensures 0 < BitLength(u) && Pow2(BitLength(u) - 1) <= u < Pow2(BitLength(u))
  {
    if u / 2 != 0 {
      BitLengthBounds(u / 2);
    } else {
      assert BitLength(u) == 1;
    }
  }

  lemma {:induction false} Pow2Monotone(j: nat, k: nat)
    requires j <= k
    ensures Pow2(j) <= Pow2(k)
    decreases k
  {
    if j < k {
      Pow2Monotone(j, k - 1);
    }
  }

  lemma {:induction false} Pow2Plus10(k: nat)
    ensures Pow2(k + 10) == INITIAL_SIZE * Pow2(k)
  {
    if k == 0 {
      assert Pow2(10) == 1024;
    } else {
      Pow2Plus10(k - 1);
    }
  }

  // The size with which expand allocates a level, and the constructor level 0.
  function LevelSize(vno: nat): nat {
    if vno == 0 then INITIAL_SIZE else Pow2(vno - 1 + INITIAL_POWER)
  }

  // The first index of a level.
  function LevelStart(vno: nat): nat {
    if vno == 0 then 0 else Pow2(vno + 9)
  }

  function Vno(n: nat): nat {
    if n < INITIAL_SIZE then 0 else BitLength(n / INITIAL_SIZE)
  }

  function Idx(n: nat): int {
    n - LevelStart(Vno(n))
  }

  // Level v holds the indices from LevelStart(v) up to LevelStart(v + 1).
  lemma {:induction false} LevelOf(n: nat)
    ensures LevelStart(Vno(n)) <= n < LevelStart(Vno(n)) + LevelSize(Vno(n)) == LevelStart(Vno(n) + 1)
  {
    if n < INITIAL_SIZE {
      Pow2Plus10(0);
    } else {
      var upper := n / INITIAL_SIZE;
      BitLengthBounds(upper);
      Pow2Plus10(Vno(n) - 1);
      Pow2Plus10(Vno(n));
    }
  }

  // The first two levels have 1024 elements, and from then on each has twice as many as the one before.
  lemma {:induction false} LevelsDouble(vno: nat)
    ensures LevelSize(0) == LevelSize(1) == 1024
    ensures 0 < vno ==> LevelSize(vno + 1) == 2 * LevelSize(vno)
  {
    Pow2Plus10(0);
  }

  lemma {:induction false} StartsMonotone(v: nat, w: nat)
    requires v <= w
    ensures LevelStart(v) <= LevelStart(w)
  {
    if v > 0 {
      Pow2Monotone(v + 9, w + 9);
    }
  }

  // Every place of every level is that of exactly one index.
  lemma {:induction false} PlaceOfIndex(v: nat, i: nat)
    requires i < LevelSize(v)
    ensures Vno(LevelStart(v) + i) == v && Idx(LevelStart(v) + i) == i
  {
    var n := LevelStart(v) + i;
    LevelOf(n);
    var w := Vno(n);
    if v > 0 {
      assert LevelStart(v + 1) == LevelStart(v) + LevelSize(v);
    } else {
      Pow2Plus10(0);
    }
    if w < v {
      StartsMonotone(w + 1, v);
    } else if v < w {
      StartsMonotone(v + 1, w);
    }
  }

  lemma {:induction false} SamePlace(m: nat, n: nat)
    requires Vno(m) == Vno(n) && Idx(m) == Idx(n)
    ensures m == n
  {
  }

  // There are far fewer than kMaxLevels levels.
  lemma {:induction false} LevelsBounded(n: nat)
    requires n < INDEX_LIMIT
    ensures Vno(n) <= 21
  {
    LevelOf(n);
    assert Pow2(10) == 1024 && Pow2(20) == 1024 * 1024 && Pow2(21) == 2 * Pow2(20);
    Pow2Plus10(21);
    if 22 <= Vno(n) {
      StartsMonotone(22, Vno(n));
    }
  }
}

// One thread's view: growing never moves an element.
module StableVectors {
  import opened StableIndex

  class StableVector<T(0)> {
    var size: nat
    var vectLvl: nat
    var vects: seq<array<T>>
    // The indices that were accessed.
    ghost var touched: set<nat>

    ghost predicate Valid()
      reads this
    {
      && |vects| == vectLvl + 1
      && (forall k :: 0 <= k < |vects| ==> vects[k].Length == LevelSize(k))
      && (forall j, k :: 0 <= j < k < |vects| ==> vects[j] != vects[k])
      && (forall n :: n in touched ==> n < size)
      && (size > 0 ==> size - 1 in touched)
    }

    constructor ()
      ensures Valid() && size == 0 && touched == {} && fresh(vects[0])
    {
      size, vectLvl, touched := 0, 0, {};
      var storage := new T[INITIAL_SIZE];
      vects := [storage];
    }

    // The levels that were there stay where they are, with what they hold; the others are new.
    twostate predicate Grown()
      reads this
    {
      old(vects) <= vects && forall k :: |old(vects)| <= k < |vects| ==> fresh(vects[k])
    }

    method Expand(level: nat)
      requires Valid()
      modifies `vectLvl, `vects
      ensures Valid() && Grown()
      ensures vectLvl == if level > old(vectLvl) then level else old(vectLvl)
    {
      while level > vectLvl
        invariant Valid() && Grown() && vectLvl >= old(vectLvl)
        invariant vectLvl == old(vectLvl) || vectLvl <= level
      {
        var levelVect := new T[Pow2(vectLvl + INITIAL_POWER)];
        vects := vects + [levelVect];
        vectLvl := vectLvl + 1;
      }
    }

    method Which(n: nat) returns (vno: nat, idx: nat)
      requires Valid() && n < INDEX_LIMIT
      modifies this
      ensures Valid() && Grown() && touched == old(touched) + {n}
      ensures vno == Vno(n) && idx == Idx(n) && vno < |vects| && idx < vects[vno].Length
      ensures size == if n >= old(size) then n + 1 else old(size)
    {
      if n >= size {
        size := n + 1;
      }
      touched := touched + {n};
      LevelOf(n);
      if n < INITIAL_SIZE {
        idx, vno := n, 0;
      } else {
        var upper := n / INITIAL_SIZE;
        vno := BitLength(upper);
        BitLengthBounds(upper);
        idx := n - Pow2(vno + INITIAL_POWER - 1);
        if vno > vectLvl {
          Expand(vno);
        }
      }
    }

    // operator[]: a reference to the element, which is the same place at every call.
    method At(n: nat) returns (vect: array<T>, idx: nat)
      requires Valid() && n < INDEX_LIMIT
      modifies this
      ensures Valid() && Grown() && touched == old(touched) + {n}
      ensures Vno(n) < |vects| && vect == vects[Vno(n)] && idx == Idx(n) < vect.Length
      ensures Vno(n) < |old(vects)| ==> vect == old(vects)[Vno(n)]
    {
      var vno;
      vno, idx := Which(n);
      vect := vects[vno];
    }

    // Different indices are different places.
    lemma {:induction false} PlacesDiffer(m: nat, n: nat)
      requires Valid() && m != n && Vno(m) < |vects| && Vno(n) < |vects|
      ensures vects[Vno(m)] != vects[Vno(n)] || Idx(m) != Idx(n)
    {
      if Vno(m) == Vno(n) && Idx(m) == Idx(n) {
        SamePlace(m, n);
      }
    }

    // The size is one more than the largest index that was accessed.
    method Size() returns (s: nat)
      requires Valid()
      ensures s == 0 <==> touched == {}
      ensures s > 0 ==> s - 1 in touched && forall n :: n in touched ==> n <= s - 1
    {
      s := size;
    }
  }
}

// Any number of threads that call operator[], one step of one thread at a time.
module StableThreads {
  import opened Options
  import opened StableIndex

  // An allocated vector: vectors are numbered in the order in which they are allocated.
  datatype Vect = Vect(id: nat, length: nat)

  // Where a thread is: before it reads or writes size_, before it reads vectLvl_, waiting for the
  // mutex, in the loop of expand (at its test, and before and after it has pushed a level), before
  // it releases the mutex, and before it accesses the element.
  datatype Pc =
    | Idle
    | CheckSize(n: nat) | WriteSize(n: nat) | ReadLevel(n: nat) | Acquire(n: nat)
    | Test(n: nat) | Push(n: nat, vect: Vect) | Add(n: nat) | Release(n: nat)
    | Element(n: nat)

  // An element that was accessed: the index, and the place it was found at.
  datatype Access = Access(n: nat, id: nat, idx: int)

  datatype State = State(
    size: nat, vectLvl: nat, vects: seq<Vect>, mutex: Option<nat>, threads: seq<Pc>,
    made: nat, counted: set<nat>, writes: seq<nat>, accesses: seq<Access>, broken: bool)

  // In writes are the indices for which size_ was written, in turn. This is the constructor's state, with
  // idle threads.
  ghost predicate Init(s: State) {
    && s.size == 0 && s.vectLvl == 0 && s.vects == [Vect(0, INITIAL_SIZE)] && s.mutex == None
    && (forall t :: 0 <= t < |s.threads| ==> s.threads[t] == Idle)
    && s.made == 1 && s.counted == {} && s.writes == [] && s.accesses == [] && !s.broken
  }

  // What a thread does next; n is the index of a new call.
  function Do(s: State, t: nat, n: nat): State
    requires t < |s.threads|
  {
    match s.threads[t]
    case Idle => At(s, t, CheckSize(n))
    case CheckSize(n) => if n >= s.size then At(s, t, WriteSize(n)) else Counted(s, t, n)
    case WriteSize(n) => Counted(s.(size := n + 1, writes := s.writes + [n]), t, n)
    case ReadLevel(n) => At(s, t, if Vno(n) > s.vectLvl then Acquire(n) else Element(n))
    case Acquire(n) => if s.mutex == None then At(s.(mutex := Some(t)), t, Test(n)) else s
    case Test(n) =>
      if Vno(n) > s.vectLvl
      then At(s.(made := s.made + 1), t, Push(n, Vect(s.made, Pow2(s.vectLvl + INITIAL_POWER))))
      else At(s, t, Release(n))
    case Push(n, vect) => At(s.(vects := s.vects + [vect]), t, Add(n))
    case Add(n) => At(s.(vectLvl := s.vectLvl + 1), t, Test(n))
    case Release(n) => At(s.(mutex := None), t, Element(n))
    case Element(n) =>
      if Vno(n) < |s.vects| && 0 <= Idx(n) < s.vects[Vno(n)].length
      then At(s.(accesses := s.accesses + [Access(n, s.vects[Vno(n)].id, Idx(n))]), t, Idle)
      else s.(broken := true)
  }

  function At(s: State, t: nat, pc: Pc): State
    requires t < |s.threads|
  {
    s.(threads := s.threads[t := pc])
  }

  // size_ covers n, as far as this thread is concerned; an index of level 0 needs no growing.
  function Counted(s: State, t: nat, n: nat): State
    requires t < |s.threads|
  {
    At(s.(counted := s.counted + {n}), t, if n < INITIAL_SIZE then Element(n) else ReadLevel(n))
  }

  ghost predicate Next(s: State, s': State) {
    exists t, n :: Steps(s, s', t, n)
  }

  ghost predicate Steps(s: State, s': State, t: nat, n: nat) {
    t < |s.threads| && n < INDEX_LIMIT && s' == Do(s, t, n)
  }

  ghost predicate Run(run: seq<State>) {
    run != [] && Init(run[0]) && forall i {:trigger run[i]} :: 0 < i < |run| ==> Next(run[i - 1], run[i])
  }

  // ---------------------------------------------------------------------------
  // What every step keeps
  // ---------------------------------------------------------------------------

  predicate Holding(pc: Pc) { pc.Test? || pc.Push? || pc.Add? || pc.Release? }

  predicate Growing(pc: Pc) { pc.Push? || pc.Add? }

  ghost predicate PcOk(s: State, pc: Pc) {
    && (!pc.Idle? ==> pc.n < INDEX_LIMIT)
    && (Growing(pc) ==> Vno(pc.n) > s.vectLvl)
    && (pc.Release? || pc.Element? ==> Vno(pc.n) <= s.vectLvl)
    && (pc.Push? ==> pc.vect == Vect(|s.vects|, LevelSize(|s.vects|)))
  }

  ghost predicate MutexOk(s: State) {
    && (s.mutex.Some? ==> s.mutex.value < |s.threads|)
    && forall t :: 0 <= t < |s.threads| ==> (Holding(s.threads[t]) <==> s.mutex == Some(t))
  }

  // The thread that grows the vector, if there is one.
  function Grower(s: State): Pc {
    if s.mutex.Some? && s.mutex.value < |s.threads| then s.threads[s.mutex.value] else Idle
  }

  ghost predicate LevelsOk(s: State) {
    && |s.vects| == s.vectLvl + (if Grower(s).Add? then 2 else 1)
    && s.made == |s.vects| + (if Grower(s).Push? then 1 else 0)
    && s.vectLvl <= 21
    && forall k :: 0 <= k < |s.vects| ==> s.vects[k] == Vect(k, LevelSize(k))
  }

  ghost predicate AccessOk(s: State, a: Access) {
    Vno(a.n) < |s.vects| && a.id == Vno(a.n) && a.idx == Idx(a.n) && 0 <= a.idx < LevelSize(a.id)
  }

  ghost predicate Inv(s: State) {
    && !s.broken && MutexOk(s) && LevelsOk(s)
    && (forall t :: 0 <= t < |s.threads| ==> PcOk(s, s.threads[t]))
    && (forall i :: 0 <= i < |s.accesses| ==> AccessOk(s, s.accesses[i]))
    && (0 < s.size ==> s.size - 1 in s.counted)
  }

  lemma {:induction false} InitInv(s: State)
    requires Init(s)
    ensures Inv(s)
  {
    assert forall t :: 0 <= t < |s.threads| ==> s.threads[t] == Idle;
  }

  // A step leaves the mutex alone, or takes it, or releases it.
  ghost predicate MutexEffect(s: State, s': State, t: nat)
    requires t < |s.threads| == |s'.threads|
  {
    && (forall u :: 0 <= u < |s.threads| && u != t ==> s'.threads[u] == s.threads[u])
    && (|| (s'.mutex == s.mutex && (Holding(s.threads[t]) <==> Holding(s'.threads[t])))
        || (s.mutex == None && s'.mutex == Some(t) && Holding(s'.threads[t]))
        || (Holding(s.threads[t]) && s'.mutex == None && !Holding(s'.threads[t])))
  }

  lemma {:induction false} StepOutside(s: State, s': State, t: nat, n: nat)
    requires Steps(s, s', t, n) && !Holding(s.threads[t])
    ensures |s'.threads| == |s.threads| && MutexEffect(s, s', t)
  {
    var pc := s.threads[t];
    if pc.Idle? || pc.CheckSize? || pc.WriteSize? {
      StepCounting(s, s', t, n);
    }
  }

  lemma {:induction false} StepCounting(s: State, s': State, t: nat, n: nat)
    requires Steps(s, s', t, n) && (s.threads[t].Idle? || s.threads[t].CheckSize? || s.threads[t].WriteSize?)
    ensures |s'.threads| == |s.threads| && MutexEffect(s, s', t)
  {
  }

  lemma {:induction false} StepInside(s: State, s': State, t: nat, n: nat)
    requires Steps(s, s', t, n) && Holding(s.threads[t])
    ensures |s'.threads| == |s.threads| && MutexEffect(s, s', t)
  {
  }

  lemma {:induction false} StepMutex(s: State, s': State, t: nat, n: nat)
    requires MutexOk(s) && Steps(s, s', t, n)
    ensures MutexOk(s') && |s'.threads| == |s.threads|
    ensures forall u :: 0 <= u < |s.threads| && u != t ==> s'.threads[u] == s.threads[u]
  {
    if Holding(s.threads[t]) {
      StepInside(s, s', t, n);
    } else {
      StepOutside(s, s', t, n);
    }
  }

  lemma {:induction false} StepLevels(s: State, s': State, t: nat, n: nat)
    requires Inv(s) && Steps(s, s', t, n)
    ensures LevelsOk(s') && s.vects <= s'.vects && s.vectLvl <= s'.vectLvl
    ensures |s'.vects| != |s.vects| || s'.vectLvl != s.vectLvl ==> Growing(s.threads[t])
  {
    StepMutex(s, s', t, n);
    var pc := s.threads[t];
    assert PcOk(s, pc);
    if Growing(pc) {
      LevelsBounded(pc.n);
    }
  }

  lemma {:induction false} StepPc(s: State, s': State, t: nat, n: nat, u: nat)
    requires Inv(s) && Steps(s, s', t, n) && u < |s.threads|
    requires s.vectLvl <= s'.vectLvl && |s'.threads| == |s.threads|
    ensures PcOk(s', s'.threads[u])
  {
    StepMutex(s, s', t, n);
    StepLevels(s, s', t, n);
    assert PcOk(s, s.threads[u]) && PcOk(s, s.threads[t]);
    if u != t {
      assert Growing(s.threads[u]) ==> s.mutex == Some(u);
      assert Growing(s.threads[t]) ==> s.mutex == Some(t);
    }
  }

  lemma {:induction false} StepAccesses(s: State, s': State, t: nat, n: nat)
    requires Inv(s) && Steps(s, s', t, n) && s.vects <= s'.vects
    ensures !s'.broken && forall i :: 0 <= i < |s'.accesses| ==> AccessOk(s', s'.accesses[i])
  {
    var pc := s.threads[t];
    assert PcOk(s, pc);
    if pc.Element? {
      LevelOf(pc.n);
    }
    assert forall i :: 0 <= i < |s.accesses| ==> s'.accesses[i] == s.accesses[i] && AccessOk(s, s.accesses[i]);
  }

  lemma {:induction false} StepInv(s: State, s': State, t: nat, n: nat)
    requires Inv(s) && Steps(s, s', t, n)
    ensures Inv(s') && s.vects <= s'.vects && s.vectLvl <= s'.vectLvl && |s'.threads| == |s.threads|
  {
    StepMutex(s, s', t, n);
    StepLevels(s, s', t, n);
    StepAccesses(s, s', t, n);
    forall u | 0 <= u < |s'.threads|
      ensures PcOk(s', s'.threads[u])
    {
      StepPc(s, s', t, n, u);
    }
  }

  lemma {:induction false} RunInv(run: seq<State>, i: nat)
    requires Run(run) && i < |run|
    ensures Inv(run[i])
  {
    if i == 0 {
      InitInv(run[0]);
    } else {
      RunInv(run, i - 1);
      var t, n :| Steps(run[i - 1], run[i], t, n);
      StepInv(run[i - 1], run[i], t, n);
    }
  }

  // The levels that a state has stay what they are.
  lemma {:induction false} LevelsStay(run: seq<State>, i: nat, j: nat)
    requires Run(run) && i <= j < |run|
    ensures run[i].vects <= run[j].vects && run[i].vectLvl <= run[j].vectLvl
    decreases j - i
  {
    if i < j {
      LevelsStay(run, i, j - 1);
      RunInv(run, j - 1);
      var t, n :| Steps(run[j - 1], run[j], t, n);
      StepInv(run[j - 1], run[j], t, n);
    }
  }

  // In every run: no level is accessed before it is there, each is allocated once, vectLvl_ + 1
  // never exceeds their number, and that never exceeds what was reserved.
  lemma {:induction false} Safe(run: seq<State>, i: nat)
    requires Run(run) && i < |run|
    ensures !run[i].broken
    ensures run[i].vectLvl + 1 <= |run[i].vects| <= run[i].vectLvl + 2 && |run[i].vects| <= 64
    ensures |run[i].vects| <= run[i].made <= |run[i].vects| + 1
    ensures forall j, k :: 0 <= j < k < |run[i].vects| ==> run[i].vects[j].id != run[i].vects[k].id
    ensures run[i].mutex == None ==> |run[i].vects| == run[i].made == run[i].vectLvl + 1
  {
    RunInv(run, i);
  }

  // An index is the same place for ever, and no other index is.
  lemma {:induction false} SameElement(run: seq<State>, i: nat, j: nat, a: Access, b: Access)
    requires Run(run) && i < |run| && j < |run| && a in run[i].accesses && b in run[j].accesses
    ensures a.n == b.n <==> a.id == b.id && a.idx == b.idx
  {
    RunInv(run, i);
    RunInv(run, j);
    if a.id == b.id && a.idx == b.idx {
      SamePlace(a.n, b.n);
    }
  }

  // ---------------------------------------------------------------------------
  // size_ is updated without the mutex
  // ---------------------------------------------------------------------------

  // size_ is one more than the largest index that was counted.
  ghost predicate SizeExact(s: State) {
    (0 < s.size ==> s.size - 1 in s.counted) && forall n :: n in s.counted ==> n < s.size
  }

  // That is lost exactly by a thread that writes less than is there, having read it before.
  lemma {:induction false} SizeLost(s: State, s': State, t: nat, n: nat)
    requires Inv(s) && SizeExact(s) && Steps(s, s', t, n)
    ensures SizeExact(s') <==> !(s.threads[t].WriteSize? && s.threads[t].n + 1 < s.size)
  {
    if s.threads[t].WriteSize? && s.threads[t].n + 1 < s.size {
      assert s.size - 1 in s'.counted;
    }
  }

  // A call whose test and update of size_ nothing comes between loses nothing.
  lemma {:induction false} SizeKept(s: State, s': State, s'': State, t: nat, n: nat)
    requires Inv(s) && SizeExact(s) && Steps(s, s', t, n) && Steps(s', s'', t, n)
    requires s.threads[t].CheckSize?
    ensures SizeExact(s') && SizeExact(s'')
  {
    StepInv(s, s', t, n);
    SizeLost(s, s', t, n);
    SizeLost(s', s'', t, n);
  }

  // The largest of some indices, -1 if there are none.
  function Largest(writes: seq<nat>): int {
    if writes == [] then -1
    else
      var n, before := writes[|writes| - 1], Largest(writes[..|writes| - 1]);
      if n < before then before else n
  }

  lemma {:induction false} LargestIs(writes: seq<nat>)
    ensures forall w :: w in writes ==> w <= Largest(writes)
    ensures writes != [] ==> Largest(writes) in writes
  {
    if writes != [] {
      LargestIs(writes[..|writes| - 1]);
      assert writes == writes[..|writes| - 1] + [writes[|writes| - 1]];
    }
  }

  lemma {:induction false} LargestSnoc(writes: seq<nat>, n: nat)
    ensures Largest(writes + [n]) == if n < Largest(writes) then Largest(writes) else n
  {
    assert (writes + [n])[..|writes|] == writes;
  }

  // size_ is what was written last, and the indices that were counted go up to the largest written one.
  ghost predicate SizesWritten(size: nat, counted: set<nat>, writes: seq<nat>) {
    && size == (if writes == [] then 0 else writes[|writes| - 1] + 1)
    && (forall n :: n in counted ==> n <= Largest(writes))
    && (writes != [] ==> Largest(writes) in counted && size - 1 in counted)
  }

  lemma {:induction false} StepSizes(s: State, s': State, t: nat, n: nat)
    requires SizesWritten(s.size, s.counted, s.writes) && Steps(s, s', t, n)
    ensures SizesWritten(s'.size, s'.counted, s'.writes)
  {
    var pc := s.threads[t];
    if pc.WriteSize? {
      WriteCounted(s.size, s.counted, s.writes, pc.n);
    } else if pc.CheckSize? && pc.n < s.size {
      assert s'.size == s.size && s'.writes == s.writes && s'.counted == s.counted + {pc.n};
      MoreCounted(s.size, s.counted, s.writes, pc.n);
    } else {
      NoneCounted(s, s', t, n);
    }
  }

  lemma {:induction false} NoneCounted(s: State, s': State, t: nat, n: nat)
    requires Steps(s, s', t, n) && !s.threads[t].WriteSize?
    requires s.threads[t].CheckSize? ==> s.size <= s.threads[t].n
    ensures s'.size == s.size && s'.counted == s.counted && s'.writes == s.writes
  {
  }

  lemma {:induction false} MoreCounted(size: nat, counted: set<nat>, writes: seq<nat>, n: nat)
    requires SizesWritten(size, counted, writes) && n < size
    ensures SizesWritten(size, counted + {n}, writes)
  {
    assert size - 1 <= Largest(writes);
  }

  lemma {:induction false} WriteCounted(size: nat, counted: set<nat>, writes: seq<nat>, n: nat)
    requires SizesWritten(size, counted, writes)
    ensures SizesWritten(n + 1, counted + {n}, writes + [n])
  {
    LargestSnoc(writes, n);
  }

  lemma {:induction false} RunSizes(run: seq<State>, i: nat)
    requires Run(run) && i < |run|
    ensures SizesWritten(run[i].size, run[i].counted, run[i].writes)
  {
    if i > 0 {
      RunSizes(run, i - 1);
      assert Next(run[i - 1], run[i]);
      var t, n :| Steps(run[i - 1], run[i], t, n);
      StepSizes(run[i - 1], run[i], t, n);
    }
  }

  // In any run the size is exact exactly if the largest index that was written was written last.
  lemma {:induction false} SizeOfRun(run: seq<State>, i: nat)
    requires Run(run) && i < |run|
    ensures SizeExact(run[i]) <==>
            var writes := run[i].writes; writes != [] ==> writes[|writes| - 1] == Largest(writes)
  {
    RunSizes(run, i);
  }

  // Two threads that meet there can leave the size too small: index 9 was accessed, and it is 6.
  lemma {:induction false} SizeTooSmall() returns (run: seq<State>)
    ensures Run(run)
    ensures var s := run[|run| - 1]; s.threads == [Idle, Idle] && 9 in s.counted && s.size == 6
  {
    var s0 := State(0, 0, [Vect(0, INITIAL_SIZE)], None, [Idle, Idle], 1, {}, [], [], false);
    var s1 := Do(s0, 0, 5);
    var s2 := Do(s1, 0, 5);
    var s3 := Do(s2, 1, 9);
    var s4 := Do(s3, 1, 9);
    var s5 := Do(s4, 1, 9);
    var s6 := Do(s5, 0, 5);
    var s7 := Do(s6, 0, 5);
    var s8 := Do(s7, 1, 9);
    run := [s0, s1, s2, s3, s4, s5, s6, s7, s8];
    assert Steps(s0, s1, 0, 5) && Steps(s1, s2, 0, 5) && Steps(s2, s3, 1, 9) && Steps(s3, s4, 1, 9);
    assert Steps(s4, s5, 1, 9) && Steps(s5, s6, 0, 5) && Steps(s6, s7, 0, 5) && Steps(s7, s8, 1, 9);
    assert s8.threads == [Idle, Idle];
  }
}
