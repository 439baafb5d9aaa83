/** The reference-counted named lock of common/namedlock.go as a transition system: any number of
    goroutines, each running LockAcquire and LockRelease one atomic step at a time, in every
    interleaving. A goroutine may hold several names at once. */
module NamedLocks {
  import opened Basics

  type Name(==, !new)
  type Lock = nat     // a refCountedLock object, by its address

  /** Where a goroutine stands. The names say what it is about to do. */
  datatype Pc =
    | Outside                             // in neither call
    | AcqEnter(n: Name)                   // lock the outer mutex
    | AcqFind(n: Name)                    // look the name up, creating its lock if absent
    | AcqAddRef(n: Name)                  // look it up again and raise its count
    | AcqLeave(n: Name, o: Lock)          // unlock the outer mutex; o is the lock whose count was raised
    | AcqAgain(n: Name, o: Lock)          // look the name up once more, without the outer mutex
    | AcqLock(n: Name, o: Lock)           // lock o, which the last lookup returned
    | RelEnter(n: Name)                   // lock the outer mutex
    | RelFind(n: Name)                    // look the name up
    | RelUnlock(n: Name, o: Lock)         // unlock o
    | RelDropRef(n: Name, o: Lock)        // lower its count
    | RelDelete(n: Name, o: Lock)         // forget the name if the count is zero
    | RelLeave(n: Name)                   // unlock the outer mutex

  datatype Goroutine = Goroutine(pc: Pc, held: set<Name>)
  datatype RefLock = RefLock(refCount: int, locked: bool)

  datatype State = State(
    outer: Option<nat>,
    lockMap: map<Name, Lock>,
    locks: map<Lock, RefLock>,
    nextLock: Lock,
    gs: map<nat, Goroutine>)

  predicate Init(s: State) {
    s.outer == None && s.lockMap == map[] && s.locks == map[] &&
    forall t :: t in s.gs ==> s.gs[t] == Goroutine(Outside, {})
  }

  function At(s: State, t: nat, pc: Pc): State
    requires t in s.gs
  {
    s.(gs := s.gs[t := s.gs[t].(pc := pc)])
  }

  function WithLock(s: State, o: Lock, l: RefLock): State { s.(locks := s.locks[o := l]) }

  /** Whether the goroutine can take its next step: only the two kinds of mutex block. */
  predicate Enabled(s: State, t: nat) {
    t in s.gs &&
    match s.gs[t].pc
    case Outside => false
    case AcqEnter(_) => s.outer == None
    case RelEnter(_) => s.outer == None
    case AcqLock(_, o) => o in s.locks && !s.locks[o].locked
    case _ => true
  }

  /** A missing map entry, a lock object that does not exist or the unlocking of an unlocked mutex
      is a crash of the program. */
  predicate Crashes(s: State, t: nat) {
    t in s.gs &&
    match s.gs[t].pc
    case AcqAddRef(n) => n !in s.lockMap || s.lockMap[n] !in s.locks
    case AcqAgain(n, _) => n !in s.lockMap
    case RelUnlock(_, o) => o !in s.locks || !s.locks[o].locked
    case RelDropRef(_, o) => o !in s.locks
    case RelDelete(_, o) => o !in s.locks
    case _ => false
  }

  /** The next step of goroutine t inside a call. */
  function Advance(s: State, t: nat): State
    requires Enabled(s, t) && !Crashes(s, t)
  {
    match s.gs[t].pc
    case AcqEnter(n) => At(s, t, AcqFind(n)).(outer := Some(t))
    case AcqFind(n) =>
      if n in s.lockMap then At(s, t, AcqAddRef(n))
      else WithLock(At(s, t, AcqAddRef(n)), s.nextLock, RefLock(0, false))
             .(lockMap := s.lockMap[n := s.nextLock], nextLock := s.nextLock + 1)
    case AcqAddRef(n) =>
      var o := s.lockMap[n];
      WithLock(At(s, t, AcqLeave(n, o)), o, s.locks[o].(refCount := s.locks[o].refCount + 1))
    case AcqLeave(n, o) => At(s, t, AcqAgain(n, o)).(outer := None)
    case AcqAgain(n, _) => At(s, t, AcqLock(n, s.lockMap[n]))
    case AcqLock(n, o) =>
      WithLock(s, o, s.locks[o].(locked := true))
        .(gs := s.gs[t := Goroutine(Outside, s.gs[t].held + {n})])
    case RelEnter(n) => At(s, t, RelFind(n)).(outer := Some(t))
    case RelFind(n) =>
      if n in s.lockMap then At(s, t, RelUnlock(n, s.lockMap[n])) else At(s, t, RelLeave(n))
    case RelUnlock(n, o) =>
      WithLock(s, o, s.locks[o].(locked := false))
        .(gs := s.gs[t := Goroutine(RelDropRef(n, o), s.gs[t].held - {n})])
    case RelDropRef(n, o) =>
      WithLock(At(s, t, RelDelete(n, o)), o, s.locks[o].(refCount := s.locks[o].refCount - 1))
    case RelDelete(n, o) =>
      if s.locks[o].refCount == 0 then At(s, t, RelLeave(n)).(lockMap := s.lockMap - {n})
      else At(s, t, RelLeave(n))
    case RelLeave(_) => At(s, t, Outside).(outer := None)
  }

  /** Steps of the callers: a goroutine may ask for any name, and releases only names it holds. */
  ghost predicate Calls(s: State, t: nat, s': State) {
    t in s.gs && s.gs[t].pc == Outside &&
    exists n: Name :: s' == At(s, t, AcqEnter(n)) || (n in s.gs[t].held && s' == At(s, t, RelEnter(n)))
  }

  ghost predicate Next(s: State, s': State) {
    exists t :: Calls(s, t, s') || (Enabled(s, t) && !Crashes(s, t) && s' == Advance(s, t))
  }

  // ---------- counting ----------

  function Holders(s: State, n: Name): set<nat> {
    set t | t in s.gs && n in s.gs[t].held
  }

  /** Between raising the count and getting the lock, or between unlocking and lowering it. */
  predicate Waits(pc: Pc, n: Name) {
    (pc.AcqLeave? || pc.AcqAgain? || pc.AcqLock? || pc.RelDropRef?) && pc.n == n
  }

  function Waiters(s: State, n: Name): set<nat> {
    set t | t in s.gs && Waits(s.gs[t].pc, n)
  }

  function Count(s: State, n: Name): nat { |Holders(s, n)| + |Waiters(s, n)| }

  function One(b: bool): int { if b then 1 else 0 }

  lemma SizeAfter(a: set<nat>, b: set<nat>, t: nat)
    requires b == a + {t} || b == a - {t}
    ensures |b| == |a| - One(t in a) + One(t in b)
  {}

  lemma CountAfter(s: State, s': State, t: nat, g: Goroutine, n: Name)
    requires t in s.gs && s'.gs == s.gs[t := g]
    ensures |Holders(s', n)| == |Holders(s, n)| - One(n in s.gs[t].held) + One(n in g.held)
    ensures |Waiters(s', n)| == |Waiters(s, n)| - One(Waits(s.gs[t].pc, n)) + One(Waits(g.pc, n))
  {
    hide Waits;
    assert Holders(s', n) == if n in g.held then Holders(s, n) + {t} else Holders(s, n) - {t};
    assert Waiters(s', n) == if Waits(g.pc, n) then Waiters(s, n) + {t} else Waiters(s, n) - {t};
    SizeAfter(Holders(s, n), Holders(s', n), t);
    SizeAfter(Waiters(s, n), Waiters(s', n), t);
  }

  lemma CountPositive(s: State, n: Name, t: nat)
    requires t in Holders(s, n) || t in Waiters(s, n)
    ensures Count(s, n) > 0
  {
    if Holders(s, n) == {} { assert Waiters(s, n) != {}; }
  }

  lemma NobodyCounted(s: State, n: Name)
    requires Count(s, n) == 0
    ensures forall t :: t in s.gs ==> n !in s.gs[t].held && !Waits(s.gs[t].pc, n)
  {
    forall t | t in s.gs ensures n !in s.gs[t].held && !Waits(s.gs[t].pc, n) {
      if n in s.gs[t].held || Waits(s.gs[t].pc, n) { CountPositive(s, n, t); }
    }
  }

  // ---------- the invariant ----------

  predicate InOuter(pc: Pc) {
    pc.AcqFind? || pc.AcqAddRef? || pc.AcqLeave? || pc.RelFind? || pc.RelUnlock? || pc.RelDropRef? ||
    pc.RelDelete? || pc.RelLeave?
  }

  /** The outer mutex is held by the one goroutine whose position says so. */
  ghost predicate OuterInv(s: State) {
    && (forall t :: t in s.gs ==> (InOuter(s.gs[t].pc) <==> s.outer == Some(t)))
    && (s.outer.Some? ==> s.outer.value in s.gs)
  }

  /** Names in the map have lock objects of their own. */
  ghost predicate MapInv(s: State) {
    && (forall o :: o in s.locks ==> o < s.nextLock)
    && (forall n :: n in s.lockMap ==> s.lockMap[n] in s.locks)
    && (forall m, n :: m in s.lockMap && n in s.lockMap && s.lockMap[m] == s.lockMap[n] ==> m == n)
  }

  /** A reference count is the number of holders and waiters; a name with any is in the map. */
  ghost predicate CountInv(s: State) {
    forall n :: if n in s.lockMap && s.lockMap[n] in s.locks
                then s.locks[s.lockMap[n]].refCount == Count(s, n) else Count(s, n) == 0
  }

  predicate Busy(pc: Pc, n: Name) {
    (pc.AcqAddRef? || pc.RelDelete?) && pc.n == n
  }

  /** A name in the map has a positive count, unless someone is just adding or removing it. */
  ghost predicate LiveInv(s: State) {
    forall n :: n in s.lockMap ==>
      Count(s, n) > 0 || (s.outer.Some? && s.outer.value in s.gs && Busy(s.gs[s.outer.value].pc, n))
  }

  predicate Fits(s: State, g: Goroutine) {
    match g.pc
    case AcqAddRef(n) => n in s.lockMap
    case AcqLeave(n, o) => n in s.lockMap && s.lockMap[n] == o
    case AcqAgain(n, o) => n in s.lockMap && s.lockMap[n] == o
    case AcqLock(n, o) => n in s.lockMap && s.lockMap[n] == o
    case RelEnter(n) => n in g.held
    case RelFind(n) => n in g.held
    case RelUnlock(n, o) => n in g.held && n in s.lockMap && s.lockMap[n] == o
    case RelDropRef(n, o) => n !in g.held && n in s.lockMap && s.lockMap[n] == o
    case RelDelete(n, o) => n !in g.held && n in s.lockMap && s.lockMap[n] == o
    case RelLeave(n) => n !in g.held
    case _ => true
  }

  ghost predicate PcInv(s: State) {
    forall t :: t in s.gs ==> Fits(s, s.gs[t])
  }

  /** A mutex is locked exactly while some goroutine holds its name, and then one goroutine does. */
  ghost predicate HeldInv(s: State) {
    && (forall n :: n in s.lockMap && s.lockMap[n] in s.locks ==>
          (s.locks[s.lockMap[n]].locked <==> exists t :: t in s.gs && n in s.gs[t].held))
    && (forall t, u, n :: t in s.gs && u in s.gs && n in s.gs[t].held && n in s.gs[u].held ==> t == u)
  }

  ghost predicate Inv(s: State) {
    OuterInv(s) && MapInv(s) && CountInv(s) && LiveInv(s) && PcInv(s) && HeldInv(s)
  }

  lemma InitInv(s: State)
    requires Init(s)
    ensures Inv(s)
  {
    forall n ensures Count(s, n) == 0 {
      assert Holders(s, n) == {} && Waiters(s, n) == {};
    }
  }

  // ---------- every step keeps it ----------

  /** Moving goroutine t to a position that counts alike, with nothing else changed but the mutex. */
  lemma MoveKeeps(s: State, t: nat, pc: Pc, outer: Option<nat>)
    requires Inv(s) && t in s.gs
    requires forall n :: Waits(s.gs[t].pc, n) <==> Waits(pc, n)
    requires forall n :: Busy(s.gs[t].pc, n) && n in s.lockMap ==> Busy(pc, n) || Count(s, n) > 0
    requires Fits(s, s.gs[t].(pc := pc))
    requires outer == if InOuter(pc) then Some(t) else if InOuter(s.gs[t].pc) then None else s.outer
    requires InOuter(pc) && !InOuter(s.gs[t].pc) ==> s.outer == None
    ensures Inv(At(s, t, pc).(outer := outer))
  {
    hide Holders, Waiters, OuterInv, PcInv, HeldInv, LiveInv;
    OuterPlace(s, t);
    var s' := At(s, t, pc).(outer := outer);
    forall n ensures Count(s', n) == Count(s, n) {
      CountAfter(s, s', t, s'.gs[t], n);
    }
    HeldUnchanged(s, s');
    MoveKeepsLive(s, s', t);
    MoveKeepsPlaces(s, s', t);
  }

  lemma MoveKeepsPlaces(s: State, s': State, t: nat)
    requires OuterInv(s) && PcInv(s) && s'.lockMap == s.lockMap
    requires t in s.gs && t in s'.gs && s'.gs == s.gs[t := s'.gs[t]]
    requires Fits(s, s'.gs[t])
    requires s'.outer == if InOuter(s'.gs[t].pc) then Some(t) else if InOuter(s.gs[t].pc) then None else s.outer
    requires InOuter(s'.gs[t].pc) && !InOuter(s.gs[t].pc) ==> s.outer == None
    ensures OuterInv(s') && PcInv(s')
  {
    forall u | u in s'.gs ensures Fits(s', s'.gs[u]) { assert Fits(s, s'.gs[u]); }
  }

  lemma HeldUnchanged(s: State, s': State)
    requires HeldInv(s) && s'.lockMap == s.lockMap && s'.locks.Keys == s.locks.Keys && s'.gs.Keys == s.gs.Keys
    requires forall u :: u in s.gs ==> s'.gs[u].held == s.gs[u].held
    requires forall o :: o in s.locks ==> s'.locks[o].locked == s.locks[o].locked
    ensures HeldInv(s')
  {}

  lemma MoveKeepsLive(s: State, s': State, t: nat)
    requires LiveInv(s) && OuterInv(s) && s'.lockMap == s.lockMap
    requires t in s.gs && t in s'.gs && s'.gs == s.gs[t := s'.gs[t]]
    requires forall n :: Count(s', n) == Count(s, n)
    requires forall n :: Busy(s.gs[t].pc, n) && n in s.lockMap ==> Busy(s'.gs[t].pc, n) || Count(s, n) > 0
    requires forall n :: Busy(s'.gs[t].pc, n) ==> s'.outer == Some(t)
    requires s.outer == Some(t) || s'.outer == s.outer || s.outer == None
    ensures LiveInv(s')
  {}

  lemma OuterPlace(s: State, t: nat)
    requires OuterInv(s) && t in s.gs
    ensures InOuter(s.gs[t].pc) <==> s.outer == Some(t)
  {}

  lemma PlaceFits(s: State, t: nat)
    requires PcInv(s) && t in s.gs
    ensures Fits(s, s.gs[t])
  {}

  lemma CreateKeeps(s: State, t: nat, n: Name)
    requires Inv(s) && t in s.gs && s.gs[t].pc == AcqFind(n) && n !in s.lockMap
    ensures Inv(Advance(s, t))
  {
    hide Holders, Waiters, HeldInv, PcInv, LiveInv, MapInv;
    var s' := Advance(s, t);
    forall m ensures Count(s', m) == Count(s, m) { CountAfter(s, s', t, s'.gs[t], m); }
    NobodyCounted(s, n);
    CreatedHeld(s, s', n);
    CreatedPlaces(s, s', t, n);
    CreatedLive(s, s', t, n);
    CreatedCounts(s, s', n);
  }

  lemma CreatedCounts(s: State, s': State, n: Name)
    requires MapInv(s) && CountInv(s) && n !in s.lockMap && forall m :: Count(s', m) == Count(s, m)
    requires s'.lockMap == s.lockMap[n := s.nextLock] && s'.locks == s.locks[s.nextLock := RefLock(0, false)]
    requires s'.nextLock == s.nextLock + 1
    ensures MapInv(s') && CountInv(s')
  {
    hide Count;
  }

  /** Names in the map are as before, and the new one is being taken. */
  lemma CreatedLive(s: State, s': State, t: nat, n: Name)
    requires LiveInv(s) && OuterInv(s) && t in s.gs && s.gs[t].pc == AcqFind(n)
    requires s'.gs == s.gs[t := s.gs[t].(pc := AcqAddRef(n))] && s'.outer == s.outer
    requires s'.lockMap.Keys == s.lockMap.Keys + {n} && forall m :: Count(s', m) == Count(s, m)
    ensures LiveInv(s')
  {
    hide Count;
  }

  /** A new lock for name n, which nobody holds, starts unlocked. */
  lemma CreatedHeld(s: State, s': State, n: Name)
    requires HeldInv(s) && MapInv(s) && s'.gs.Keys == s.gs.Keys
    requires forall u :: u in s.gs ==> s'.gs[u].held == s.gs[u].held && n !in s.gs[u].held
    requires s'.lockMap == s.lockMap[n := s.nextLock] && s'.locks == s.locks[s.nextLock := RefLock(0, false)]
    ensures HeldInv(s')
  {}

  lemma CreatedPlaces(s: State, s': State, t: nat, n: Name)
    requires OuterInv(s) && PcInv(s) && t in s.gs && s.gs[t].pc == AcqFind(n) && n !in s.lockMap
    requires s'.gs == s.gs[t := s.gs[t].(pc := AcqAddRef(n))] && s'.outer == s.outer && n in s'.lockMap
    requires forall m :: m in s.lockMap ==> m in s'.lockMap && s'.lockMap[m] == s.lockMap[m]
    ensures OuterInv(s') && PcInv(s')
  {
    forall u | u in s'.gs ensures Fits(s', s'.gs[u]) {
      if u != t { assert Fits(s, s.gs[u]); }
    }
  }

  lemma AddRefKeeps(s: State, t: nat, n: Name)
    requires Inv(s) && t in s.gs && s.gs[t].pc == AcqAddRef(n)
    ensures !Crashes(s, t) && Inv(Advance(s, t))
  {
    hide Holders, Waiters, PcInv, HeldInv;
    PlaceFits(s, t);
    var s' := Advance(s, t);
    forall m ensures Count(s', m) == Count(s, m) + One(m == n) { CountAfter(s, s', t, s'.gs[t], m); }
    HeldUnchanged(s, s');
    MoveKeepsPlaces(s, s', t);
    hide Count;
  }

  lemma LockKeeps(s: State, t: nat, n: Name, o: Lock)
    requires Inv(s) && t in s.gs && s.gs[t].pc == AcqLock(n, o) && Enabled(s, t)
    ensures Inv(Advance(s, t))
  {
    hide Holders, Waiters, PcInv;
    PlaceFits(s, t);
    var s' := Advance(s, t);
    assert forall u :: u in s.gs ==> n !in s.gs[u].held;
    forall m ensures Count(s', m) == Count(s, m) { CountAfter(s, s', t, s'.gs[t], m); }
    AcquiredHeld(s, s', t, n);
    MoveKeepsPlaces(s, s', t);
    MoveKeepsLive(s, s', t);
    hide HeldInv, PcInv, OuterInv, LiveInv, Count;
  }

  /** Goroutine t takes name n, which nobody holds, and locks its mutex. */
  lemma AcquiredHeld(s: State, s': State, t: nat, n: Name)
    requires HeldInv(s) && MapInv(s) && t in s.gs && n in s.lockMap
    requires s'.gs.Keys == s.gs.Keys && s'.lockMap == s.lockMap
    requires s'.gs[t].held == s.gs[t].held + {n} && forall u :: u in s.gs && u != t ==> s'.gs[u] == s.gs[u]
    requires forall u :: u in s.gs ==> n !in s.gs[u].held
    requires s'.locks == s.locks[s.lockMap[n] := s.locks[s.lockMap[n]].(locked := true)]
    ensures HeldInv(s')
  {
    assert n in s'.gs[t].held;
    assert forall u, m :: u in s.gs && m != n ==> (m in s'.gs[u].held <==> m in s.gs[u].held);
  }

  lemma UnlockKeeps(s: State, t: nat, n: Name, o: Lock)
    requires Inv(s) && t in s.gs && s.gs[t].pc == RelUnlock(n, o)
    ensures !Crashes(s, t) && Inv(Advance(s, t))
  {
    hide Holders, Waiters, PcInv;
    PlaceFits(s, t);
    var s' := Advance(s, t);
    forall m ensures Count(s', m) == Count(s, m) { CountAfter(s, s', t, s'.gs[t], m); }
    MoveKeepsPlaces(s, s', t);
    MoveKeepsLive(s, s', t);
    assert forall u :: u in s.gs ==> n !in s'.gs[u].held;
    hide OuterInv, LiveInv, Count;
  }

  lemma DropRefKeeps(s: State, t: nat, n: Name, o: Lock)
    requires Inv(s) && t in s.gs && s.gs[t].pc == RelDropRef(n, o)
    ensures !Crashes(s, t) && Inv(Advance(s, t))
  {
    hide Holders, Waiters, PcInv, HeldInv;
    PlaceFits(s, t);
    var s' := Advance(s, t);
    forall m ensures Count(s', m) == Count(s, m) - One(m == n) { CountAfter(s, s', t, s'.gs[t], m); }
    HeldUnchanged(s, s');
    MoveKeepsPlaces(s, s', t);
    hide Count;
  }

  /** Nobody counts on a name whose count is zero, so forgetting it hurts nobody. */
  lemma DeleteKeeps(s: State, t: nat, n: Name, o: Lock)
    requires Inv(s) && t in s.gs && s.gs[t].pc == RelDelete(n, o) && o in s.locks && s.locks[o].refCount == 0
    ensures Inv(Advance(s, t))
  {
    hide Holders, Waiters, PcInv, HeldInv;
    PlaceFits(s, t);
    var s' := Advance(s, t);
    forall m ensures Count(s', m) == Count(s, m) { CountAfter(s, s', t, s'.gs[t], m); }
    NobodyCounted(s, n);
    DeletedHeld(s, s', n);
    DeletedPlaces(s, s', t, n);
    hide Count;
  }

  lemma DeletedHeld(s: State, s': State, n: Name)
    requires HeldInv(s) && s'.lockMap == s.lockMap - {n} && s'.locks == s.locks && s'.gs.Keys == s.gs.Keys
    requires forall u :: u in s.gs ==> s'.gs[u].held == s.gs[u].held
    ensures HeldInv(s')
  {}

  lemma DeletedPlaces(s: State, s': State, t: nat, n: Name)
    requires OuterInv(s) && PcInv(s) && t in s.gs && s.gs[t].pc.RelDelete? && s.gs[t].pc.n == n
    requires s'.gs == s.gs[t := s.gs[t].(pc := RelLeave(n))] && s'.outer == s.outer && s'.lockMap == s.lockMap - {n}
    requires forall u :: u in s.gs ==> n !in s.gs[u].held && !Waits(s.gs[u].pc, n)
    ensures OuterInv(s') && PcInv(s')
  {
    forall u | u in s'.gs ensures Fits(s', s'.gs[u]) {
      if u != t { assert Fits(s, s.gs[u]); }
    }
  }

  lemma StepKeeps(s: State, t: nat)
    requires Inv(s) && Enabled(s, t)
    ensures !Crashes(s, t) && Inv(Advance(s, t))
  {
    assert Fits(s, s.gs[t]);
    match s.gs[t].pc
    case AcqEnter(n) => MoveKeeps(s, t, AcqFind(n), Some(t));
    case AcqFind(n) => if n in s.lockMap { MoveKeeps(s, t, AcqAddRef(n), s.outer); } else { CreateKeeps(s, t, n); }
    case AcqAddRef(n) => AddRefKeeps(s, t, n);
    case AcqLeave(n, o) => MoveKeeps(s, t, AcqAgain(n, o), None);
    case AcqAgain(n, o) => MoveKeeps(s, t, AcqLock(n, o), s.outer);
    case AcqLock(n, o) => LockKeeps(s, t, n, o);
    case RelEnter(n) => MoveKeeps(s, t, RelFind(n), Some(t));
    case RelFind(n) => FindKeeps(s, t, n);
    case RelUnlock(n, o) => UnlockKeeps(s, t, n, o);
    case RelDropRef(n, o) => DropRefKeeps(s, t, n, o);
    case RelDelete(n, o) => DeleteStepKeeps(s, t, n, o);
    case RelLeave(n) => MoveKeeps(s, t, Outside, None);
  }

  lemma FindKeeps(s: State, t: nat, n: Name)
    requires Inv(s) && t in s.gs && s.gs[t].pc == RelFind(n)
    ensures n in s.lockMap && Inv(Advance(s, t))
  {
    assert Fits(s, s.gs[t]);
    CountPositive(s, n, t);
    MoveKeeps(s, t, RelUnlock(n, s.lockMap[n]), s.outer);
  }

  lemma DeleteStepKeeps(s: State, t: nat, n: Name, o: Lock)
    requires Inv(s) && t in s.gs && s.gs[t].pc == RelDelete(n, o)
    ensures !Crashes(s, t) && Inv(Advance(s, t))
  {
    assert Fits(s, s.gs[t]);
    if s.locks[o].refCount == 0 { DeleteKeeps(s, t, n, o); } else { MoveKeeps(s, t, RelLeave(n), s.outer); }
  }

  lemma CallKeeps(s: State, t: nat, s': State)
    requires Inv(s) && Calls(s, t, s')
    ensures Inv(s')
  {
    var n: Name :| s' == At(s, t, AcqEnter(n)) || (n in s.gs[t].held && s' == At(s, t, RelEnter(n)));
    if s' == At(s, t, AcqEnter(n)) {
      MoveKeeps(s, t, AcqEnter(n), s.outer);
    } else {
      MoveKeeps(s, t, RelEnter(n), s.outer);
    }
  }

  // ---------- every interleaving ----------

  ghost predicate IsRun(run: seq<State>) {
    && |run| > 0
    && Init(run[0])
    && forall i {:trigger Next(run[i], run[i + 1])} :: 0 <= i < |run| - 1 ==> Next(run[i], run[i + 1])
  }

  lemma {:induction false} Reachable(run: seq<State>, i: nat)
    requires IsRun(run) && i < |run|
    ensures Inv(run[i])
  {
    if i == 0 {
      InitInv(run[0]);
    } else {
      var j := i - 1;
      Reachable(run, j);
      var s, s' := run[j], run[i];
      assert Next(run[j], run[j + 1]);
      var t :| Calls(s, t, s') || (Enabled(s, t) && !Crashes(s, t) && s' == Advance(s, t));
      if Calls(s, t, s') { CallKeeps(s, t, s'); } else { StepKeeps(s, t); }
    }
  }

  // ---------- what a call does for its caller ----------

  predicate Acquires(pc: Pc) {
    pc.AcqEnter? || pc.AcqFind? || pc.AcqAddRef? || pc.AcqLeave? || pc.AcqAgain? || pc.AcqLock?
  }

  /** How many steps of its own a goroutine still has to take in its call, at most. */
  function StepsLeft(pc: Pc): nat {
    match pc
    case Outside => 0
    case AcqEnter(_) => 6
    case AcqFind(_) => 5
    case AcqAddRef(_) => 4
    case AcqLeave(_, _) => 3
    case AcqAgain(_, _) => 2
    case AcqLock(_, _) => 1
    case RelEnter(_) => 6
    case RelFind(_) => 5
    case RelUnlock(_, _) => 4
    case RelDropRef(_, _) => 3
    case RelDelete(_, _) => 2
    case RelLeave(_) => 1
  }

  /** What the goroutine may have become after one step of any goroutine: it stayed where it was; it
      began a call; it went on in its call, closer to its end; or its call returned. An acquire of n
      leaves what it holds alone until it returns, and then it holds n too. A release of n takes n,
      and nothing else, out of what it holds, before it returns. */
  predicate Follows(g: Goroutine, g': Goroutine) {
    g' == g ||
    if g.pc.Outside? then
      g'.held == g.held && (g'.pc.AcqEnter? || (g'.pc.RelEnter? && g'.pc.n in g.held))
    else if Acquires(g.pc) then
      if g'.pc.Outside? then g'.held == g.held + {g.pc.n}
      else Acquires(g'.pc) && g'.pc.n == g.pc.n && g'.held == g.held && StepsLeft(g'.pc) < StepsLeft(g.pc)
    else
      if g'.pc.Outside? then g'.held == g.held && g.pc.n !in g.held
      else && !Acquires(g'.pc) && g'.pc.n == g.pc.n && StepsLeft(g'.pc) < StepsLeft(g.pc)
           && g'.held in {g.held, g.held - {g.pc.n}}
  }

  lemma CallStep(run: seq<State>, i: nat, t: nat)
    requires IsRun(run) && i + 1 < |run| && t in run[i].gs
    ensures t in run[i + 1].gs && Follows(run[i].gs[t], run[i + 1].gs[t])
  {
    Reachable(run, i);
    var s, s' := run[i], run[i + 1];
    assert Next(run[i], run[i + 1]);
    PlaceFits(s, t);
    var u :| Calls(s, u, s') || (Enabled(s, u) && !Crashes(s, u) && s' == Advance(s, u));
    hide Inv, Fits, Follows, Advance, IsRun, Calls;
    if Calls(s, u, s') {
      CallFollows(s, u, s', t);
    } else {
      AdvanceMovesOne(s, u, t);
      if u == t { AdvanceFollows(s, t); } else { assert Follows(s.gs[t], s.gs[t]) by { Stays(s.gs[t]); } }
    }
  }

  lemma Stays(g: Goroutine)
    ensures Follows(g, g)
  {}

  lemma CallFollows(s: State, u: nat, s': State, t: nat)
    requires Calls(s, u, s') && t in s.gs
    ensures t in s'.gs && Follows(s.gs[t], s'.gs[t])
  {}

  /** A step changes the goroutine that takes it and no other. */
  lemma AdvanceMovesOne(s: State, u: nat, t: nat)
    requires Enabled(s, u) && !Crashes(s, u)
    ensures Advance(s, u).gs.Keys == s.gs.Keys && (t in s.gs && t != u ==> Advance(s, u).gs[t] == s.gs[t])
  {}

  lemma AdvanceFollows(s: State, t: nat)
    requires Enabled(s, t) && !Crashes(s, t) && Fits(s, s.gs[t])
    ensures t in Advance(s, t).gs && Follows(s.gs[t], Advance(s, t).gs[t])
    ensures StepsLeft(Advance(s, t).gs[t].pc) < StepsLeft(s.gs[t].pc)
  {}

  /** The goroutines are those of the start, all the way. */
  lemma {:induction false} SameGoroutines(run: seq<State>, i: nat, j: nat, t: nat)
    requires IsRun(run) && i <= j < |run| && t in run[i].gs
    ensures t in run[j].gs
    decreases j
  {
    if i < j {
      SameGoroutines(run, i, j - 1, t);
      CallStep(run, j - 1, t);
    }
  }

  /** Between points i and j goroutine t is inside one call. */
  ghost predicate InCall(run: seq<State>, i: nat, j: nat, t: nat)
    requires i <= j < |run|
  {
    forall m :: i <= m < j ==> t in run[m].gs && run[m].gs[t].pc != Outside
  }

  lemma {:induction false} InsideAcquire(run: seq<State>, i: nat, j: nat, t: nat, n: Name)
    requires IsRun(run) && i <= j && j + 1 < |run| && t in run[i].gs && run[i].gs[t].pc == AcqEnter(n)
    requires InCall(run, i, j + 1, t)
    ensures t in run[j].gs && Acquires(run[j].gs[t].pc) && run[j].gs[t].pc.n == n
    ensures run[j].gs[t].held == run[i].gs[t].held
    decreases j
  {
    if i < j {
      InsideAcquire(run, i, j - 1, t, n);
      CallStep(run, j - 1, t);
      assert run[j].gs[t].pc != Outside;
    }
  }

  /** When an acquire of n returns, the goroutine holds n besides what it held before; so a goroutine
      that was told it has the lock has it. */
  lemma AcquireDelivers(run: seq<State>, i: nat, j: nat, t: nat, n: Name)
    requires IsRun(run) && i < j < |run| && t in run[i].gs && run[i].gs[t].pc == AcqEnter(n)
    requires InCall(run, i, j, t) && t in run[j].gs && run[j].gs[t].pc == Outside
    ensures run[j].gs[t].held == run[i].gs[t].held + {n}
  {
    InsideAcquire(run, i, j - 1, t, n);
    CallStep(run, j - 1, t);
  }

  lemma {:induction false} InsideRelease(run: seq<State>, i: nat, j: nat, t: nat, n: Name)
    requires IsRun(run) && i <= j && j + 1 < |run| && t in run[i].gs && run[i].gs[t].pc == RelEnter(n)
    requires InCall(run, i, j + 1, t)
    ensures t in run[j].gs && run[j].gs[t].pc != Outside && !Acquires(run[j].gs[t].pc) && run[j].gs[t].pc.n == n
    ensures run[j].gs[t].held in {run[i].gs[t].held, run[i].gs[t].held - {n}}
    decreases j
  {
    if i < j {
      InsideRelease(run, i, j - 1, t, n);
      CallStep(run, j - 1, t);
      assert run[j].gs[t].pc != Outside;
      assert run[i].gs[t].held - {n} - {n} == run[i].gs[t].held - {n};
    }
  }

  /** When a release of n returns, the goroutine holds what it held before but n. */
  lemma ReleaseDelivers(run: seq<State>, i: nat, j: nat, t: nat, n: Name)
    requires IsRun(run) && i < j < |run| && t in run[i].gs && run[i].gs[t].pc == RelEnter(n)
    requires InCall(run, i, j, t) && t in run[j].gs && run[j].gs[t].pc == Outside
    ensures run[j].gs[t].held == run[i].gs[t].held - {n}
  {
    InsideRelease(run, i, j - 1, t, n);
    CallStep(run, j - 1, t);
    assert run[i].gs[t].held - {n} - {n} == run[i].gs[t].held - {n};
  }

  /** A goroutine between its calls may ask for any name, and release any name it holds. */
  lemma CallsCanBegin(run: seq<State>, t: nat, n: Name)
    requires IsRun(run) && t in run[|run| - 1].gs && run[|run| - 1].gs[t].pc == Outside
    ensures exists s :: IsRun(run + [s]) && t in s.gs && s.gs[t].pc == AcqEnter(n)
    ensures n in run[|run| - 1].gs[t].held ==> exists s :: IsRun(run + [s]) && t in s.gs && s.gs[t].pc == RelEnter(n)
  {
    var s := run[|run| - 1];
    var a, b := At(s, t, AcqEnter(n)), At(s, t, RelEnter(n));
    assert Calls(s, t, a);
    OneMoreState(run, a);
    if n in s.gs[t].held {
      assert Calls(s, t, b);
      OneMoreState(run, b);
    }
  }

  /** A goroutine that is not blocked can step, and only its own position and holdings change. */
  lemma UnblockedCanStep(run: seq<State>, t: nat)
    requires IsRun(run) && Enabled(run[|run| - 1], t)
    ensures exists s :: && IsRun(run + [s]) && t in s.gs
                        && StepsLeft(s.gs[t].pc) < StepsLeft(run[|run| - 1].gs[t].pc)
                        && forall u :: u in s.gs && u != t ==> u in run[|run| - 1].gs && s.gs[u] == run[|run| - 1].gs[u]
  {
    var s := run[|run| - 1];
    Reachable(run, |run| - 1);
    StepKeeps(s, t);
    var s' := Advance(s, t);
    PlaceFits(s, t);
    assert Next(s, s');
    hide Inv, Fits, Follows, Advance, IsRun, Next, StepsLeft;
    OneMoreState(run, s');
    AdvanceFollows(s, t);
    forall u | u in s'.gs && u != t ensures u in s.gs && s'.gs[u] == s.gs[u] { AdvanceMovesOne(s, t, u); }
  }

  lemma OneMoreState(run: seq<State>, s: State)
    requires IsRun(run) && Next(run[|run| - 1], s)
    ensures IsRun(run + [s])
  {
    var longer := run + [s];
    forall i | 0 <= i < |longer| - 1 ensures Next(longer[i], longer[i + 1]) {
      if i < |run| - 1 {
        assert Next(run[i], run[i + 1]);
        assert longer[i] == run[i] && longer[i + 1] == run[i + 1];
      }
    }
  }

  // ---------- safety and progress ----------

  /** At most one goroutine is between acquire and release of a name. */
  lemma MutualExclusion(run: seq<State>, i: nat, n: Name, t: nat, u: nat)
    requires IsRun(run) && i < |run|
    requires t in run[i].gs && u in run[i].gs && n in run[i].gs[t].held && n in run[i].gs[u].held
    ensures t == u
  {
    Reachable(run, i);
  }

  /** The goroutine that holds the outer mutex never blocks; so none waits for a named lock with it. */
  lemma OuterHolderNeverBlocks(run: seq<State>, i: nat, t: nat)
    requires IsRun(run) && i < |run| && run[i].outer == Some(t)
    ensures Enabled(run[i], t) && !run[i].gs[t].pc.AcqLock?
  {
    Reachable(run, i);
  }

  /** No step finds its name missing or unlocks an unlocked mutex, and a release never takes the
      branch for a name that is not in the map. */
  lemma NeverCrashes(run: seq<State>, i: nat, t: nat)
    requires IsRun(run) && i < |run| && t in run[i].gs
    ensures !Crashes(run[i], t)
    ensures run[i].gs[t].pc.RelFind? ==> run[i].gs[t].pc.n in run[i].lockMap
  {
    Reachable(run, i);
    if Enabled(run[i], t) { StepKeeps(run[i], t); }
    if run[i].gs[t].pc.RelFind? { FindKeeps(run[i], t, run[i].gs[t].pc.n); }
  }

  /** In every state a reference count is the number of holders and waiters, and the map holds exactly
      the names that have some, besides one that the holder of the outer mutex is just adding or
      removing. */
  lemma CountsAreExact(run: seq<State>, i: nat, n: Name)
    requires IsRun(run) && i < |run|
    ensures var s := run[i];
            && (n in s.lockMap ==> s.lockMap[n] in s.locks && s.locks[s.lockMap[n]].refCount == Count(s, n))
            && (n in s.lockMap <==>
                  Count(s, n) > 0 || exists t :: t in s.gs && s.outer == Some(t) && Busy(s.gs[t].pc, n))
  {
    Reachable(run, i);
    var s := run[i];
    forall t | t in s.gs && Busy(s.gs[t].pc, n) ensures n in s.lockMap { assert Fits(s, s.gs[t]); }
    if n in s.lockMap && Count(s, n) == 0 {
      var t := s.outer.value;
      assert t in s.gs && s.outer == Some(t) && Busy(s.gs[t].pc, n);
    }
  }

  /** The lookup without the outer mutex finds the lock whose count this goroutine raised. */
  lemma SecondLookupFindsSame(run: seq<State>, i: nat, t: nat)
    requires IsRun(run) && i < |run| && t in run[i].gs && run[i].gs[t].pc.AcqAgain?
    ensures var pc := run[i].gs[t].pc;
            && pc.n in run[i].lockMap && run[i].lockMap[pc.n] == pc.o
            && Advance(run[i], t) == At(run[i], t, AcqLock(pc.n, pc.o))
  {
    Reachable(run, i);
    assert Fits(run[i], run[i].gs[t]);
  }

  /** When every goroutine is outside and holds nothing, nothing is left in the map. */
  lemma EmptyWhenDone(run: seq<State>, i: nat)
    requires IsRun(run) && i < |run|
    requires forall t :: t in run[i].gs ==> run[i].gs[t] == Goroutine(Outside, {})
    ensures run[i].lockMap == map[]
  {
    Reachable(run, i);
    var s := run[i];
    assert s.outer == None;
    forall n ensures n !in s.lockMap {
      assert Holders(s, n) == {} && Waiters(s, n) == {};
    }
  }

  /** The named lock adds no deadlock of its own: if no goroutine inside a call can step, each of
      them waits for a name that some goroutine holds. */
  lemma StuckOnlyOnHeldNames(run: seq<State>, i: nat, t: nat)
    requires IsRun(run) && i < |run|
    requires forall u :: !Enabled(run[i], u)
    requires t in run[i].gs && run[i].gs[t].pc != Outside
    ensures run[i].gs[t].pc.AcqLock?
    ensures exists u :: u in run[i].gs && run[i].gs[t].pc.n in run[i].gs[u].held
  {
    Reachable(run, i);
    var s := run[i];
    assert Fits(s, s.gs[t]) && !Enabled(s, t);
    if s.outer.Some? {
      OuterHolderNeverBlocks(run, i, s.outer.value);
      assert false;
    }
  }
}
