/** What callers of the address manager are told, and what their calls change, in terms of the ledger
    that AddressRuns keeps from calls and replies. */
module AddressAnswers {
  import opened Basics
  import opened AddressModel
  import opened AddressRuns

  // ---------- addresses ----------

  predicate Used(s: Space, k: Text, a: Text) { Present(s, k, a) && s.pools[k].records[a].inUse }

  predicate HeldBy(r: Run, i: nat, k: Text, id: Text, a: Text)
    requires i <= |r.steps| && |r.replies| == |r.steps|
  {
    (k, id) in HeldAt(r, i) && HeldAt(r, i)[(k, id)] == a
  }

  /** The records and the ledger agree on who has what. */
  lemma OwnedIsHeld(r: Run, i: nat, k: Text, a: Text, id: Text)
    requires IsRun(r) && i <= |r.steps| && id != EMPTY
    ensures HeldBy(r, i, k, id, a) <==> Used(r.states[i], k, a) && r.states[i].pools[k].records[a].owner == id
  {
    RunInvariant(r, i);
    var s := r.states[i];
    if k in s.pools { assert Coherent(s.pools[k]); }
  }

  /** What the ledger has for an owner in a pool. */
  function Entry(r: Run, i: nat, k: Text, id: Text): Option<Text>
    requires i <= |r.steps| && |r.replies| == |r.steps|
  {
    if (k, id) in HeldAt(r, i) then Some(HeldAt(r, i)[(k, id)]) else None
  }

  /** The reply to a request of one who holds `held`. A named address is granted exactly if the pool has it
      and it is unused or with the one who asks; otherwise the reply tells which of the two is wrong.
      Without a name, the gateway flag gets the gateway, an owner gets what it holds, and anybody else
      gets an unused address, or learns that there is none. */
  ghost predicate Answered(s: Space, step: Step, held: Option<Text>, reply: Reply)
    requires step.Request?
  {
    var k, a := step.pool, step.address;
    if k !in s.pools then reply == NoSuchPool
    else reply.Answer? && var o := reply.outcome;
      if a != EMPTY then
        && (o == NotFound <==> !Present(s, k, a))
        && (o == AddressInUse <==> Used(s, k, a) && held != Some(a))
        && (o == Granted(a) <==> Present(s, k, a) && (!Used(s, k, a) || held == Some(a)))
      else if step.gateway then o == GatewayAddress
      else if held.Some? then o == Granted(held.value)
      else if forall b :: Present(s, k, b) ==> Used(s, k, b) then o == Exhausted
      else o.Granted? && Present(s, k, o.address) && !Used(s, k, o.address)
  }

  /** Every request of every run is answered so. */
  lemma RequestAnswers(r: Run, i: nat)
    requires IsRun(r) && i < |r.steps| && r.steps[i].Request?
    ensures Answered(r.states[i], r.steps[i], Entry(r, i, r.steps[i].pool, r.steps[i].id), r.replies[i])
  {
    var s, step, t, reply := r.states[i], r.steps[i], r.states[i + 1], r.replies[i];
    RunInvariant(r, i);
    assert Next(s, step, t, reply);
    var held := Entry(r, i, step.pool, step.id);
    assert step.pool in s.pools ==>
      held == if step.id in s.pools[step.pool].index then Some(s.pools[step.pool].index[step.id]) else None;
    hide IsRun, HeldAt, Matches, Next, Entry, Answered;
    StepAnswered(s, step, t, reply, held);
  }

  lemma StepAnswered(s: Space, step: Step, t: Space, reply: Reply, held: Option<Text>)
    requires SpaceInv(s) && step.Request? && Next(s, step, t, reply)
    requires step.pool in s.pools ==>
               held == if step.id in s.pools[step.pool].index then Some(s.pools[step.pool].index[step.id]) else None
    ensures Answered(s, step, held, reply)
  {
    if step.pool in s.pools {
      PoolAnswers(s.pools[step.pool], step.address, step.id, step.gateway, reply.outcome);
      hide Coherent, Serves;
    }
  }

  /** The same of one pool, where the index says who holds what. */
  lemma PoolAnswers(p: Pool, address: Text, id: Text, gateway: bool, o: Outcome)
    requires Coherent(p) && Serves(p, address, id, gateway, o)
    ensures address != EMPTY && address !in p.records ==> o == NotFound
    ensures address != EMPTY && address in p.records ==>
              o == if p.records[address].inUse && !(id in p.index && p.index[id] == address) then AddressInUse
                   else Granted(address)
    ensures address in p.records && id in p.index && p.index[id] == address ==> p.records[address].inUse
    ensures id in p.index ==> p.index[id] in p.records
    ensures address == EMPTY ==>
              if gateway then o == GatewayAddress
              else if id in p.index then o == Granted(p.index[id])
              else if forall b :: b in p.records ==> p.records[b].inUse then o == Exhausted
              else o.Granted? && o.address in p.records && !p.records[o.address].inUse
  {
    assert forall b :: Free(p, b) <==> b in p.records && !p.records[b].inUse;
  }

  /** A granted address becomes used, and that of the one who asked; nothing else changes. A request that
      is not granted changes nothing. */
  lemma RequestTouches(s: Space, step: Step, t: Space, reply: Reply)
    requires step.Request? && Next(s, step, t, reply)
    ensures t.epoch == s.epoch && t.pools.Keys == s.pools.Keys
    ensures forall k :: k in s.pools && k != step.pool ==> t.pools[k] == s.pools[k]
    ensures !(reply.Answer? && reply.outcome.Granted?) ==> t == s
    ensures reply.Answer? && reply.outcome.Granted? && Present(s, step.pool, reply.outcome.address) ==>
              var p, q, a := s.pools[step.pool], t.pools[step.pool], reply.outcome.address;
              && q == p.(records := q.records, index := q.index) && q.records.Keys == p.records.Keys
              && (forall b :: b in p.records && b != a ==> q.records[b] == p.records[b])
              && q.records[a].inUse && q.records[a].owner == (if step.id == EMPTY then p.records[a].owner else step.id)
              && q.records[a].epoch == p.records[a].epoch && q.records[a].unhealthy == p.records[a].unhealthy
  {
    if step.pool in s.pools { assert s.pools[step.pool := s.pools[step.pool]] == s.pools; }
  }

  /** The record an owner gives up, or an unlabelled one that is named without an owner. */
  ghost predicate Surrenders(r: Run, i: nat, a: Text)
    requires i < |r.steps| && |r.replies| == |r.steps| && |r.states| == |r.steps| + 1
  {
    var step := r.steps[i];
    step.Release? &&
    if step.id != EMPTY then HeldBy(r, i, step.pool, step.id, a) && step.address in {EMPTY, a}
    else step.address == a && a != EMPTY && Used(r.states[i], step.pool, a)
  }

  /** What every release of every run does: the record it surrenders, if any, is dropped if it is stale
      and else becomes unused and unlabelled. Nothing else changes. */
  lemma ReleaseEffect(r: Run, i: nat)
    requires IsRun(r) && i < |r.steps| && r.steps[i].Release?
    ensures var s, t, k := r.states[i], r.states[i + 1], r.steps[i].pool;
            && (r.replies[i] == if k in s.pools then Done else NoSuchPool)
            && t.epoch == s.epoch && t.pools.Keys == s.pools.Keys
            && (forall j :: j in s.pools && j != k ==> t.pools[j] == s.pools[j])
            && (k in s.pools ==>
                  var p, q := s.pools[k], t.pools[k];
                  && q == p.(records := q.records, index := q.index)
                  && forall a ::
                       if Surrenders(r, i, a) then
                         && a in p.records
                         && (a in q.records <==> p.records[a].epoch >= s.epoch)
                         && (a in q.records ==> q.records[a] == p.records[a].(inUse := false, owner := EMPTY))
                       else (a in q.records <==> a in p.records) && (a in p.records ==> q.records[a] == p.records[a]))
  {
    var s, step, t := r.states[i], r.steps[i], r.states[i + 1];
    RunInvariant(r, i);
    assert Next(s, step, t, r.replies[i]);
    assert Legal(s, step);
    if step.pool in s.pools {
      forall a ensures Surrenders(r, i, a) <==> Releases(s.pools[step.pool], step.address, step.id, a) {
        SurrendersIff(r, i, a);
      }
      ReleasedRecords(s.pools[step.pool], s.epoch, step.address, step.id);
    }
  }

  lemma SurrendersIff(r: Run, i: nat, a: Text)
    requires IsRun(r) && i < |r.steps| && r.steps[i].Release? && r.steps[i].pool in r.states[i].pools
    ensures Surrenders(r, i, a) <==>
            Releases(r.states[i].pools[r.steps[i].pool], r.steps[i].address, r.steps[i].id, a)
  {
    RunInvariant(r, i);
    var step := r.steps[i];
    assert Coherent(r.states[i].pools[step.pool]);
    if step.id != EMPTY { OwnedIsHeld(r, i, step.pool, a, step.id); }
  }

  lemma ReleasedRecords(p: Pool, epoch: int, address: Text, id: Text)
    requires !(id == EMPTY && Releases(p, address, id, address) && p.records[address].owner != EMPTY)
    ensures var q := AfterRelease(p, epoch, address, id);
            && q == p.(records := q.records, index := q.index)
            && forall a ::
                 if Releases(p, address, id, a) then
                   && (a in q.records <==> p.records[a].epoch >= epoch)
                   && (a in q.records ==> q.records[a] == p.records[a].(inUse := false, owner := EMPTY))
                 else (a in q.records <==> a in p.records) && (a in p.records ==> q.records[a] == p.records[a])
  {}

  // ---------- pools ----------

  ghost predicate SomeoneHolds(r: Run, i: nat, k: Text)
    requires i <= |r.steps| && |r.replies| == |r.steps|
  {
    exists id :: (k, id) in HeldAt(r, i)
  }

  lemma HolderUses(r: Run, i: nat, k: Text)
    requires IsRun(r) && i <= |r.steps| && SomeoneHolds(r, i, k)
    ensures k in r.states[i].pools && AnyRecordInUse(r.states[i].pools[k])
  {
    var id :| (k, id) in HeldAt(r, i);
    HeldIsInUse(r, i, k, id);
    assert r.states[i].pools[k].records[HeldAt(r, i)[(k, id)]].inUse;
  }

  predicate CountsBounded(s: Space) { forall k :: k in s.pools ==> s.pools[k].refCount in {0, 1} }

  lemma CountsStayBounded(s: Space, step: Step, t: Space, reply: Reply)
    requires CountsBounded(s) && Next(s, step, t, reply)
    ensures CountsBounded(t)
  {
    hide AnyRecordInUse;
    match step
    case Request(_, _, _, _) =>
    case Release(k, address, id) => if k in s.pools { ReleaseUsesNoMore(s.pools[k], s.epoch, address, id); }
    case AnyPool(ifName, v6) =>
      var order :| Visits(order, s.pools.Keys) && t.pools == AfterAnyPool(s.pools, Scan(s.pools, order, ifName, v6));
    case NamedPool(_) =>
    case ReleasePool(_) =>
    case Refresh(n) =>
      forall k | k in t.pools ensures t.pools[k].refCount in {0, 1} {
        if k in s.pools { MergeOfKnownPool(s, n, k); } else { assert IsListingPool(n.pools[k]); }
      }
    case Restart =>
      forall k | k in t.pools ensures t.pools[k].refCount in {0, 1} {
        assert RestartedPool(s.pools[k], t.pools[k]);
      }
  }

  /** The count of a pool is zero or one, in every run. */
  lemma {:induction false} CountsOverRuns(r: Run, i: nat)
    requires IsRun(r) && i <= |r.steps|
    ensures CountsBounded(r.states[i])
  {
    if i == 0 {
      forall k | k in r.states[0].pools ensures r.states[0].pools[k].refCount == 0 {
        assert IsListingPool(r.states[0].pools[k]);
      }
    } else {
      CountsOverRuns(r, i - 1);
      CountsStayBounded(r.states[i - 1], r.steps[i - 1], r.states[i], r.replies[i - 1]);
    }
  }

  /** A pool that is handed out, by name or not, has a reference afterwards. */
  lemma PickedIsReferenced(r: Run, i: nat, k: Text)
    requires IsRun(r) && i < |r.steps| && r.replies[i] == Picked(k)
    ensures k in r.states[i + 1].pools && r.states[i + 1].pools[k].refCount == 1
  {
    CountsOverRuns(r, i);
    CountsOverRuns(r, i + 1);
    var s, step := r.states[i], r.steps[i];
    assert Next(s, step, r.states[i + 1], r.replies[i]);
    hide AnyRecordInUse;
    if step.AnyPool? {
      var order :| Visits(order, s.pools.Keys) && Scan(s.pools, order, step.ifName, step.v6) == Some(k);
      ScanPicksCandidate(s.pools, order, step.ifName, step.v6);
    }
  }

  /** Releasing a pool takes its reference, unless somebody holds an address of it. */
  lemma ReleasedPool(r: Run, i: nat, k: Text)
    requires IsRun(r) && i < |r.steps| && r.steps[i] == ReleasePool(k)
    ensures r.replies[i] == if k in r.states[i].pools then Done else NoSuchPool
    ensures k in r.states[i].pools ==>
              var p := r.states[i].pools[k];
              && r.states[i + 1] == WithPool(r.states[i], k, p.(refCount := r.states[i + 1].pools[k].refCount))
              && (r.states[i + 1].pools[k].refCount == p.refCount || r.states[i + 1].pools[k].refCount == 0)
              && (SomeoneHolds(r, i, k) ==> r.states[i + 1].pools[k].refCount == p.refCount)
              && (NamesOwners(r) && !SomeoneHolds(r, i, k) ==> r.states[i + 1].pools[k].refCount == 0)
  {
    assert Next(r.states[i], r.steps[i], r.states[i + 1], r.replies[i]);
    if SomeoneHolds(r, i, k) { HolderUses(r, i, k); }
    if NamesOwners(r) && k in r.states[i].pools { UsedIffHeld(r, i, k); }
    if k !in r.states[i].pools { assert r.states[i + 1] == r.states[i]; }
  }

  // ---------- from calls and replies alone ----------

  /** Every request names its owner, as those of the CNI plugin do. */
  predicate NamesOwners(r: Run) {
    forall i :: 0 <= i < |r.steps| && r.steps[i].Request? ==> r.steps[i].id != EMPTY
  }

  ghost predicate UsedAreOwned(s: Space) {
    forall k, a :: Used(s, k, a) ==> s.pools[k].records[a].owner != EMPTY
  }

  lemma UsedStayOwned(s: Space, step: Step, t: Space, reply: Reply)
    requires UsedAreOwned(s) && Next(s, step, t, reply) && (step.Request? ==> step.id != EMPTY)
    ensures UsedAreOwned(t)
  {
    forall k, a | Used(t, k, a) ensures t.pools[k].records[a].owner != EMPTY {
      match step
      case Request(j, _, _, _) => assert j != k ==> Used(s, k, a); assert Used(s, k, a) || j == k;
      case Release(_, _, _) => assert Used(s, k, a);
      case Refresh(n) =>
        if k in s.pools {
          MergeOfKnownPool(s, n, k);
          if a in s.pools[k].records { assert Used(s, k, a); } else { ListedUnused(n, k, a); }
        } else {
          ListedUnused(n, k, a);
        }
      case Restart => assert RestartedPool(s.pools[k], t.pools[k]); assert Used(s, k, a);
      case _ => PoolStep(s, step, t, reply); assert Used(s, k, a);
    }
  }

  lemma {:induction false} UsedAreOwnedOverRuns(r: Run, i: nat)
    requires IsRun(r) && NamesOwners(r) && i <= |r.steps|
    ensures UsedAreOwned(r.states[i])
  {
    if i == 0 {
      forall k, a | Present(r.states[0], k, a) ensures !Used(r.states[0], k, a) { ListedUnused(r.states[0], k, a); }
    } else {
      UsedAreOwnedOverRuns(r, i - 1);
      UsedStayOwned(r.states[i - 1], r.steps[i - 1], r.states[i], r.replies[i - 1]);
    }
  }

  lemma UsedIffHeld(r: Run, i: nat, k: Text)
    requires IsRun(r) && NamesOwners(r) && i <= |r.steps| && k in r.states[i].pools
    ensures AnyRecordInUse(r.states[i].pools[k]) <==> SomeoneHolds(r, i, k)
  {
    RunInvariant(r, i);
    var p := r.states[i].pools[k];
    assert Coherent(p);
    if AnyRecordInUse(p) {
      var a :| a in p.records && (p.records[a].inUse || p.records[a].owner != EMPTY);
      UsedAreOwnedOverRuns(r, i);
      assert Used(r.states[i], k, a);
      OwnedIsHeld(r, i, k, a, p.records[a].owner);
    }
    if SomeoneHolds(r, i, k) { HolderUses(r, i, k); }
  }

  /** Pool k was handed out, and since then it was not released and no pool was asked for at large, or
      somebody held an address of it at that time. */
  ghost predicate Engaged(r: Run, m: nat, k: Text)
    requires m <= |r.steps| && |r.replies| == |r.steps|
    decreases m
  {
    m > 0 &&
    (r.replies[m - 1] == Picked(k) ||
     (Engaged(r, m - 1, k) &&
      (r.steps[m - 1].AnyPool? || r.steps[m - 1] == ReleasePool(k) ==> SomeoneHolds(r, m - 1, k))))
  }

  lemma {:induction false} EngagedIsReferenced(r: Run, m: nat, k: Text)
    requires IsRun(r) && m <= |r.steps| && Engaged(r, m, k)
    ensures k in r.states[m].pools && r.states[m].pools[k].refCount > 0
    decreases m
  {
    if r.replies[m - 1] == Picked(k) {
      PickedIsReferenced(r, m - 1, k);
    } else {
      EngagedIsReferenced(r, m - 1, k);
      assert Next(r.states[m - 1], r.steps[m - 1], r.states[m], r.replies[m - 1]);
      if SomeoneHolds(r, m - 1, k) { HolderUses(r, m - 1, k); }
      ReferenceKept(r.states[m - 1], r.steps[m - 1], r.states[m], r.replies[m - 1], k);
    }
  }

  lemma ReferenceKept(s: Space, step: Step, t: Space, reply: Reply, k: Text)
    requires Next(s, step, t, reply) && k in s.pools && s.pools[k].refCount > 0
    requires step.AnyPool? || step == ReleasePool(k) ==> AnyRecordInUse(s.pools[k])
    ensures k in t.pools && t.pools[k].refCount > 0
  {
    hide AnyRecordInUse;
    match step
    case Request(_, _, _, _) =>
    case Release(j, address, id) => if j in s.pools { ReleaseUsesNoMore(s.pools[j], s.epoch, address, id); }
    case AnyPool(ifName, v6) =>
      var order :| Visits(order, s.pools.Keys) && t.pools == AfterAnyPool(s.pools, Scan(s.pools, order, ifName, v6));
    case NamedPool(_) =>
    case ReleasePool(_) =>
    case Refresh(n) => MergeOfKnownPool(s, n, k);
    case Restart => assert RestartedPool(s.pools[k], t.pools[k]);
  }

  /** Addresses are requested only from pools that were handed out before. */
  ghost predicate AsksPickedPools(r: Run)
    requires |r.replies| == |r.steps|
  {
    forall i {:trigger r.steps[i]} :: 0 <= i < |r.steps| && r.steps[i].Request? ==> Engaged(r, i, r.steps[i].pool)
  }

  lemma PickedAreReferenced(r: Run)
    requires IsRun(r) && AsksPickedPools(r)
    ensures AsksReferencedPools(r)
  {
    forall i | 0 <= i < |r.steps| && r.steps[i].Request? && r.steps[i].pool in r.states[i].pools
      ensures r.states[i].pools[r.steps[i].pool].refCount > 0
    {
      EngagedIsReferenced(r, i, r.steps[i].pool);
    }
  }

  predicate RightKind(s: Space, k: Text, ifName: Text, v6: bool) {
    k in s.pools && s.pools[k].isIPv6 == v6 && (ifName == EMPTY || ifName == s.pools[k].ifName)
  }

  /** If addresses are requested only from pools that were handed out before, a request for any pool is
      answered with one of the right kind of which nobody holds an address; and if requests name their
      owners, it fails only if somebody holds an address of every pool of that kind. */
  lemma AnyPoolAnswers(r: Run, i: nat, ifName: Text, v6: bool)
    requires IsRun(r) && AsksPickedPools(r) && i < |r.steps| && r.steps[i] == AnyPool(ifName, v6)
    ensures var s, reply := r.states[i], r.replies[i];
            && (reply.Picked? ==> RightKind(s, reply.pool, ifName, v6) && !SomeoneHolds(r, i, reply.pool))
            && (!reply.Picked? ==> reply == NoSuchPool)
            && (NamesOwners(r) ==>
                  (reply == NoSuchPool <==> forall k :: RightKind(s, k, ifName, v6) ==> SomeoneHolds(r, i, k)))
  {
    PickedAreReferenced(r);
    ReferencedOverRuns(r, i);
    var s, reply := r.states[i], r.replies[i];
    assert Next(s, r.steps[i], r.states[i + 1], reply);
    var order :| Visits(order, s.pools.Keys) &&
      reply == (var p := Scan(s.pools, order, ifName, v6); if p.Some? then Picked(p.value) else NoSuchPool);
    AnyPoolRequest(s.pools, order, ifName, v6);
    if reply.Picked? && SomeoneHolds(r, i, reply.pool) { HolderUses(r, i, reply.pool); }
    if NamesOwners(r) {
      forall k | k in s.pools
        ensures Candidate(s.pools[k], ifName, v6) <==> RightKind(s, k, ifName, v6) && !SomeoneHolds(r, i, k)
      {
        UsedIffHeld(r, i, k);
      }
      hide Candidate, AnyRecordInUse, Scan, SomeoneHolds;
    }
  }

  /** A request for a pool by name is answered with it if it is there; it gets a reference if it had none,
      and nothing else changes. */
  lemma NamedPoolAnswers(r: Run, i: nat, k: Text)
    requires IsRun(r) && i < |r.steps| && r.steps[i] == NamedPool(k)
    ensures r.replies[i] == if k in r.states[i].pools then Picked(k) else NoSuchPool
    ensures var s := r.states[i];
            r.states[i + 1] == if k in s.pools then WithPool(s, k, s.pools[k].(refCount := 1)) else s
  {
    CountsOverRuns(r, i);
    assert Next(r.states[i], r.steps[i], r.states[i + 1], r.replies[i]);
  }

  /** A request for any pool changes counts only: the pool handed out has one reference, and another one
      loses its reference exactly if nobody holds an address of it. */
  lemma AnyPoolTouches(r: Run, i: nat, k: Text)
    requires IsRun(r) && NamesOwners(r) && i < |r.steps| && r.steps[i].AnyPool? && k in r.states[i].pools
    ensures r.states[i + 1].epoch == r.states[i].epoch && r.states[i + 1].pools.Keys == r.states[i].pools.Keys
    ensures var p := r.states[i].pools[k];
            r.states[i + 1].pools[k] == p.(refCount := if r.replies[i] == Picked(k) then 1
                                                       else if SomeoneHolds(r, i, k) then p.refCount else 0)
  {
    CountsOverRuns(r, i);
    UsedIffHeld(r, i, k);
    var s, step := r.states[i], r.steps[i];
    assert Next(s, step, r.states[i + 1], r.replies[i]);
    var order :| Visits(order, s.pools.Keys) &&
      var picked := Scan(s.pools, order, step.ifName, step.v6);
      r.states[i + 1] == s.(pools := AfterAnyPool(s.pools, picked)) &&
      r.replies[i] == (if picked.Some? then Picked(picked.value) else NoSuchPool);
    if r.replies[i] == Picked(k) { PickedIsReferenced(r, i, k); }
  }

  // ---------- what getInfo reports, from the ledger ----------

  lemma {:induction false} InjectiveSize(m: map<Text, Text>)
    requires forall i, j :: i in m && j in m && m[i] == m[j] ==> i == j
    ensures |m.Values| == |m|
  {
    if m == map[] {
      assert m.Values == {};
    } else {
      var i :| i in m;
      var rest := m - {i};
      InjectiveSize(rest);
      forall v | v in m.Values ensures v in rest.Values + {m[i]} {
        var j :| j in m && m[j] == v;
        assert j == i || (j in rest && rest[j] == v);
      }
      forall v | v in rest.Values ensures v in m.Values && v != m[i] {
        var j :| j in rest && rest[j] == v;
        assert j in m && m[j] == v && j != i;
      }
      assert m[i] in m.Values;
      assert m.Values == rest.Values + {m[i]};
      assert m.Keys == rest.Keys + {i} && |m| == |m.Keys| && |rest| == |rest.Keys|;
    }
  }

  /** If requests name their owners, the addresses that are not available are as many as there are
      holders: capacity is availability plus holders. */
  lemma HoldersCounted(r: Run, i: nat, k: Text)
    requires IsRun(r) && NamesOwners(r) && i <= |r.steps| && k in r.states[i].pools
    ensures var p := r.states[i].pools[k];
            && |p.records| == Capacity(p) == Available(p) + |p.index|
            && forall id :: id in p.index <==> (k, id) in HeldAt(r, i)
  {
    RunInvariant(r, i);
    UsedAreOwnedOverRuns(r, i);
    var p := r.states[i].pools[k];
    assert Coherent(p);
    InjectiveSize(p.index);
    var used := p.records.Keys - Unused(p.records);
    forall a | a in used ensures a in p.index.Values {
      assert Used(r.states[i], k, a);
      assert p.records[a].owner in p.index;
    }
    assert used == p.index.Values;
    assert |used| == |p.records.Keys| - |Unused(p.records)|;
  }

  // ---------- refreshes and restarts ----------

  /** A refresh raises the epoch by one, takes over new pools as they are listed, and leaves alone what a
      known pool is. */
  lemma RefreshTouches(s: Space, n: Space, k: Text)
    ensures var m := Merged(s, n);
            && m.epoch == s.epoch + 1
            && (k !in s.pools ==> (k in m.pools <==> k in n.pools))
            && (k !in s.pools && k in n.pools ==> m.pools[k] == n.pools[k].(epoch := m.epoch))
            && (k in s.pools && k in m.pools ==>
                  var p, q := s.pools[k], m.pools[k];
                  q == p.(records := q.records, epoch := q.epoch))
  {}

  /** After a refresh the pools have exactly the addresses that are listed and those that are in use. */
  lemma RefreshedAddresses(r: Run, i: nat, k: Text, a: Text)
    requires IsRun(r) && i < |r.steps| && r.steps[i].Refresh?
    ensures Present(r.states[i + 1], k, a) <==> Lists(r.steps[i].listing, k, a) || Used(r.states[i], k, a)
  {
    var s, n := r.states[i], r.steps[i].listing;
    assert Next(s, r.steps[i], r.states[i + 1], r.replies[i]);
    if k in s.pools { MergeOfKnownPool(s, n, k); } else { RefreshTouches(s, n, k); }
  }

  /** A restart keeps every pool with its count, and every record with its owner and use; it forgets epochs
      and health. */
  lemma RestartTouches(s: Space, t: Space, k: Text)
    requires SpaceInv(s) && RestartOf(s, t)
    ensures t.epoch == 0 && (k in t.pools <==> k in s.pools)
    ensures k in s.pools ==>
              var p, q := s.pools[k], t.pools[k];
              && q == p.(epoch := 0, records := q.records) && q.records.Keys == p.records.Keys
              && forall a :: a in p.records ==> q.records[a] == p.records[a].(epoch := 0, unhealthy := false)
  {
    if k in s.pools {
      assert RestartedPool(s.pools[k], t.pools[k]) && Coherent(s.pools[k]);
      RebuiltIsKept(s.pools[k], t.pools[k].index);
    }
  }
}
