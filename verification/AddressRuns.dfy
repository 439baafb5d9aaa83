/** Whole runs of the address manager over one address space: requests, releases, refreshes, pool
    requests and restarts in any number and order. */
module AddressRuns {
  import opened Basics
  import opened AddressModel

  datatype Step =
    | Request(pool: Text, address: Text, id: Text, gateway: bool)
    | Release(pool: Text, address: Text, id: Text)
    | AnyPool(ifName: Text, v6: bool)
    | NamedPool(pool: Text)
    | ReleasePool(pool: Text)
    | Refresh(listing: Space)
    | Restart

  datatype Reply = Done | NoSuchPool | Picked(pool: Text) | Answer(outcome: Outcome)

  function WithPool(s: Space, k: Text, p: Pool): Space { s.(pools := s.pools[k := p]) }

  /** Epochs and health are not stored, and the index is rebuilt from the stored records. */
  function Forgotten(records: map<Text, Record>): map<Text, Record> {
    map a | a in records :: records[a].(unhealthy := false, epoch := 0)
  }

  /** What the store holds of a space. */
  function Stored(s: Space): Space {
    Space(0, map k | k in s.pools :: s.pools[k].(epoch := 0, records := Forgotten(s.pools[k].records), index := map[]))
  }

  ghost predicate RebuiltFrom(p: Pool, q: Pool) {
    q == p.(index := q.index) && IsRebuilt(q.records, q.index)
  }

  ghost predicate RestartedPool(p: Pool, q: Pool) {
    && IsRebuilt(p.records, q.index)
    && q == p.(epoch := 0, records := Forgotten(p.records), index := q.index)
  }

  ghost predicate RestartOf(s: Space, t: Space) {
    && t.epoch == 0
    && t.pools.Keys == s.pools.Keys
    && forall k :: k in s.pools ==> RestartedPool(s.pools[k], t.pools[k])
  }

  /** One atomic step of the manager, with its reply. */
  ghost predicate Next(s: Space, step: Step, t: Space, reply: Reply) {
    match step
    case Request(k, address, id, gateway) =>
      if k !in s.pools then t == s && reply == NoSuchPool
      else
        && reply.Answer?
        && Serves(s.pools[k], address, id, gateway, reply.outcome)
        && t == WithPool(s, k, AfterRequest(s.pools[k], id, reply.outcome))
    case Release(k, address, id) =>
      if k !in s.pools then t == s && reply == NoSuchPool
      else reply == Done && t == WithPool(s, k, AfterRelease(s.pools[k], s.epoch, address, id))
    case AnyPool(ifName, v6) =>
      exists order :: Visits(order, s.pools.Keys) &&
        var picked := Scan(s.pools, order, ifName, v6);
        t == s.(pools := AfterAnyPool(s.pools, picked)) &&
        reply == (if picked.Some? then Picked(picked.value) else NoSuchPool)
    case NamedPool(k) =>
      if k !in s.pools then t == s && reply == NoSuchPool
      else reply == Picked(k) && t == WithPool(s, k, Referenced(s.pools[k]))
    case ReleasePool(k) =>
      if k !in s.pools then t == s && reply == NoSuchPool
      else reply == Done && t == WithPool(s, k, Settled(s.pools[k]))
    case Refresh(n) => IsListing(n) && t == Merged(s, n) && reply == Done
    case Restart => RestartOf(s, t) && reply == Done
  }

  lemma RestoredIsRestart(s: Space, t: Space)
    requires t.epoch == Stored(s).epoch && t.pools.Keys == Stored(s).pools.Keys
    requires forall k :: k in t.pools ==> RebuiltFrom(Stored(s).pools[k], t.pools[k])
    ensures Next(s, Restart, t, Done)
  {
    forall k | k in s.pools ensures RestartedPool(s.pools[k], t.pools[k]) {
      var p, q := s.pools[k], t.pools[k];
      assert RebuiltFrom(Stored(s).pools[k], q);
      assert forall a :: a in p.records ==> Forgotten(p.records)[a].owner == p.records[a].owner;
    }
    assert RestartOf(s, t);
  }

  lemma AnyPoolNext(s: Space, order: seq<Text>, ifName: Text, v6: bool)
    requires Visits(order, s.pools.Keys)
    ensures var picked := Scan(s.pools, order, ifName, v6);
            Next(s, AnyPool(ifName, v6), s.(pools := AfterAnyPool(s.pools, picked)),
                 if picked.Some? then Picked(picked.value) else NoSuchPool)
  {}

  /** The two families of calls that break the index (GrantKeepsCoherent, ReleaseKeepsCoherent)
      are the only ones left out: naming a free address for an owner that holds another one, and
      releasing a labelled address without its label. */
  predicate Legal(s: Space, step: Step) {
    match step
    case Request(k, address, id, _) =>
      !(k in s.pools && Free(s.pools[k], address) && address != EMPTY &&
        id in s.pools[k].index && s.pools[k].index[id] != address)
    case Release(k, address, id) =>
      !(k in s.pools && id == EMPTY && Releases(s.pools[k], address, id, address) &&
        s.pools[k].records[address].owner != EMPTY)
    case _ => true
  }

  datatype Run = Run(states: seq<Space>, steps: seq<Step>, replies: seq<Reply>)

  ghost predicate IsRun(r: Run) {
    && |r.states| == |r.steps| + 1
    && |r.replies| == |r.steps|
    && IsListing(r.states[0])
    && forall i {:trigger r.steps[i]} :: 0 <= i < |r.steps| ==>
         Legal(r.states[i], r.steps[i]) && Next(r.states[i], r.steps[i], r.states[i + 1], r.replies[i])
  }

  // ---------- what the callers saw ----------

  type Holdings = map<(Text, Text), Text>

  predicate GivesBack(step: Step, k: Text, id: Text, a: Text) {
    step.Release? && step.pool == k && step.id == id && id != EMPTY && (step.address == EMPTY || step.address == a)
  }

  /** Who holds what, computed from calls and replies alone. */
  function Track(h: Holdings, step: Step, reply: Reply): Holdings {
    if step.Request? && step.id != EMPTY && reply.Answer? && reply.outcome.Granted? then
      h[(step.pool, step.id) := reply.outcome.address]
    else if step.Release? && (step.pool, step.id) in h &&
            GivesBack(step, step.pool, step.id, h[(step.pool, step.id)]) then
      h - {(step.pool, step.id)}
    else h
  }

  function HeldAt(r: Run, i: nat): Holdings
    requires i <= |r.steps| && |r.replies| == |r.steps|
  {
    if i == 0 then map[] else Track(HeldAt(r, i - 1), r.steps[i - 1], r.replies[i - 1])
  }

  ghost predicate Matches(s: Space, h: Holdings) {
    && (forall k, id :: (k, id) in h ==>
          k in s.pools && id in s.pools[k].index && s.pools[k].index[id] == h[(k, id)])
    && (forall k, id :: k in s.pools && id in s.pools[k].index ==> (k, id) in h)
  }

  // ---------- one step ----------

  lemma ListingInv(s: Space)
    requires IsListing(s)
    ensures SpaceInv(s) && Matches(s, map[])
  {
    forall k | k in s.pools
      ensures Coherent(s.pools[k]) && s.pools[k].index == map[]
    {
      assert IsListingPool(s.pools[k]);
    }
    forall k, a | k in s.pools && a in s.pools[k].records
      ensures s.pools[k].records[a].epoch <= s.epoch
    {
      assert IsListingPool(s.pools[k]);
    }
  }

  ghost predicate PoolInv(p: Pool, epoch: int) {
    && Coherent(p)
    && p.epoch <= epoch
    && forall a :: a in p.records ==> p.records[a].epoch <= epoch
  }

  lemma WithPoolKeeps(s: Space, k: Text, p: Pool, h: Holdings, h': Holdings)
    requires SpaceInv(s) && Matches(s, h) && PoolInv(p, s.epoch)
    requires forall k', id :: k' != k ==> ((k', id) in h <==> (k', id) in h')
    requires forall k', id :: k' != k && (k', id) in h ==> h'[(k', id)] == h[(k', id)]
    requires forall id :: (k, id) in h' <==> id in p.index
    requires forall id :: id in p.index ==> h'[(k, id)] == p.index[id]
    ensures SpaceInv(WithPool(s, k, p)) && Matches(WithPool(s, k, p), h')
  {}

  lemma RequestKeepsPool(p: Pool, epoch: int, step: Step, o: Outcome)
    requires step.Request? && PoolInv(p, epoch)
    requires !(Free(p, step.address) && step.address != EMPTY && step.id in p.index && p.index[step.id] != step.address)
    requires Serves(p, step.address, step.id, step.gateway, o)
    ensures PoolInv(AfterRequest(p, step.id, o), epoch)
  {
    GrantKeepsCoherent(p, step.address, step.id, step.gateway, o);
  }

  lemma RequestKeeps(s: Space, step: Step, o: Outcome, h: Holdings)
    requires step.Request? && step.pool in s.pools && SpaceInv(s) && Matches(s, h) && Legal(s, step)
    requires Serves(s.pools[step.pool], step.address, step.id, step.gateway, o)
    ensures var t := WithPool(s, step.pool, AfterRequest(s.pools[step.pool], step.id, o));
            SpaceInv(t) && Matches(t, Track(h, step, Answer(o)))
  {
    var p := s.pools[step.pool];
    assert PoolInv(p, s.epoch);
    RequestKeepsPool(p, s.epoch, step, o);
    WithPoolKeeps(s, step.pool, AfterRequest(p, step.id, o), h, Track(h, step, Answer(o)));
  }

  lemma ReleaseKeeps(s: Space, step: Step, h: Holdings)
    requires step.Release? && step.pool in s.pools && SpaceInv(s) && Matches(s, h) && Legal(s, step)
    ensures var t := WithPool(s, step.pool, AfterRelease(s.pools[step.pool], s.epoch, step.address, step.id));
            SpaceInv(t) && Matches(t, Track(h, step, Done))
  {
    var p := s.pools[step.pool];
    var q := AfterRelease(p, s.epoch, step.address, step.id);
    ReleaseKeepsCoherent(p, s.epoch, step.address, step.id);
    assert PoolInv(q, s.epoch);
    if (step.pool, step.id) in h && GivesBack(step, step.pool, step.id, h[(step.pool, step.id)]) {
      assert Releases(p, step.address, step.id, h[(step.pool, step.id)]);
    } else {
      assert q.index == p.index;
    }
    WithPoolKeeps(s, step.pool, q, h, Track(h, step, Done));
  }

  /** A refresh drops no pool that has an owner in it. */
  lemma RefreshKeeps(s: Space, n: Space, h: Holdings)
    requires SpaceInv(s) && Matches(s, h) && IsListing(n)
    ensures SpaceInv(Merged(s, n)) && Matches(Merged(s, n), h)
  {
    MergeKeepsInv(s, n);
    var t := Merged(s, n);
    forall k, id | (k, id) in h
      ensures k in t.pools && id in t.pools[k].index && t.pools[k].index[id] == h[(k, id)]
    {
      assert s.pools[k].records[s.pools[k].index[id]].inUse;
      MergeOfKnownPool(s, n, k);
    }
    forall k | k in t.pools
      ensures t.pools[k].index == if k in s.pools then s.pools[k].index else map[]
    {
      if k in s.pools { MergeOfKnownPool(s, n, k); } else { assert IsListingPool(n.pools[k]); }
    }
  }

  lemma RestartKeeps(s: Space, t: Space, h: Holdings)
    requires SpaceInv(s) && Matches(s, h) && RestartOf(s, t)
    ensures SpaceInv(t) && Matches(t, h)
  {
    forall k | k in s.pools
      ensures t.pools[k].index == s.pools[k].index && Coherent(t.pools[k]) && t.pools[k].epoch == 0
    {
      assert RestartedPool(s.pools[k], t.pools[k]);
      RebuiltIsKept(s.pools[k], t.pools[k].index);
    }
    forall k, a | k in t.pools && a in t.pools[k].records ensures t.pools[k].records[a].epoch == 0 {
      assert RestartedPool(s.pools[k], t.pools[k]);
    }
  }

  /** The pool calls change reference counts and nothing else. */
  ghost predicate OnlyRefCounts(s: Space, t: Space) {
    && t.epoch == s.epoch
    && t.pools.Keys == s.pools.Keys
    && forall k :: k in s.pools ==> t.pools[k] == s.pools[k].(refCount := t.pools[k].refCount)
  }

  lemma AnyPoolOnlyRefCounts(s: Space, picked: Option<Text>)
    ensures OnlyRefCounts(s, s.(pools := AfterAnyPool(s.pools, picked)))
  {}

  lemma PoolStep(s: Space, step: Step, t: Space, reply: Reply)
    requires step.AnyPool? || step.NamedPool? || step.ReleasePool?
    requires Next(s, step, t, reply)
    ensures OnlyRefCounts(s, t)
  {
    match step
    case AnyPool(ifName, v6) =>
      var order :| Visits(order, s.pools.Keys) &&
        t == s.(pools := AfterAnyPool(s.pools, Scan(s.pools, order, ifName, v6)));
      AnyPoolOnlyRefCounts(s, Scan(s.pools, order, ifName, v6));
    case NamedPool(k) =>
    case ReleasePool(k) =>
  }

  lemma PoolStepKeeps(s: Space, t: Space, h: Holdings)
    requires SpaceInv(s) && Matches(s, h) && OnlyRefCounts(s, t)
    ensures SpaceInv(t) && Matches(t, h)
  {
    forall k | k in s.pools ensures Coherent(t.pools[k]) { assert Coherent(s.pools[k]); }
  }

  lemma StepKeeps(s: Space, step: Step, t: Space, reply: Reply, h: Holdings)
    requires SpaceInv(s) && Matches(s, h) && Legal(s, step) && Next(s, step, t, reply)
    ensures SpaceInv(t) && Matches(t, Track(h, step, reply))
  {
    match step
    case Request(k, _, _, _) => if k in s.pools { RequestKeeps(s, step, reply.outcome, h); }
    case Release(k, _, _) => if k in s.pools { ReleaseKeeps(s, step, h); }
    case Refresh(n) => RefreshKeeps(s, n, h);
    case Restart => RestartKeeps(s, t, h);
    case _ => PoolStep(s, step, t, reply); PoolStepKeeps(s, t, h);
  }

  /** The ledger that a space shows. */
  ghost function Ledger(s: Space): Holdings {
    map k, id | k in s.pools && id in s.pools[k].index :: (k, id) := s.pools[k].index[id]
  }

  /** A step that the manager can take from a space in the invariant is legal exactly if it keeps it. */
  lemma LegalIffKept(s: Space, step: Step, t: Space, reply: Reply)
    requires SpaceInv(s) && Next(s, step, t, reply)
    ensures Legal(s, step) <==> SpaceInv(t)
  {
    if Legal(s, step) {
      StepKeeps(s, step, t, reply, Ledger(s));
    } else if step.Request? {
      GrantKeepsCoherent(s.pools[step.pool], step.address, step.id, step.gateway, reply.outcome);
      assert !Coherent(t.pools[step.pool]);
    } else {
      ReleaseKeepsCoherent(s.pools[step.pool], s.epoch, step.address, step.id);
      assert !Coherent(t.pools[step.pool]);
    }
  }

  /** What a held address does in one step that does not give it back. */
  lemma HeldStep(s: Space, step: Step, t: Space, reply: Reply, h: Holdings, k: Text, id: Text)
    requires SpaceInv(s) && Matches(s, h) && Legal(s, step) && Next(s, step, t, reply)
    requires (k, id) in h
    ensures !GivesBack(step, k, id, h[(k, id)]) ==>
            (k, id) in Track(h, step, reply) && Track(h, step, reply)[(k, id)] == h[(k, id)]
    ensures step == Request(k, EMPTY, id, false) ==> reply == Answer(Granted(h[(k, id)]))
    ensures k in s.pools && h[(k, id)] in s.pools[k].records
    ensures s.pools[k].records[h[(k, id)]].inUse && s.pools[k].records[h[(k, id)]].owner == id
  {
    assert Coherent(s.pools[k]);
  }

  // ---------- whole runs ----------

  /** After every step of every run the index is exactly the inverse of the owner fields, and it
      says who holds what as the callers saw it. */
  lemma {:induction false} RunInvariant(r: Run, i: nat)
    requires IsRun(r) && i <= |r.steps|
    ensures SpaceInv(r.states[i]) && Matches(r.states[i], HeldAt(r, i))
  {
    if i == 0 {
      ListingInv(r.states[0]);
    } else {
      RunInvariant(r, i - 1);
      StepKeeps(r.states[i - 1], r.steps[i - 1], r.states[i], r.replies[i - 1], HeldAt(r, i - 1));
    }
  }

  /** At no point of any run do two owners hold one address of a pool. */
  lemma NoTwoOwners(r: Run, i: nat, k: Text, id1: Text, id2: Text)
    requires IsRun(r) && i <= |r.steps|
    requires (k, id1) in HeldAt(r, i) && (k, id2) in HeldAt(r, i)
    requires HeldAt(r, i)[(k, id1)] == HeldAt(r, i)[(k, id2)]
    ensures id1 == id2
  {
    RunInvariant(r, i);
    assert Coherent(r.states[i].pools[k]);
  }

  /** The address at (k, id), if any, is in use by id at point i; step i keeps the entry unless it
      gives it back, and answers a repeated request with it. */
  ghost predicate EntryKept(r: Run, i: nat, k: Text, id: Text)
    requires i < |r.steps| && |r.replies| == |r.steps|
  {
    var h := HeldAt(r, i);
    (k, id) in h ==>
      && (!GivesBack(r.steps[i], k, id, h[(k, id)]) ==>
            (k, id) in HeldAt(r, i + 1) && HeldAt(r, i + 1)[(k, id)] == h[(k, id)])
      && (r.steps[i] == Request(k, EMPTY, id, false) ==> r.replies[i] == Answer(Granted(h[(k, id)])))
  }

  lemma EntryKeptInRun(r: Run, i: nat, k: Text, id: Text)
    requires IsRun(r) && i < |r.steps|
    ensures EntryKept(r, i, k, id)
  {
    RunInvariant(r, i);
    if (k, id) in HeldAt(r, i) {
      HeldStep(r.states[i], r.steps[i], r.states[i + 1], r.replies[i], HeldAt(r, i), k, id);
    }
  }

  lemma AllEntriesKept(r: Run, k: Text, id: Text)
    requires IsRun(r)
    ensures forall i :: 0 <= i < |r.steps| ==> EntryKept(r, i, k, id)
  {
    forall i | 0 <= i < |r.steps| ensures EntryKept(r, i, k, id) { EntryKeptInRun(r, i, k, id); }
  }

  lemma {:induction false} EntryKeptBetween(r: Run, i: nat, j: nat, k: Text, id: Text)
    requires |r.replies| == |r.steps| && i <= j <= |r.steps|
    requires (k, id) in HeldAt(r, i)
    requires forall m :: i <= m < j ==> EntryKept(r, m, k, id)
    requires forall m :: i <= m < j ==> !GivesBack(r.steps[m], k, id, HeldAt(r, i)[(k, id)])
    ensures (k, id) in HeldAt(r, j) && HeldAt(r, j)[(k, id)] == HeldAt(r, i)[(k, id)]
    decreases j
  {
    if i < j {
      EntryKeptBetween(r, i, j - 1, k, id);
      assert EntryKept(r, j - 1, k, id);
    }
  }

  lemma HeldIsInUse(r: Run, i: nat, k: Text, id: Text)
    requires IsRun(r) && i <= |r.steps| && (k, id) in HeldAt(r, i)
    ensures InUseBy(r.states[i], k, HeldAt(r, i)[(k, id)], id)
  {
    RunInvariant(r, i);
    assert Coherent(r.states[i].pools[k]);
  }

  predicate InUseBy(s: Space, k: Text, a: Text, id: Text) {
    k in s.pools && a in s.pools[k].records && s.pools[k].records[a].inUse && s.pools[k].records[a].owner == id
  }

  /** A held address stays with its owner, in use, until the owner gives it back: over any number
      of steps, among them refreshes that no longer list it and restarts. An owner that asks
      again is answered with it. */
  lemma AddressStaysPut(r: Run, i: nat, j: nat, k: Text, id: Text)
    requires IsRun(r) && i <= j <= |r.steps|
    requires (k, id) in HeldAt(r, i)
    requires forall m :: i <= m < j ==> !GivesBack(r.steps[m], k, id, HeldAt(r, i)[(k, id)])
    ensures (k, id) in HeldAt(r, j) && HeldAt(r, j)[(k, id)] == HeldAt(r, i)[(k, id)]
    ensures InUseBy(r.states[j], k, HeldAt(r, i)[(k, id)], id)
    ensures j < |r.steps| && r.steps[j] == Request(k, EMPTY, id, false) ==>
            r.replies[j] == Answer(Granted(HeldAt(r, i)[(k, id)]))
  {
    AllEntriesKept(r, k, id);
    EntryKeptBetween(r, i, j, k, id);
    HeldIsInUse(r, j, k, id);
    assert j < |r.steps| ==> EntryKept(r, j, k, id);
  }

  // ---------- withdrawn addresses ----------

  predicate Present(s: Space, k: Text, a: Text) {
    k in s.pools && a in s.pools[k].records
  }

  /** Address a of pool k is gone, or it is still with its last owner and marked for deletion. */
  ghost predicate Withdrawn(s: Space, k: Text, a: Text, id: Text) {
    k in s.pools && a in s.pools[k].records ==>
      var rec := s.pools[k].records[a];
      rec.inUse && rec.owner == id && rec.epoch < s.epoch
  }

  lemma RefreshWithdraws(s: Space, n: Space, k: Text, a: Text)
    requires SpaceInv(s) && IsListing(n) && !Lists(n, k, a)
    requires k in s.pools && a in s.pools[k].records && s.pools[k].records[a].inUse
    ensures Withdrawn(Merged(s, n), k, a, s.pools[k].records[a].owner)
    ensures k in Merged(s, n).pools && a in Merged(s, n).pools[k].records
  {
    MergeOfKnownPool(s, n, k);
  }

  predicate Relists(step: Step, k: Text, a: Text) { step.Refresh? && Lists(step.listing, k, a) }

  /** The same without the mark, which a restart forgets. */
  ghost predicate Suspended(s: Space, k: Text, a: Text, id: Text) {
    Present(s, k, a) ==> s.pools[k].records[a].inUse && s.pools[k].records[a].owner == id
  }

  lemma WithdrawnRelease(p: Pool, epoch: int, address: Text, rid: Text, a: Text, id: Text)
    requires Coherent(p) && id != EMPTY
    requires !(rid == EMPTY && Releases(p, address, rid, address) && p.records[address].owner != EMPTY)
    requires a in p.records ==> p.records[a].inUse && p.records[a].owner == id && p.records[a].epoch < epoch
    ensures var q := AfterRelease(p, epoch, address, rid);
            a in q.records ==> a in p.records && q.records[a] == p.records[a]
  {
    if ReleaseTarget(p, address, rid).Some? {
      assert Releases(p, address, rid, ReleaseTarget(p, address, rid).value);
    }
  }

  lemma SuspendedRequest(p: Pool, step: Step, o: Outcome, a: Text, id: Text)
    requires Coherent(p) && id != EMPTY && step.Request?
    requires Serves(p, step.address, step.id, step.gateway, o)
    requires a in p.records ==> p.records[a].inUse && p.records[a].owner == id
    ensures var q := AfterRequest(p, step.id, o);
            a in q.records ==> a in p.records && q.records[a] == p.records[a]
    ensures o == Granted(a) ==> step.id == id && a in p.records
  {}

  lemma WithdrawnStep(s: Space, step: Step, t: Space, reply: Reply, k: Text, a: Text, id: Text)
    requires SpaceInv(s) && Legal(s, step) && Next(s, step, t, reply)
    requires Withdrawn(s, k, a, id) && !Relists(step, k, a) && !step.Restart? && id != EMPTY
    ensures Withdrawn(t, k, a, id)
    ensures !Present(s, k, a) ==> !Present(t, k, a)
    ensures step.Request? && step.pool == k && reply == Answer(Granted(a)) ==>
            step.id == id && Present(s, k, a)
  {
    match step
    case Request(_, _, _, _) =>
      if step.pool == k && k in s.pools { SuspendedRequest(s.pools[k], step, reply.outcome, a, id); }
    case Release(_, address, rid) =>
      if step.pool == k && k in s.pools { WithdrawnRelease(s.pools[k], s.epoch, address, rid, a, id); }
    case Refresh(n) =>
      if k in s.pools { MergeOfKnownPool(s, n, k); }
    case _ =>
      PoolStep(s, step, t, reply);
  }

  /** A release that does not give the address back leaves its record alone. */
  lemma SuspendedRelease(p: Pool, epoch: int, address: Text, rid: Text, a: Text, id: Text)
    requires Coherent(p) && id != EMPTY
    requires !(rid == EMPTY && Releases(p, address, rid, address) && p.records[address].owner != EMPTY)
    requires !(rid == id && (address == EMPTY || address == a))
    requires a in p.records ==> p.records[a].inUse && p.records[a].owner == id
    ensures var q := AfterRelease(p, epoch, address, rid);
            a in q.records ==> a in p.records && q.records[a] == p.records[a]
  {
    if ReleaseTarget(p, address, rid).Some? {
      assert Releases(p, address, rid, ReleaseTarget(p, address, rid).value);
    }
  }

  /** An owner keeps the address without the mark as well, as long as it does not give it back; a refresh
      without the address puts the mark back. */
  lemma SuspendedStep(s: Space, step: Step, t: Space, reply: Reply, k: Text, a: Text, id: Text)
    requires SpaceInv(s) && Legal(s, step) && Next(s, step, t, reply) && id != EMPTY
    requires Suspended(s, k, a, id) && !Relists(step, k, a) && !GivesBack(step, k, id, a)
    ensures Suspended(t, k, a, id) && (step.Refresh? ==> Withdrawn(t, k, a, id))
    ensures !Present(s, k, a) ==> !Present(t, k, a)
    ensures step.Request? && step.pool == k && reply == Answer(Granted(a)) ==>
            step.id == id && Present(s, k, a)
  {
    match step
    case Request(_, _, _, _) =>
      if step.pool == k && k in s.pools { SuspendedRequest(s.pools[k], step, reply.outcome, a, id); }
    case Release(_, address, rid) =>
      if step.pool == k && k in s.pools { SuspendedRelease(s.pools[k], s.epoch, address, rid, a, id); }
    case Refresh(n) =>
      if k in s.pools { MergeOfKnownPool(s, n, k); }
    case Restart =>
      if k in s.pools { assert RestartedPool(s.pools[k], t.pools[k]); }
    case _ =>
      PoolStep(s, step, t, reply);
  }

  /** What the step at i makes of the withdrawal of (k, a), if it does not list it again; only the last
      owner is granted it. */
  ghost predicate KeepsWithdrawal(r: Run, i: nat, k: Text, a: Text, id: Text)
    requires i < |r.steps| && |r.replies| == |r.steps| && |r.states| == |r.steps| + 1
  {
    var step, s, t := r.steps[i], r.states[i], r.states[i + 1];
    Suspended(s, k, a, id) && !Relists(step, k, a) && (Withdrawn(s, k, a, id) || !GivesBack(step, k, id, a)) ==>
      && Suspended(t, k, a, id)
      && (step.Refresh? || (Withdrawn(s, k, a, id) && !step.Restart?) ==> Withdrawn(t, k, a, id))
      && (!Present(s, k, a) ==> !Present(t, k, a))
      && (step.Request? && step.pool == k && r.replies[i] == Answer(Granted(a)) ==> step.id == id && Present(s, k, a))
  }

  lemma KeepsWithdrawalInRun(r: Run, i: nat, k: Text, a: Text, id: Text)
    requires IsRun(r) && i < |r.steps| && id != EMPTY
    ensures KeepsWithdrawal(r, i, k, a, id)
  {
    RunInvariant(r, i);
    hide SpaceInv, Legal, Next;
    var step, s := r.steps[i], r.states[i];
    if Suspended(s, k, a, id) && !Relists(step, k, a) {
      if Withdrawn(s, k, a, id) && !step.Restart? {
        WithdrawnStep(s, step, r.states[i + 1], r.replies[i], k, a, id);
      } else if !GivesBack(step, k, id, a) {
        SuspendedStep(s, step, r.states[i + 1], r.replies[i], k, a, id);
      }
    }
  }

  /** Since point i there was a restart, and no refresh after it: the mark is lost. */
  predicate Unmarked(r: Run, i: nat, m: nat)
    requires m <= |r.steps|
    decreases m
  {
    i < m && (r.steps[m - 1].Restart? || (!r.steps[m - 1].Refresh? && Unmarked(r, i, m - 1)))
  }

  /** No step between lists the address again, or gives it back while the mark is lost. */
  ghost predicate Unlisted(r: Run, i: nat, j: nat, k: Text, a: Text, id: Text)
    requires i <= j < |r.steps|
  {
    forall m {:trigger r.steps[m]} :: i <= m <= j ==>
      !Relists(r.steps[m], k, a) && !(Unmarked(r, i, m) && GivesBack(r.steps[m], k, id, a))
  }

  lemma {:induction false} WithdrawalKeptBetween(r: Run, i: nat, j: nat, k: Text, a: Text, id: Text)
    requires |r.replies| == |r.steps| && |r.states| == |r.steps| + 1 && i <= j < |r.steps|
    requires forall m :: i <= m <= j ==> KeepsWithdrawal(r, m, k, a, id)
    requires Unlisted(r, i, j, k, a, id) && Withdrawn(r.states[i], k, a, id)
    ensures Suspended(r.states[j], k, a, id) && (!Unmarked(r, i, j) ==> Withdrawn(r.states[j], k, a, id))
    ensures !Present(r.states[i], k, a) ==> !Present(r.states[j], k, a)
    decreases j
  {
    if i < j {
      WithdrawalKeptBetween(r, i, j - 1, k, a, id);
      assert KeepsWithdrawal(r, j - 1, k, a, id);
    }
  }

  /** An address withdrawn while its owner used it goes to nobody else, and to nobody at all once it is
      given back, until a refresh lists it again; also across restarts, if it is not given back between
      a restart and the next refresh. */
  lemma WithdrawnNotReissued(r: Run, i: nat, j: nat, k: Text, a: Text, id: Text)
    requires IsRun(r) && i <= j < |r.steps| && id != EMPTY
    requires Withdrawn(r.states[i], k, a, id) && Unlisted(r, i, j, k, a, id)
    ensures !Present(r.states[i], k, a) ==> !Present(r.states[j], k, a)
    ensures r.steps[j].Request? && r.steps[j].pool == k && r.replies[j] == Answer(Granted(a)) ==>
            r.steps[j].id == id && Present(r.states[i], k, a) && Present(r.states[j], k, a)
  {
    forall m | i <= m <= j ensures KeepsWithdrawal(r, m, k, a, id) { KeepsWithdrawalInRun(r, m, k, a, id); }
    WithdrawalKeptBetween(r, i, j, k, a, id);
    assert KeepsWithdrawal(r, j, k, a, id);
  }

  /** Between a restart and the next refresh every epoch is zero. */
  lemma {:induction false} UnmarkedEpochs(r: Run, i: nat, m: nat, k: Text, a: Text)
    requires IsRun(r) && m <= |r.steps| && Unmarked(r, i, m)
    ensures r.states[m].epoch == 0 && (Present(r.states[m], k, a) ==> r.states[m].pools[k].records[a].epoch == 0)
    decreases m
  {
    var s, step, t := r.states[m - 1], r.steps[m - 1], r.states[m];
    assert Next(s, step, t, r.replies[m - 1]);
    if step.Restart? {
      if k in s.pools { assert RestartedPool(s.pools[k], t.pools[k]); }
    } else {
      UnmarkedEpochs(r, i, m - 1, k, a);
      if step.AnyPool? || step.NamedPool? || step.ReleasePool? { PoolStep(s, step, t, r.replies[m - 1]); }
    }
  }

  /** The condition is exact: in every run, giving a withdrawn address back between a restart and the
      next refresh puts it on offer, and any owner without an address of the pool can be given it. */
  lemma UnmarkedGiveBackFrees(r: Run, i: nat, j: nat, k: Text, a: Text, id: Text, other: Text)
    requires IsRun(r) && i <= j < |r.steps| && id != EMPTY
    requires Withdrawn(r.states[i], k, a, id) && (i < j ==> Unlisted(r, i, j - 1, k, a, id))
    requires Unmarked(r, i, j) && GivesBack(r.steps[j], k, id, a) && Present(r.states[j], k, a)
    requires other !in r.states[j].pools[k].index
    ensures k in r.states[j + 1].pools && Free(r.states[j + 1].pools[k], a)
    ensures Serves(r.states[j + 1].pools[k], EMPTY, other, false, Granted(a))
  {
    StillSuspended(r, i, j, k, a, id);
    UnmarkedEpochs(r, i, j, k, a);
    RunInvariant(r, j);
    var s, step, t, reply := r.states[j], r.steps[j], r.states[j + 1], r.replies[j];
    assert Next(s, step, t, reply);
    hide IsRun, Unlisted, Unmarked, Withdrawn, Next;
    GiveBackStep(s, step, t, reply, k, a, id, other);
  }

  lemma StillSuspended(r: Run, i: nat, j: nat, k: Text, a: Text, id: Text)
    requires IsRun(r) && i <= j < |r.steps| && id != EMPTY
    requires Withdrawn(r.states[i], k, a, id) && (i < j ==> Unlisted(r, i, j - 1, k, a, id))
    ensures Suspended(r.states[j], k, a, id)
  {
    if i < j {
      forall m | i <= m < j ensures KeepsWithdrawal(r, m, k, a, id) { KeepsWithdrawalInRun(r, m, k, a, id); }
      WithdrawalKeptBetween(r, i, j - 1, k, a, id);
      hide IsRun, Withdrawn, Suspended;
      assert KeepsWithdrawal(r, j - 1, k, a, id);
    }
  }

  lemma GiveBackStep(s: Space, step: Step, t: Space, reply: Reply, k: Text, a: Text, id: Text, other: Text)
    requires SpaceInv(s) && Next(s, step, t, reply) && id != EMPTY && Present(s, k, a) && Suspended(s, k, a, id)
    requires GivesBack(step, k, id, a) && s.pools[k].records[a].epoch >= s.epoch && other !in s.pools[k].index
    ensures k in t.pools && Free(t.pools[k], a) && Serves(t.pools[k], EMPTY, other, false, Granted(a))
  {
    hide Coherent, Serves, Free, AfterRelease;
    GiveBackFrees(s.pools[k], s.epoch, step.address, a, id, other);
  }

  lemma GiveBackFrees(p: Pool, epoch: int, address: Text, a: Text, id: Text, other: Text)
    requires Coherent(p) && a in p.records && p.records[a].inUse && p.records[a].owner == id && id != EMPTY
    requires p.records[a].epoch >= epoch && address in {EMPTY, a} && other !in p.index
    ensures var q := AfterRelease(p, epoch, address, id); Free(q, a) && Serves(q, EMPTY, other, false, Granted(a))
  {
    assert Releases(p, address, id, a);
    var q := AfterRelease(p, epoch, address, id);
    assert Free(q, a) && AnyFree(q);
  }

  /** A restart forgets the mark: a release before the next refresh puts any withdrawn address back on
      offer, and another owner can be given it. */
  lemma RestartForgetsWithdrawal(s: Space, t: Space, k: Text, a: Text, id: Text, other: Text)
    requires SpaceInv(s) && RestartOf(s, t)
    requires k in s.pools && a in s.pools[k].records && Withdrawn(s, k, a, id) && id != EMPTY
    requires other != EMPTY && other != id && other !in s.pools[k].index
    ensures k in t.pools
    ensures var p := AfterRelease(t.pools[k], t.epoch, EMPTY, id);
            Free(p, a) && Serves(p, EMPTY, other, false, Granted(a))
  {
    assert RestartedPool(s.pools[k], t.pools[k]) && Coherent(s.pools[k]);
    RebuiltIsKept(s.pools[k], t.pools[k].index);
    var p := AfterRelease(t.pools[k], t.epoch, EMPTY, id);
    assert Releases(t.pools[k], EMPTY, id, a);
    assert Free(p, a) && AnyFree(p);
  }

  // ---------- only listed addresses ----------

  /** Only a refresh that lists an address brings it into a pool. */
  lemma PresentStep(s: Space, step: Step, t: Space, reply: Reply, k: Text, a: Text)
    requires Next(s, step, t, reply) && Present(t, k, a)
    ensures Present(s, k, a) || Relists(step, k, a)
  {
    match step
    case Request(_, _, _, _) =>
    case Release(_, _, _) =>
    case Refresh(n) => if k in s.pools { MergeOfKnownPool(s, n, k); }
    case Restart => if k in s.pools { assert RestartedPool(s.pools[k], t.pools[k]); }
    case _ => PoolStep(s, step, t, reply);
  }

  /** Every address of a pool was in the first listing or in that of an earlier refresh. */
  ghost predicate WasListed(r: Run, i: nat, k: Text, a: Text)
    requires i <= |r.steps| && |r.states| > 0
  {
    Lists(r.states[0], k, a) || exists m :: 0 <= m < i && Relists(r.steps[m], k, a)
  }

  lemma {:induction false} PresentWasListed(r: Run, i: nat, k: Text, a: Text)
    requires IsRun(r) && i <= |r.steps| && Present(r.states[i], k, a)
    ensures WasListed(r, i, k, a)
  {
    if i > 0 {
      var step := r.steps[i - 1];
      PresentStep(r.states[i - 1], step, r.states[i], r.replies[i - 1], k, a);
      if !Relists(step, k, a) { PresentWasListed(r, i - 1, k, a); }
    }
  }

  /** If no address was ever listed for two pools, no address is ever held twice, in whatever pools. */
  lemma NoTwoHolders(r: Run, i: nat, k1: Text, id1: Text, k2: Text, id2: Text)
    requires IsRun(r) && i <= |r.steps|
    requires forall k, k', a :: WasListed(r, i, k, a) && WasListed(r, i, k', a) ==> k == k'
    requires (k1, id1) in HeldAt(r, i) && (k2, id2) in HeldAt(r, i)
    requires HeldAt(r, i)[(k1, id1)] == HeldAt(r, i)[(k2, id2)]
    ensures k1 == k2 && id1 == id2
  {
    var a := HeldAt(r, i)[(k1, id1)];
    HeldIsInUse(r, i, k1, id1);
    HeldIsInUse(r, i, k2, id2);
    PresentWasListed(r, i, k1, a);
    PresentWasListed(r, i, k2, a);
    NoTwoOwners(r, i, k1, id1, id2);
  }

  /** No run ever grants an address that no source listed before for that pool. */
  lemma GrantedWasListed(r: Run, j: nat, k: Text, a: Text)
    requires IsRun(r) && j < |r.steps|
    requires r.steps[j].Request? && r.steps[j].pool == k && r.replies[j] == Answer(Granted(a))
    ensures WasListed(r, j, k, a)
  {
    RunInvariant(r, j);
    var s, step := r.states[j], r.steps[j];
    assert Next(s, step, r.states[j + 1], r.replies[j]);
    GrantKeepsCoherent(s.pools[k], step.address, step.id, step.gateway, Granted(a));
    PresentWasListed(r, j, k, a);
  }

  // ---------- pools handed out ----------

  /** A run in which addresses are only requested from referenced pools. */
  ghost predicate AsksReferencedPools(r: Run)
    requires |r.states| == |r.steps| + 1
  {
    forall i {:trigger r.steps[i]} ::
      0 <= i < |r.steps| && r.steps[i].Request? && r.steps[i].pool in r.states[i].pools ==>
      r.states[i].pools[r.steps[i].pool].refCount > 0
  }

  lemma MergeKeepsReferenced(s: Space, n: Space)
    requires UsedOnlyWhenReferenced(s.pools) && IsListing(n)
    ensures UsedOnlyWhenReferenced(Merged(s, n).pools)
  {
    var t := Merged(s, n);
    forall k | k in t.pools && AnyRecordInUse(t.pools[k])
      ensures t.pools[k].refCount > 0
    {
      var a :| a in t.pools[k].records && (t.pools[k].records[a].inUse || t.pools[k].records[a].owner != EMPTY);
      if k in s.pools {
        MergeOfKnownPool(s, n, k);
        if a !in s.pools[k].records { ListedUnused(n, k, a); }
        assert AnyRecordInUse(s.pools[k]);
      } else {
        ListedUnused(n, k, a);
        assert false;
      }
    }
  }

  lemma ListedUnused(n: Space, k: Text, a: Text)
    requires IsListing(n) && Lists(n, k, a)
    ensures !n.pools[k].records[a].inUse && n.pools[k].records[a].owner == EMPTY
  {
    assert IsListingPool(n.pools[k]);
  }

  lemma RestartKeepsReferenced(s: Space, t: Space)
    requires UsedOnlyWhenReferenced(s.pools) && RestartOf(s, t)
    ensures UsedOnlyWhenReferenced(t.pools)
  {
    forall k | k in t.pools && AnyRecordInUse(t.pools[k])
      ensures t.pools[k].refCount > 0
    {
      assert RestartedPool(s.pools[k], t.pools[k]);
      var a :| a in t.pools[k].records && (t.pools[k].records[a].inUse || t.pools[k].records[a].owner != EMPTY);
      assert AnyRecordInUse(s.pools[k]);
    }
  }

  lemma ReleaseUsesNoMore(p: Pool, epoch: int, address: Text, id: Text)
    ensures AnyRecordInUse(AfterRelease(p, epoch, address, id)) ==> AnyRecordInUse(p)
    ensures AfterRelease(p, epoch, address, id).refCount == p.refCount
  {
    var q := AfterRelease(p, epoch, address, id);
    if AnyRecordInUse(q) {
      var a :| a in q.records && (q.records[a].inUse || q.records[a].owner != EMPTY);
      assert a in p.records;
    }
  }

  lemma StepKeepsReferenced(s: Space, step: Step, t: Space, reply: Reply)
    requires UsedOnlyWhenReferenced(s.pools) && Next(s, step, t, reply)
    requires step.Request? && step.pool in s.pools ==> s.pools[step.pool].refCount > 0
    ensures UsedOnlyWhenReferenced(t.pools)
  {
    hide AnyRecordInUse;
    match step
    case Request(k, _, id, _) =>
    case Release(k, address, id) => if k in s.pools { ReleaseUsesNoMore(s.pools[k], s.epoch, address, id); }
    case AnyPool(ifName, v6) =>
      var order :| Visits(order, s.pools.Keys) && t.pools == AfterAnyPool(s.pools, Scan(s.pools, order, ifName, v6));
      AnyPoolRequest(s.pools, order, ifName, v6);
    case NamedPool(k) => if k in s.pools { SameRecordsSameUse(s.pools[k], Referenced(s.pools[k])); }
    case ReleasePool(k) => if k in s.pools { SameRecordsSameUse(s.pools[k], Settled(s.pools[k])); }
    case Refresh(n) => MergeKeepsReferenced(s, n);
    case Restart => RestartKeepsReferenced(s, t);
  }

  lemma SameRecordsSameUse(p: Pool, q: Pool)
    requires p.records == q.records
    ensures AnyRecordInUse(p) <==> AnyRecordInUse(q)
  {}

  lemma {:induction false} ReferencedOverRuns(r: Run, i: nat)
    requires IsRun(r) && AsksReferencedPools(r) && i <= |r.steps|
    ensures UsedOnlyWhenReferenced(r.states[i].pools)
  {
    if i == 0 {
      forall k | k in r.states[0].pools ensures !AnyRecordInUse(r.states[0].pools[k]) {
        assert IsListingPool(r.states[0].pools[k]);
      }
    } else {
      ReferencedOverRuns(r, i - 1);
      StepKeepsReferenced(r.states[i - 1], r.steps[i - 1], r.states[i], r.replies[i - 1]);
    }
  }

  /** In a run that requests addresses only from referenced pools, a request for any pool never hands
      out one with an address in use. */
  lemma PoolHandedOutIsUnused(r: Run, i: nat, ifName: Text, v6: bool, k: Text)
    requires IsRun(r) && AsksReferencedPools(r) && i < |r.steps|
    requires r.steps[i] == AnyPool(ifName, v6) && r.replies[i] == Picked(k)
    ensures k in r.states[i].pools && !AnyRecordInUse(r.states[i].pools[k])
  {
    ReferencedOverRuns(r, i);
    var s := r.states[i];
    assert Next(s, r.steps[i], r.states[i + 1], r.replies[i]);
    var order :| Visits(order, s.pools.Keys) && Scan(s.pools, order, ifName, v6) == Some(k);
    AnyPoolRequest(s.pools, order, ifName, v6);
  }
}
