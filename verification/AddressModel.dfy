/** The address allocator of ipam/pool.go on values: what one request, release, pool request
    and refresh makes of a pool or an address space. The classes in AddressObjects.dfy are proved
    against these definitions; the theorems about whole runs are in AddressRuns.dfy.

    Owner IDs, addresses, pool keys and interface names are texts; only their equality matters. The
    empty text stands for "no owner", "no address given" or "any interface", as in the source. */
module AddressModel {
  import opened Basics

  type Text(==, 0, !new)
  const EMPTY: Text

  datatype Record = Record(owner: Text, inUse: bool, unhealthy: bool, epoch: int)

  /** `index` is the second map of a pool: owner to the address of its record. */
  datatype Pool = Pool(
    ifName: Text, isIPv6: bool, priority: int, gateway: Text,
    refCount: int, epoch: int,
    records: map<Text, Record>, index: map<Text, Text>)

  datatype Space = Space(epoch: int, pools: map<Text, Pool>)

  function NewRecord(epoch: int): Record { Record(EMPTY, false, false, epoch) }

  // ---------- the invariant of one pool ----------

  ghost predicate IndexIsInverse(records: map<Text, Record>, index: map<Text, Text>) {
    && (forall id :: id in index ==>
          id != EMPTY && index[id] in records && records[index[id]].owner == id)
    && (forall a :: a in records && records[a].owner != EMPTY ==>
          records[a].owner in index && index[records[a].owner] == a)
  }

  ghost predicate LabelledInUse(records: map<Text, Record>) {
    forall a :: a in records && records[a].owner != EMPTY ==> records[a].inUse
  }

  ghost predicate Coherent(p: Pool) {
    IndexIsInverse(p.records, p.index) && LabelledInUse(p.records)
  }

  /** What rebuilding the index from the records can give, in whatever order they are read. */
  ghost predicate IsRebuilt(records: map<Text, Record>, index: map<Text, Text>) {
    && (forall id :: id in index ==>
          id != EMPTY && index[id] in records && records[index[id]].owner == id)
    && (forall a :: a in records && records[a].owner != EMPTY ==> records[a].owner in index)
  }

  /** On a coherent pool the rebuilt index is the one kept step by step. */
  lemma RebuiltIsKept(p: Pool, index: map<Text, Text>)
    requires Coherent(p) && IsRebuilt(p.records, index)
    ensures index == p.index
  {
    assert index.Keys == p.index.Keys by {
      forall id | id in p.index ensures id in index {
        assert p.records[p.index[id]].owner == id;
      }
    }
  }

  // ---------- requesting an address ----------

  datatype Outcome = NotFound | AddressInUse | Exhausted | GatewayAddress | Granted(address: Text)

  predicate Free(p: Pool, a: Text) {
    a in p.records && !p.records[a].inUse && p.records[a].owner == EMPTY
  }

  ghost predicate AnyFree(p: Pool) {
    exists a :: Free(p, a)
  }

  /** Which outcomes a request may have. Only the scan for a free record leaves a choice. */
  ghost predicate Serves(p: Pool, address: Text, id: Text, gateway: bool, o: Outcome) {
    if address != EMPTY then
      if address !in p.records then o == NotFound
      else if p.records[address].inUse && (id == EMPTY || id != p.records[address].owner) then
        o == AddressInUse
      else o == Granted(address)
    else if gateway then o == GatewayAddress
    else if id != EMPTY && id in p.index then o == Granted(p.index[id])
    else if AnyFree(p) then o.Granted? && Free(p, o.address)
    else o == Exhausted
  }

  function WithRecord(p: Pool, a: Text, r: Record): Pool {
    p.(records := p.records[a := r])
  }

  function AfterGrant(p: Pool, id: Text, a: Text): Pool
    requires a in p.records
  {
    var r := p.records[a];
    if id == EMPTY then p.(records := p.records[a := r.(inUse := true)])
    else p.(records := p.records[a := r.(owner := id, inUse := true)], index := p.index[id := a])
  }

  ghost function AfterRequest(p: Pool, id: Text, o: Outcome): Pool {
    if o.Granted? && o.address in p.records then AfterGrant(p, id, o.address) else p
  }

  /** From a coherent pool a grant keeps the pool coherent except in one family: an explicitly
      named address for an owner that already holds another one. */
  lemma GrantKeepsCoherent(p: Pool, address: Text, id: Text, gateway: bool, o: Outcome)
    requires Coherent(p) && Serves(p, address, id, gateway, o)
    ensures o.Granted? ==> o.address in p.records
    ensures Coherent(AfterRequest(p, id, o)) <==>
            !(o.Granted? && address != EMPTY && id in p.index && p.index[id] != address)
  {
    if o.Granted? {
      var q := AfterRequest(p, id, o);
      if address != EMPTY && id in p.index && p.index[id] != address {
        var held := p.index[id];
        assert q.records[held].owner == id && q.index[id] == address;
      } else {
        LabelKeepsCoherent(p, id, o.address);
      }
    }
  }

  lemma LabelKeepsCoherent(p: Pool, id: Text, a: Text)
    requires Coherent(p) && a in p.records
    requires id != EMPTY ==> p.records[a].owner in {EMPTY, id} && (id in p.index ==> p.index[id] == a)
    ensures Coherent(AfterGrant(p, id, a))
  {}

  /** Two granted requests of one owner that name no address get the same address. */
  lemma SameOwnerSameAddress(p: Pool, id: Text, o1: Outcome, o2: Outcome)
    requires id != EMPTY
    requires Serves(p, EMPTY, id, false, o1) && o1.Granted?
    requires o1.address in p.records
    requires Serves(AfterRequest(p, id, o1), EMPTY, id, false, o2)
    ensures o2 == o1 && AfterRequest(AfterRequest(p, id, o1), id, o2) == AfterRequest(p, id, o1)
  {
    var q := AfterRequest(p, id, o1);
    assert AfterRequest(q, id, o2).records == q.records;
    assert AfterRequest(q, id, o2).index == q.index;
  }

  // ---------- releasing an address ----------

  predicate Releases(p: Pool, address: Text, id: Text, a: Text) {
    && a in p.records
    && p.records[a].inUse
    && (id != EMPTY ==> id == p.records[a].owner)
    && (if address != EMPTY then a == address else id != EMPTY && id in p.index && a == p.index[id])
  }

  function ReleaseTarget(p: Pool, address: Text, id: Text): (t: Option<Text>)
    ensures forall a :: t == Some(a) <==> Releases(p, address, id, a)
  {
    var a := if address != EMPTY then address else if id != EMPTY && id in p.index then p.index[id] else EMPTY;
    if Releases(p, address, id, a) then Some(a) else None
  }

  function Freed(p: Pool, a: Text, id: Text, spaceEpoch: int): Pool
    requires a in p.records
  {
    var r := p.records[a];
    p.(records := if r.epoch < spaceEpoch then p.records - {a}
                  else p.records[a := r.(inUse := false, owner := if id != EMPTY then EMPTY else r.owner)],
       index := if id != EMPTY then p.index - {id} else p.index)
  }

  function AfterRelease(p: Pool, spaceEpoch: int, address: Text, id: Text): Pool {
    match ReleaseTarget(p, address, id)
    case None => p
    case Some(a) => Freed(p, a, id, spaceEpoch)
  }

  /** A release keeps a coherent pool coherent exactly when it does not free a labelled record
      without giving the label. */
  lemma ReleaseKeepsCoherent(p: Pool, spaceEpoch: int, address: Text, id: Text)
    requires Coherent(p)
    ensures Coherent(AfterRelease(p, spaceEpoch, address, id)) <==>
            !(id == EMPTY && Releases(p, address, id, address) && p.records[address].owner != EMPTY)
  {
    var q := AfterRelease(p, spaceEpoch, address, id);
    if id == EMPTY && Releases(p, address, id, address) && p.records[address].owner != EMPTY {
      var owner := p.records[address].owner;
      assert owner in q.index && q.index[owner] == address;
      if address in q.records {
        assert q.records[address].owner == owner && !q.records[address].inUse;
      }
    }
  }

  // ---------- what getInfo reports ----------

  function Unused(records: map<Text, Record>): (s: set<Text>) {
    set a | a in records && !records[a].inUse
  }

  function Unhealthy(records: map<Text, Record>): (s: set<Text>) {
    set a | a in records && records[a].unhealthy
  }

  lemma UnhealthyAre(records: map<Text, Record>)
    ensures forall a :: a in Unhealthy(records) <==> a in records && records[a].unhealthy
  {}

  lemma InfoOf(records: map<Text, Record>, a: Text)
    requires a in records
    ensures a in Unused(records) <==> !records[a].inUse
    ensures a in Unhealthy(records) <==> records[a].unhealthy
    ensures Unused(records) <= records.Keys && Unhealthy(records) <= records.Keys
  {}

  lemma VisitOne(s: set<Text>, todo: set<Text>, a: Text)
    requires a in todo
    ensures s - (todo - {a}) == s - todo + if a in s then {a} else {}
    ensures |s - (todo - {a})| == |s - todo| + if a in s then 1 else 0
  {
    if a in s {
      assert s - (todo - {a}) == s - todo + {a};
    } else {
      assert s - (todo - {a}) == s - todo;
    }
  }

  function Available(p: Pool): nat { |Unused(p.records)| }

  function Capacity(p: Pool): nat { |p.records| }

  /** A request for an unbound owner fails exactly when no record is both unused and unlabelled;
      otherwise it lowers the available count by one and leaves the capacity. */
  lemma NewAllocationCounts(p: Pool, id: Text, o: Outcome)
    requires Serves(p, EMPTY, id, false, o) && id !in p.index
    ensures o == Exhausted <==> !AnyFree(p)
    ensures o != Exhausted ==> o.Granted? && o.address in p.records
    ensures o != Exhausted ==> Available(AfterRequest(p, id, o)) == Available(p) - 1
    ensures o != Exhausted ==> Capacity(AfterRequest(p, id, o)) == Capacity(p)
  {
    if o != Exhausted {
      var q := AfterRequest(p, id, o);
      assert Unused(q.records) == Unused(p.records) - {o.address};
      assert q.records.Keys == p.records.Keys;
    }
  }

  /** An effective release raises the available count by one, or lowers the capacity by one when
      the record is stale. */
  lemma ReleaseCounts(p: Pool, spaceEpoch: int, address: Text, id: Text, a: Text)
    requires Releases(p, address, id, a)
    ensures var q := AfterRelease(p, spaceEpoch, address, id);
            if p.records[a].epoch < spaceEpoch
            then Available(q) == Available(p) && Capacity(q) == Capacity(p) - 1 && a !in q.records
            else Available(q) == Available(p) + 1 && Capacity(q) == Capacity(p) && a in q.records
  {
    var q := AfterRelease(p, spaceEpoch, address, id);
    assert ReleaseTarget(p, address, id) == Some(a);
    if p.records[a].epoch < spaceEpoch {
      assert q.records.Keys == p.records.Keys - {a};
      assert Unused(q.records) == Unused(p.records);
    } else {
      assert q.records.Keys == p.records.Keys;
      assert Unused(q.records) == Unused(p.records) + {a};
    }
  }

  // ---------- requesting and releasing a pool ----------

  predicate AnyRecordInUse(p: Pool) {
    exists a :: a in p.records && (p.records[a].inUse || p.records[a].owner != EMPTY)
  }

  /** The reference count a pool is left with once it has been offered for release. */
  function Settled(p: Pool): Pool {
    if AnyRecordInUse(p) then p else p.(refCount := 0)
  }

  function Settle(p: Pool): Pool {
    if p.refCount > 0 then Settled(p) else p
  }

  predicate Candidate(p: Pool, ifName: Text, v6: bool) {
    && Settle(p).refCount <= 0
    && p.isIPv6 == v6
    && (ifName != EMPTY ==> ifName == p.ifName)
  }

  predicate Preferred(p: Pool, q: Pool) {
    p.priority > q.priority || |p.records| > |q.records|
  }

  /** The pool the scan of requestPool has picked after visiting `order`. */
  function Scan(pools: map<Text, Pool>, order: seq<Text>, ifName: Text, v6: bool): Option<Text>
    requires forall k <- order :: k in pools
  {
    if order == [] then None else
    var last := order[|order| - 1];
    var best := Scan(pools, order[..|order| - 1], ifName, v6);
    if !Candidate(pools[last], ifName, v6) then best
    else if best.None? || best.value !in pools || Preferred(pools[last], pools[best.value])
    then Some(last) else best
  }

  predicate Visits(order: seq<Text>, keys: set<Text>) {
    && (forall k <- order :: k in keys)
    && (forall k <- keys :: k in order)
    && (forall i, j :: 0 <= i < j < |order| ==> order[i] != order[j])
  }

  function Referenced(p: Pool): Pool {
    if p.refCount == 0 then p.(refCount := 1) else p
  }

  function AfterAnyPool(pools: map<Text, Pool>, picked: Option<Text>): map<Text, Pool> {
    map k | k in pools ::
      if picked == Some(k) then Referenced(Settle(pools[k])) else Settle(pools[k])
  }

  /** The pools once the visits of `order` have tried to release them. */
  function SettledBy(pools: map<Text, Pool>, order: seq<Text>): map<Text, Pool> {
    map k | k in pools :: if k in order then Settle(pools[k]) else pools[k]
  }

  lemma ScanNothing(pools: map<Text, Pool>, ifName: Text, v6: bool)
    ensures Scan(pools, [], ifName, v6) == None && SettledBy(pools, []) == pools
  {}

  lemma AfterSettled(pools: map<Text, Pool>, order: seq<Text>, picked: Option<Text>)
    requires Visits(order, pools.Keys) && (picked.Some? ==> picked.value in pools)
    ensures picked.None? ==> AfterAnyPool(pools, picked) == SettledBy(pools, order)
    ensures picked.Some? ==>
              var p := SettledBy(pools, order)[picked.value];
              && AfterAnyPool(pools, picked) == SettledBy(pools, order)[picked.value := Referenced(p)]
              && (p.refCount != 0 ==> AfterAnyPool(pools, picked) == SettledBy(pools, order))
  {
    forall k | k in pools ensures SettledBy(pools, order)[k] == Settle(pools[k]) {}
  }

  /** One more visit, in the terms of Scan. The pools visited so far keep priority and records. */
  lemma ScanStep(pools: map<Text, Pool>, order: seq<Text>, k: Text, ifName: Text, v6: bool)
    requires (forall j <- order :: j in pools) && k in pools && k !in order
    ensures SettledBy(pools, order)[k] == pools[k]
    ensures SettledBy(pools, order + [k]) == SettledBy(pools, order)[k := Settle(pools[k])]
    ensures var best := Scan(pools, order, ifName, v6);
            && (best.Some? ==> best.value in pools)
            && Scan(pools, order + [k], ifName, v6) ==
                 if !Candidate(pools[k], ifName, v6) then best
                 else if best.None? || Preferred(pools[k], SettledBy(pools, order)[best.value]) then Some(k)
                 else best
  {
    ScanPicksCandidate(pools, order, ifName, v6);
    assert (order + [k])[..|order|] == order;
  }

  lemma {:induction false} ScanPicksCandidate(pools: map<Text, Pool>, order: seq<Text>, ifName: Text, v6: bool)
    requires forall k <- order :: k in pools
    ensures var r := Scan(pools, order, ifName, v6);
            && (r.Some? ==> r.value in order && Candidate(pools[r.value], ifName, v6))
            && (r.None? ==> forall k <- order :: !Candidate(pools[k], ifName, v6))
  {
    if order != [] {
      ScanPicksCandidate(pools, order[..|order| - 1], ifName, v6);
      assert order == order[..|order| - 1] + [order[|order| - 1]];
    }
  }

  /** With all candidates of one priority the pick has the most addresses; with all candidates of
      one size it has the highest priority. */
  lemma {:induction false} ScanTies(pools: map<Text, Pool>, order: seq<Text>, ifName: Text, v6: bool)
    requires forall k <- order :: k in pools
    ensures var r := Scan(pools, order, ifName, v6);
            r.Some? ==> r.value in pools
    ensures var r := Scan(pools, order, ifName, v6);
            r.Some? &&
            (forall k <- order :: Candidate(pools[k], ifName, v6) ==> pools[k].priority == pools[r.value].priority) ==>
              forall k <- order :: Candidate(pools[k], ifName, v6) ==> |pools[k].records| <= |pools[r.value].records|
    ensures var r := Scan(pools, order, ifName, v6);
            r.Some? &&
            (forall k <- order :: Candidate(pools[k], ifName, v6) ==>
               |pools[k].records| == |pools[r.value].records|) ==>
              forall k <- order :: Candidate(pools[k], ifName, v6) ==> pools[k].priority <= pools[r.value].priority
  {
    if order != [] {
      var front, last := order[..|order| - 1], order[|order| - 1];
      ScanTies(pools, front, ifName, v6);
      ScanPicksCandidate(pools, front, ifName, v6);
      assert order == front + [last];
    }
  }

  /** A request for any pool succeeds exactly when some pool of the family and interface is
      unreferenced or has no live allocation. When addresses are only taken from referenced
      pools, the pool handed out has none in use. Both hold for every order of the scan. */
  lemma AnyPoolRequest(pools: map<Text, Pool>, order: seq<Text>, ifName: Text, v6: bool)
    requires Visits(order, pools.Keys)
    ensures var r := Scan(pools, order, ifName, v6);
            && (r.Some? <==> exists k :: k in pools && Candidate(pools[k], ifName, v6))
            && (r.Some? ==> r.value in pools && Candidate(pools[r.value], ifName, v6))
            && (r.Some? && UsedOnlyWhenReferenced(pools) ==> !AnyRecordInUse(pools[r.value]))
    ensures var r := Scan(pools, order, ifName, v6);
            UsedOnlyWhenReferenced(pools) ==> UsedOnlyWhenReferenced(AfterAnyPool(pools, r))
  {
    ScanPicksCandidate(pools, order, ifName, v6);
  }

  ghost predicate UsedOnlyWhenReferenced(pools: map<Text, Pool>) {
    forall k :: k in pools && AnyRecordInUse(pools[k]) ==> pools[k].refCount > 0
  }

  /** Priority and size together give no order: the same two pools, visited the other way round,
      give the other pick. */
  lemma MixedPreferenceDependsOnOrder(pools: map<Text, Pool>, hi: Text, big: Text, ifName: Text, v6: bool)
    requires hi in pools && big in pools
    requires Candidate(pools[hi], ifName, v6) && Candidate(pools[big], ifName, v6)
    requires pools[hi].priority > pools[big].priority && |pools[big].records| > |pools[hi].records|
    ensures Scan(pools, [hi, big], ifName, v6) == Some(big)
    ensures Scan(pools, [big, hi], ifName, v6) == Some(hi)
  {
    assert [hi, big][..1] == [hi] && [big, hi][..1] == [big];
    assert Scan(pools, [hi], ifName, v6) == Some(hi);
    assert Scan(pools, [big], ifName, v6) == Some(big);
  }

  // ---------- merging a refresh ----------

  /** An address space as a source builds it: nothing used, labelled, referenced or indexed, and
      every epoch zero. */
  ghost predicate IsListing(n: Space) {
    && n.epoch == 0
    && forall k :: k in n.pools ==> IsListingPool(n.pools[k])
  }

  ghost predicate IsListingPool(p: Pool) {
    && p.epoch == 0 && p.refCount == 0 && p.index == map[]
    && forall a :: a in p.records ==> p.records[a] == NewRecord(0)
  }

  predicate Lists(n: Space, k: Text, a: Text) {
    k in n.pools && a in n.pools[k].records
  }

  /** Epochs never run ahead of the space, so only this refresh can carry the new epoch. */
  ghost predicate EpochsBounded(s: Space) {
    && 0 <= s.epoch
    && (forall k :: k in s.pools ==> s.pools[k].epoch <= s.epoch)
    && (forall k, a :: k in s.pools && a in s.pools[k].records ==> s.pools[k].records[a].epoch <= s.epoch)
  }

  ghost predicate SpaceInv(s: Space) {
    EpochsBounded(s) && forall k :: k in s.pools ==> Coherent(s.pools[k])
  }

  /** One record of a pre-existing pool after a refresh that lists it or not. */
  function MergedRecord(r: Record, listed: bool, epoch: int): Record {
    if listed then r.(epoch := epoch, unhealthy := false) else r.(unhealthy := true)
  }

  function MergedRecords(had: map<Text, Record>, listed: map<Text, Record>, epoch: int): map<Text, Record> {
    map a | a in had.Keys + listed.Keys && (a in listed || had[a].inUse) ::
      if a in had then MergedRecord(had[a], a in listed, epoch) else listed[a].(epoch := epoch)
  }

  function ListedRecords(n: Space, k: Text): map<Text, Record> {
    if k in n.pools then n.pools[k].records else map[]
  }

  function MergedPool(p: Pool, listed: map<Text, Record>, epoch: int): Pool {
    var records := MergedRecords(p.records, listed, epoch);
    p.(records := records, epoch := if records != map[] then epoch else p.epoch)
  }

  predicate Survives(p: Pool, listed: map<Text, Record>) {
    || listed != map[]
    || (exists a :: a in p.records && p.records[a].inUse)
    || p.refCount > 0
  }

  /** The whole effect of merge. Nothing here depends on the order the maps are walked in. */
  function Merged(s: Space, n: Space): Space {
    var e := s.epoch + 1;
    Space(e, map k | k in s.pools.Keys + n.pools.Keys &&
                     (k in s.pools ==> Survives(s.pools[k], ListedRecords(n, k))) ::
               if k in s.pools then MergedPool(s.pools[k], ListedRecords(n, k), e)
               else n.pools[k].(epoch := e))
  }

  // ---------- merge as the source runs it: fold the listing in, then sweep ----------

  /** The records of a known pool once the listed ones are folded in. */
  function Absorbed(mine: map<Text, Record>, listed: map<Text, Record>, epoch: int): map<Text, Record> {
    map a | a in mine.Keys + listed.Keys ::
      if a in mine then (if a in listed then mine[a].(epoch := epoch, unhealthy := false) else mine[a])
      else listed[a].(epoch := epoch)
  }

  function AbsorbedOne(mine: map<Text, Record>, a: Text, listed: Record, epoch: int): map<Text, Record> {
    mine[a := if a in mine then mine[a].(epoch := epoch, unhealthy := false) else listed.(epoch := epoch)]
  }

  lemma AbsorbedStep(mine: map<Text, Record>, listed: map<Text, Record>, a: Text, epoch: int)
    requires a in listed
    ensures Absorbed(AbsorbedOne(mine, a, listed[a], epoch), listed - {a}, epoch) == Absorbed(mine, listed, epoch)
  {}

  lemma AbsorbedNothing(mine: map<Text, Record>, listed: map<Text, Record>, epoch: int)
    requires listed.Keys == {}
    ensures Absorbed(mine, listed, epoch) == mine
  {}

  predicate Keeps(r: Record, epoch: int) { r.epoch == epoch || r.inUse }

  function SweptRecord(r: Record, epoch: int): Record {
    if r.epoch == epoch then r else r.(unhealthy := true)
  }

  /** The records of a pool once the sweep has visited `done`. */
  function SweptRecords(records: map<Text, Record>, done: set<Text>, epoch: int): map<Text, Record> {
    map a | a in records && (a in done ==> Keeps(records[a], epoch)) ::
      if a in done then SweptRecord(records[a], epoch) else records[a]
  }

  predicate AnyKept(records: map<Text, Record>, done: set<Text>, epoch: int) {
    exists a :: a in done && a in records && Keeps(records[a], epoch)
  }

  function SweptSoFar(p: Pool, done: set<Text>, epoch: int): Pool {
    p.(records := SweptRecords(p.records, done, epoch),
       epoch := if AnyKept(p.records, done, epoch) then epoch else p.epoch)
  }

  function Swept(p: Pool, epoch: int): Pool {
    SweptSoFar(p, p.records.Keys, epoch)
  }

  function SweptOne(p: Pool, a: Text, epoch: int): Pool
    requires a in p.records
  {
    if Keeps(p.records[a], epoch)
    then p.(records := p.records[a := SweptRecord(p.records[a], epoch)], epoch := epoch)
    else p.(records := p.records - {a})
  }

  lemma SweptNothing(p: Pool, done: set<Text>, epoch: int)
    requires done == {}
    ensures SweptSoFar(p, done, epoch) == p
  {}

  lemma SweptGrows(p: Pool, done: set<Text>, a: Text, epoch: int)
    requires a in p.records && a !in done
    ensures a in SweptSoFar(p, done, epoch).records
    ensures SweptOne(SweptSoFar(p, done, epoch), a, epoch) == SweptSoFar(p, done + {a}, epoch)
  {
    var q := SweptSoFar(p, done, epoch);
    assert SweptOne(q, a, epoch).records == SweptRecords(p.records, done + {a}, epoch);
    assert AnyKept(p.records, done + {a}, epoch) <==> AnyKept(p.records, done, epoch) || Keeps(p.records[a], epoch);
  }

  /** Folding in and sweeping give the records the refresh lists plus the ones in use. */
  lemma SweepMerges(p: Pool, listed: map<Text, Record>, epoch: int)
    requires p.epoch < epoch
    requires forall a :: a in p.records ==> p.records[a].epoch < epoch
    ensures Swept(p.(records := Absorbed(p.records, listed, epoch)), epoch) == MergedPool(p, listed, epoch)
    ensures MergedPool(p, listed, epoch).epoch < epoch && p.refCount <= 0 <==> !Survives(p, listed)
  {
    var absorbed := Absorbed(p.records, listed, epoch);
    var merged := MergedRecords(p.records, listed, epoch);
    assert SweptRecords(absorbed, absorbed.Keys, epoch) == merged;
    if AnyKept(absorbed, absorbed.Keys, epoch) {
      var a :| a in absorbed && Keeps(absorbed[a], epoch);
      assert a in merged;
    }
    if merged != map[] {
      var a :| a in merged.Keys;
      assert a in absorbed && Keeps(absorbed[a], epoch);
    }
    if listed != map[] {
      var a :| a in listed.Keys;
      assert a in merged;
    }
  }

  function AddedOne(pools: map<Text, Pool>, k: Text, listed: Pool, epoch: int): map<Text, Pool> {
    pools[k := if k in pools then pools[k].(records := Absorbed(pools[k].records, listed.records, epoch))
               else listed.(epoch := epoch)]
  }

  /** All pools once every pool of the refresh is folded in. */
  function Added(pools: map<Text, Pool>, listed: map<Text, Pool>, epoch: int): map<Text, Pool> {
    map k | k in pools.Keys + listed.Keys ::
      if k in listed then AddedOne(pools, k, listed[k], epoch)[k] else pools[k]
  }

  lemma AddedStep(pools: map<Text, Pool>, listed: map<Text, Pool>, k: Text, epoch: int)
    requires k in listed
    ensures Added(AddedOne(pools, k, listed[k], epoch), listed - {k}, epoch) == Added(pools, listed, epoch)
  {}

  lemma AddedNothing(pools: map<Text, Pool>, listed: map<Text, Pool>, epoch: int)
    requires listed.Keys == {}
    ensures Added(pools, listed, epoch) == pools
  {}

  /** A pool once the clean-up loop has visited it; a pool of the new epoch is left alone. */
  function CleanedPool(p: Pool, epoch: int): Pool {
    if p.epoch < epoch then Swept(p, epoch) else p
  }

  predicate Removed(p: Pool, epoch: int) {
    p.epoch < epoch && Swept(p, epoch).epoch < epoch && p.refCount <= 0
  }

  function CleanedOne(pools: map<Text, Pool>, k: Text, epoch: int): map<Text, Pool>
    requires k in pools
  {
    if Removed(pools[k], epoch) then pools - {k} else pools[k := CleanedPool(pools[k], epoch)]
  }

  /** All pools once the clean-up loop has visited the keys still to do. */
  function Cleaned(pools: map<Text, Pool>, todo: set<Text>, epoch: int): map<Text, Pool> {
    map k | k in pools && (k in todo ==> !Removed(pools[k], epoch)) ::
      if k in todo then CleanedPool(pools[k], epoch) else pools[k]
  }

  lemma CleanedStep(pools: map<Text, Pool>, todo: set<Text>, k: Text, epoch: int)
    requires k in pools && k in todo
    ensures Cleaned(CleanedOne(pools, k, epoch), todo - {k}, epoch) == Cleaned(pools, todo, epoch)
  {}

  lemma CleanedNothing(pools: map<Text, Pool>, epoch: int)
    ensures Cleaned(pools, {}, epoch) == pools
  {}

  lemma KnownPoolMerges(s: Space, n: Space, k: Text)
    requires EpochsBounded(s) && k in s.pools
    ensures var e := s.epoch + 1; var p := Added(s.pools, n.pools, e)[k];
            && (Removed(p, e) <==> !Survives(s.pools[k], ListedRecords(n, k)))
            && CleanedPool(p, e) == MergedPool(s.pools[k], ListedRecords(n, k), e)
  {
    var e := s.epoch + 1;
    var p := s.pools[k];
    SweepMerges(p, ListedRecords(n, k), e);
    if k !in n.pools { AbsorbedNothing(p.records, map[], e); }
    assert Added(s.pools, n.pools, e)[k] == p.(records := Absorbed(p.records, ListedRecords(n, k), e));
  }

  /** The two loops of merge together have the effect Merged describes. */
  lemma LoopsMerge(s: Space, n: Space)
    requires EpochsBounded(s)
    ensures var e := s.epoch + 1; var all := Added(s.pools, n.pools, e);
            Merged(s, n) == Space(e, Cleaned(all, all.Keys, e))
  {
    hide EpochsBounded, MergedPool, Survives, Absorbed, Swept;
    var e := s.epoch + 1;
    var all := Added(s.pools, n.pools, e);
    forall k | k in s.pools
      ensures Removed(all[k], e) <==> !Survives(s.pools[k], ListedRecords(n, k))
      ensures CleanedPool(all[k], e) == MergedPool(s.pools[k], ListedRecords(n, k), e)
    {
      KnownPoolMerges(s, n, k);
    }
    assert Cleaned(all, all.Keys, e) == Merged(s, n).pools;
  }

  lemma CleanedCoherent(s: Space, n: Space)
    requires SpaceInv(s) && IsListing(n)
    ensures var e := s.epoch + 1; var all := Added(s.pools, n.pools, e);
            forall k :: k in all && !Removed(all[k], e) ==> Coherent(CleanedPool(all[k], e))
  {
    var e := s.epoch + 1;
    var all := Added(s.pools, n.pools, e);
    LoopsMerge(s, n);
    MergeKeepsInv(s, n);
    forall k | k in all && !Removed(all[k], e)
      ensures Coherent(CleanedPool(all[k], e))
    {
      assert Cleaned(all, all.Keys, e)[k] == CleanedPool(all[k], e);
    }
  }

  /** What a refresh does to a pre-existing pool, said record by record. */
  lemma MergeOfKnownPool(s: Space, n: Space, k: Text)
    requires k in s.pools
    ensures var m := Merged(s, n); var had := s.pools[k].records;
      && (k in m.pools <==>
            (exists a :: Lists(n, k, a)) || (exists a :: a in had && had[a].inUse) || s.pools[k].refCount > 0)
      && (k in m.pools ==>
            && m.pools[k].index == s.pools[k].index
            && m.pools[k].refCount == s.pools[k].refCount
            && forall a ::
                 && (a in m.pools[k].records <==> Lists(n, k, a) || (a in had && had[a].inUse))
                 && (a in m.pools[k].records && a in had ==>
                       && m.pools[k].records[a].owner == had[a].owner
                       && m.pools[k].records[a].inUse == had[a].inUse
                       && (m.pools[k].records[a].unhealthy <==> !Lists(n, k, a)))
                 && (a in m.pools[k].records && IsListing(n) ==>
                       (m.pools[k].records[a].unhealthy <==> !Lists(n, k, a))))
  {
    if IsListing(n) && k in n.pools { assert IsListingPool(n.pools[k]); }
    var listed := ListedRecords(n, k);
    if listed != map[] {
      assert listed.Keys != {};
      var a :| a in listed.Keys;
      assert Lists(n, k, a);
    }
  }

  lemma MergeKeepsInv(s: Space, n: Space)
    requires SpaceInv(s) && IsListing(n)
    ensures SpaceInv(Merged(s, n))
  {
    hide Coherent, MergedPool, Survives;
    var m := Merged(s, n);
    forall k | k in m.pools ensures Coherent(m.pools[k]) && RecordsBounded(m.pools[k], m.epoch) {
      if k in n.pools { assert IsListingPool(n.pools[k]); }
      if k in s.pools {
        assert Coherent(s.pools[k]) && RecordsBounded(s.pools[k], s.epoch);
        MergedPoolCoherent(s.pools[k], ListedRecords(n, k), m.epoch);
      } else {
        ListingPoolCoherent(n.pools[k].(epoch := m.epoch));
      }
    }
  }

  predicate RecordsBounded(p: Pool, epoch: int) {
    p.epoch <= epoch && forall a :: a in p.records ==> p.records[a].epoch <= epoch
  }

  lemma ListingPoolCoherent(p: Pool)
    requires p.index == map[] && forall a :: a in p.records ==> p.records[a] == NewRecord(0)
    ensures Coherent(p)
  {}

  /** Records in use keep their owner, and the listed ones have none: so the index stays right. */
  lemma MergedPoolCoherent(p: Pool, listed: map<Text, Record>, epoch: int)
    requires Coherent(p) && RecordsBounded(p, epoch)
    requires forall a :: a in listed ==> listed[a] == NewRecord(0)
    ensures Coherent(MergedPool(p, listed, epoch)) && RecordsBounded(MergedPool(p, listed, epoch), epoch)
  {
    var q := MergedPool(p, listed, epoch);
    forall a | a in p.records && p.records[a].inUse
      ensures a in q.records && q.records[a].owner == p.records[a].owner && q.records[a].inUse
    {}
    forall a | a in q.records && q.records[a].owner != EMPTY
      ensures a in p.records && p.records[a].owner == q.records[a].owner
    {}
  }

  /** A listed address is treated as withdrawn at its next release exactly when its pool is new
      to the refresh: such a pool keeps the records, and so the epochs, that the source built. */
  lemma ListedRecordStaleness(s: Space, n: Space, k: Text, a: Text)
    requires SpaceInv(s) && IsListing(n) && Lists(n, k, a)
    ensures var m := Merged(s, n);
            && k in m.pools && a in m.pools[k].records
            && (m.pools[k].records[a].epoch < m.epoch <==> k !in s.pools)
  {
    if k in s.pools {
      assert ListedRecords(n, k) != map[];
    } else {
      assert IsListingPool(n.pools[k]);
    }
  }
}
