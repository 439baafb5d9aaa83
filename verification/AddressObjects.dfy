/** Records, pools and address spaces as the objects of ipam/pool.go, changed in place. The ghost
    field `view` of a pool or a space is its value; every method says what it makes of that value
    in the terms of AddressModel, and `Valid` ties the value to the fields and pointers. */
module AddressObjects {
  import opened Basics
  import opened AddressModel
  import opened AddressRuns

  datatype RecordAnswer = Created | InvalidAddress | AddressExists

  class AddressRecord {
    const addr: Text
    var owner: Text
    var inUse: bool
    var unhealthy: bool
    var epoch: int
    ghost var home: AddressPool   // the pool whose address map holds this record

    constructor (addr: Text, epoch: int, ghost home: AddressPool)
      ensures this.addr == addr && this.home == home
      ensures Shows(NewRecord(epoch))
    {
      this.addr, this.epoch, this.home := addr, epoch, home;
      owner, inUse, unhealthy := EMPTY, false, false;
    }

    ghost predicate Shows(r: Record)
      reads this
    {
      owner == r.owner && inUse == r.inUse && unhealthy == r.unhealthy && epoch == r.epoch
    }
  }

  class AddressPool {
    const id: Text
    const ifName: Text
    const isIPv6: bool
    const priority: int
    const gateway: Text
    var space: AddressSpace?
    var addresses: map<Text, AddressRecord>
    var addrsByID: map<Text, AddressRecord>
    var refCount: int
    var epoch: int
    ghost var view: Pool

    constructor (id: Text, ifName: Text, isIPv6: bool, priority: int, gateway: Text, space: AddressSpace)
      ensures Valid() && Linked()
      ensures this.id == id && this.space == space && addresses == map[]
      ensures view == Pool(ifName, isIPv6, priority, gateway, 0, space.epoch, map[], map[])
    {
      this.id, this.ifName, this.isIPv6 := id, ifName, isIPv6;
      this.priority, this.gateway, this.space := priority, gateway, space;
      addresses, addrsByID, refCount, epoch := map[], map[], 0, space.epoch;
      view := Pool(ifName, isIPv6, priority, gateway, 0, space.epoch, map[], map[]);
    }

    /** The address map holds this pool's own records, under their addresses, with the values that
        the view gives; the index holds the addresses that the view gives. */
    ghost predicate Valid()
      reads this, addresses.Values
    {
      && view == Pool(ifName, isIPv6, priority, gateway, refCount, epoch, view.records, view.index)
      && view.records.Keys == addresses.Keys
      && (forall a :: a in addresses ==>
            addresses[a].addr == a && addresses[a].home == this && addresses[a].Shows(view.records[a]))
      && view.index.Keys == addrsByID.Keys
      && (forall i :: i in addrsByID ==> addrsByID[i].addr == view.index[i])
    }

    /** The index holds pointers to records of the address map, not to copies or dropped ones. */
    ghost predicate Linked()
      reads this`addresses, this`addrsByID
    {
      forall i :: i in addrsByID ==>
        addrsByID[i].addr in addresses && addresses[addrsByID[i].addr] == addrsByID[i]
    }

    /** Pool k of space s with value v, its records within the given set. */
    ghost predicate Sits(k: Text, s: AddressSpace, v: Pool, within: set<AddressRecord>)
      reads this, addresses.Values
    {
      id == k && space == s && view == v && addresses.Values <= within && Valid() && Linked()
    }

    /** Pool k with value v as the store gives it back: no index and no pointer to its space yet. */
    ghost predicate Loaded(k: Text, v: Pool, within: set<AddressRecord>)
      reads this, addresses.Values
    {
      id == k && view == v && addresses.Values <= within && Valid()
    }

    /** The body of restore's loop over pools: sets the back pointer and rebuilds the index. */
    method Rebuild(s: AddressSpace)
      requires Valid()
      modifies this`space, this`addrsByID, this`view
      ensures Valid() && Linked() && space == s
      ensures view == old(view).(index := view.index) && IsRebuilt(view.records, view.index)
    {
      hide AddressModel.IsRebuilt;
      space := s;
      var byId := CollectById();
      InstallIndex(byId);
    }

    method InstallIndex(byId: map<Text, AddressRecord>)
      requires Valid()
      requires forall i :: i in byId ==>
                 i != EMPTY && byId[i].addr in addresses && addresses[byId[i].addr] == byId[i] && byId[i].owner == i
      requires forall a :: a in addresses && addresses[a].owner != EMPTY ==> addresses[a].owner in byId
      modifies this`addrsByID, this`view
      ensures Valid() && Linked()
      ensures view == old(view).(index := view.index) && IsRebuilt(view.records, view.index)
    {
      addrsByID := byId;
      view := view.(index := map i | i in byId :: byId[i].addr);
    }

    /** The records that have an owner, by owner. */
    method CollectById() returns (byId: map<Text, AddressRecord>)
      requires Valid()
      ensures forall i :: i in byId ==>
                i != EMPTY && byId[i].addr in addresses && addresses[byId[i].addr] == byId[i] && byId[i].owner == i
      ensures forall a :: a in addresses && addresses[a].owner != EMPTY ==> addresses[a].owner in byId
    {
      var todo := addresses.Keys;
      byId := map[];
      while todo != {}
        invariant todo <= addresses.Keys
        invariant forall i :: i in byId ==>
                    i != EMPTY && byId[i].addr in addresses && addresses[byId[i].addr] == byId[i] && byId[i].owner == i
        invariant forall a :: a in addresses && a !in todo && addresses[a].owner != EMPTY ==> addresses[a].owner in byId
      {
        var a :| a in todo;
        var ar := addresses[a];
        if ar.owner != EMPTY {
          byId := byId[ar.owner := ar];
        }
        todo := todo - {a};
      }
    }

    method IsAnyRecordInUse() returns (used: bool)
      requires Valid()
      ensures used <==> AnyRecordInUse(view)
    {
      var todo := addresses.Keys;
      while todo != {}
        invariant todo <= addresses.Keys
        invariant forall a :: a in addresses && a !in todo ==> !addresses[a].inUse && addresses[a].owner == EMPTY
      {
        var a :| a in todo;
        if addresses[a].inUse || addresses[a].owner != EMPTY {
          assert a in view.records;
          return true;
        }
        todo := todo - {a};
      }
      return false;
    }

    /** The counts and the unhealthy addresses that getInfo reports. */
    method GetInfo() returns (available: nat, capacity: nat, unhealthyAddrs: set<Text>)
      requires Valid()
      ensures available == Available(view) && capacity == |view.records|
      ensures forall a :: a in unhealthyAddrs <==> a in view.records && view.records[a].unhealthy
    {
      capacity := |addresses|;
      assert view.records.Keys == addresses.Keys && |view.records| == |view.records.Keys|;
      ghost var unused, unhealthy := Unused(view.records), Unhealthy(view.records);
      var todo := addresses.Keys;
      assert unused - todo == {} && unhealthy - todo == {};
      hide AddressPool.Valid, AddressModel.Unused, AddressModel.Unhealthy;
      available, unhealthyAddrs := 0, {};
      while todo != {}
        invariant todo <= addresses.Keys
        invariant available == |unused - todo| && unhealthyAddrs == unhealthy - todo
      {
        var a :| a in todo;
        RecordShown(a);
        InfoOf(view.records, a);
        VisitOne(unused, todo, a);
        VisitOne(unhealthy, todo, a);
        available := available + if !addresses[a].inUse then 1 else 0;
        unhealthyAddrs := unhealthyAddrs + if addresses[a].unhealthy then {a} else {};
        todo := todo - {a};
      }
      assert unused - todo == unused && unhealthy - todo == unhealthy;
      UnhealthyAre(view.records);
    }

    /** `contained` is the answer of Subnet.Contains. */
    method NewAddressRecord(addr: Text, contained: bool) returns (ar: AddressRecord?, answer: RecordAnswer)
      requires Valid()
      modifies this`addresses, this`view
      ensures Valid() && (old(Linked()) ==> Linked())
      ensures answer == if !contained then InvalidAddress else if addr in old(addresses) then AddressExists else Created
      ensures if contained then addr in addresses && ar == addresses[addr] else ar == null
      ensures view == if answer == Created then WithRecord(old(view), addr, NewRecord(epoch)) else old(view)
      ensures fresh(addresses.Values - old(addresses.Values))
    {
      if !contained {
        return null, InvalidAddress;
      }
      if addr in addresses {
        return addresses[addr], AddressExists;
      }
      ar := new AddressRecord(addr, epoch, this);
      addresses := addresses[addr := ar];
      view := WithRecord(view, addr, NewRecord(epoch));
      return ar, Created;
    }

    /** The scan for any record that is neither in use nor labelled, in any order. */
    method FindFree() returns (a: Text, found: bool)
      requires Valid()
      ensures found <==> AnyFree(view)
      ensures found ==> Free(view, a)
    {
      var todo := addresses.Keys;
      while todo != {}
        invariant todo <= addresses.Keys
        invariant forall b :: b in addresses && b !in todo ==> !Free(view, b)
      {
        var b :| b in todo;
        if !addresses[b].inUse && addresses[b].owner == EMPTY {
          assert Free(view, b);
          return b, true;
        }
        todo := todo - {b};
      }
      return EMPTY, false;
    }

    lemma RecordShown(a: Text)
      requires Valid() && a in addresses
      ensures a in view.records && addresses[a].Shows(view.records[a]) && addresses.Keys == view.records.Keys
    {}

    // ----- the single changes of the source, each on one record -----

    method Label(a: Text, id: Text)
      requires Valid() && Linked() && a in addresses
      modifies this`addrsByID, this`view, addresses[a]
      ensures Valid() && Linked()
      ensures view == WithRecord(old(view), a, old(view.records[a]).(owner := id)).(index := old(view.index)[id := a])
    {
      var ar := addresses[a];
      view := WithRecord(view, a, view.records[a].(owner := id)).(index := view.index[id := a]);
      addrsByID := addrsByID[id := ar];
      ar.owner := id;
    }

    method Unlabel(a: Text)
      requires Valid() && a in addresses
      modifies this`addrsByID, this`view, addresses[a]
      ensures Valid() && (old(Linked()) ==> Linked())
      ensures view == WithRecord(old(view), a, old(view.records[a]).(owner := EMPTY))
                        .(index := old(view.index) - {old(view.records[a].owner)})
    {
      var ar := addresses[a];
      view := WithRecord(view, a, view.records[a].(owner := EMPTY)).(index := view.index - {view.records[a].owner});
      addrsByID := addrsByID - {ar.owner};
      ar.owner := EMPTY;
    }

    method SetInUse(a: Text, inUse: bool)
      requires Valid() && a in addresses
      modifies this`view, addresses[a]
      ensures Valid()
      ensures view == WithRecord(old(view), a, old(view.records[a]).(inUse := inUse))
    {
      view := WithRecord(view, a, view.records[a].(inUse := inUse));
      addresses[a].inUse := inUse;
    }

    method Confirm(a: Text, newEpoch: int)
      requires Valid() && a in addresses
      modifies this`view, addresses[a]
      ensures Valid()
      ensures view == WithRecord(old(view), a, old(view.records[a]).(epoch := newEpoch, unhealthy := false))
    {
      view := WithRecord(view, a, view.records[a].(epoch := newEpoch, unhealthy := false));
      addresses[a].epoch := newEpoch;
      addresses[a].unhealthy := false;
    }

    method Flag(a: Text)
      requires Valid() && a in addresses
      modifies this`view, addresses[a]
      ensures Valid()
      ensures view == WithRecord(old(view), a, old(view.records[a]).(unhealthy := true))
    {
      view := WithRecord(view, a, view.records[a].(unhealthy := true));
      addresses[a].unhealthy := true;
    }

    method SetRefCount(n: int)
      requires Valid()
      modifies this`refCount, this`view
      ensures Valid() && (old(Linked()) ==> Linked()) && view == old(view).(refCount := n)
    {
      view := view.(refCount := n);
      refCount := n;
    }

    method SetEpoch(newEpoch: int)
      requires Valid()
      modifies this`epoch, this`view
      ensures Valid() && view == old(view).(epoch := newEpoch)
    {
      view := view.(epoch := newEpoch);
      epoch := newEpoch;
    }

    method Join(s: AddressSpace, newEpoch: int)
      requires Valid() && Linked()
      modifies this`space, this`epoch, this`view
      ensures Valid() && Linked() && space == s && view == old(view).(epoch := newEpoch)
    {
      space := s;
      SetEpoch(newEpoch);
    }

    method Drop(a: Text)
      requires Valid()
      modifies this`view, this`addresses
      ensures Valid() && addresses == old(addresses) - {a}
      ensures view == old(view).(records := old(view.records) - {a})
    {
      view := view.(records := view.records - {a});
      addresses := addresses - {a};
    }

    /** Takes in a record that no pool's address map holds. */
    method Insert(av: AddressRecord, ghost r: Record, newEpoch: int)
      requires Valid() && Linked() && av.addr !in addresses && av.Shows(r) && av.home != this
      modifies this`addresses, this`view, av
      ensures Valid() && Linked()
      ensures addresses == old(addresses)[av.addr := av]
      ensures view == WithRecord(old(view), av.addr, r.(epoch := newEpoch))
    {
      view := WithRecord(view, av.addr, r.(epoch := newEpoch));
      addresses := addresses[av.addr := av];
      av.epoch := newEpoch;
      av.home := this;
    }

    // ----- requestAddress and releaseAddress -----

    /** Which record a request is answered with. */
    method Choose(address: Text, id: Text, gatewayType: bool) returns (o: Outcome)
      requires Valid() && Linked()
      ensures Serves(view, address, id, gatewayType, o)
      ensures o.Granted? ==> o.address in addresses
    {
      if address != EMPTY {
        if address !in addresses {
          return NotFound;
        }
        var ar := addresses[address];
        if ar.inUse && (id == EMPTY || id != ar.owner) {
          return AddressInUse;
        }
        return Granted(address);
      } else if gatewayType {
        return GatewayAddress;
      } else if id != EMPTY && id in addrsByID {
        return Granted(addrsByID[id].addr);
      }
      var key, found := FindFree();
      return if found then Granted(key) else Exhausted;
    }

    method RequestAddress(address: Text, id: Text, gatewayType: bool) returns (o: Outcome)
      requires Valid() && Linked()
      modifies this`addrsByID, this`view, addresses.Values
      ensures Valid() && Linked()
      ensures Serves(old(view), address, id, gatewayType, o)
      ensures view == AfterRequest(old(view), id, o)
    {
      o := Choose(address, id, gatewayType);
      if o.Granted? {
        Grant(o.address, id);
      }
    }

    /** Labels and marks the chosen record. */
    method Grant(a: Text, id: Text)
      requires Valid() && Linked() && a in addresses
      modifies this`addrsByID, this`view, addresses[a]
      ensures Valid() && Linked()
      ensures view == AfterGrant(old(view), id, a)
    {
      hide AddressPool.Valid, AddressPool.Linked;
      RecordShown(a);
      if id != EMPTY {
        Label(a, id);
      }
      SetInUse(a, true);
    }

    /** Which record a release is about, if it has any effect. */
    method FindReleased(address: Text, id: Text) returns (target: Option<Text>)
      requires Valid() && Linked()
      ensures target == ReleaseTarget(view, address, id)
    {
      var key;
      if address != EMPTY {
        if address !in addresses {
          return None;   // the gateway, or an address this pool does not have
        }
        key := address;
      } else if id != EMPTY && id in addrsByID {
        key := addrsByID[id].addr;
      } else {
        return None;
      }
      var ar := addresses[key];
      if (id != EMPTY && id != ar.owner) || !ar.inUse {
        return None;
      }
      return Some(key);
    }

    /** The pointers of the index stay good unless the release breaks the pool's coherence. */
    method ReleaseAddress(address: Text, id: Text)
      requires Valid() && Linked() && space != null
      modifies this`addrsByID, this`addresses, this`view, addresses.Values
      ensures Valid()
      ensures view == AfterRelease(old(view), space.epoch, address, id)
      ensures Coherent(view) ==> Linked()
      ensures addresses.Values <= old(addresses.Values)
    {
      var target := FindReleased(address, id);
      if target.Some? {
        Withdraw(target.value, id, space.epoch);
      }
    }

    /** Unmarks and unlabels the record, and drops it when it is no longer available. */
    method Withdraw(a: Text, id: Text, spaceEpoch: int)
      requires Valid() && Linked() && a in addresses && (id != EMPTY ==> id == addresses[a].owner)
      modifies this`addrsByID, this`addresses, this`view, addresses[a]
      ensures Valid()
      ensures view == Freed(old(view), a, id, spaceEpoch)
      ensures Coherent(view) ==> Linked()
      ensures addresses.Values <= old(addresses.Values)
    {
      hide AddressPool.Valid, AddressPool.Linked, AddressModel.Coherent;
      RecordShown(a);
      Unassign(a, id);
      DropStale(a, spaceEpoch);
    }

    method DropStale(a: Text, spaceEpoch: int)
      requires Valid() && Linked() && a in addresses
      modifies this`addresses, this`view
      ensures Valid() && addresses.Values <= old(addresses.Values) && a in old(view).records
      ensures view == if old(view).records[a].epoch < spaceEpoch then old(view).(records := old(view).records - {a})
                      else old(view)
      ensures Coherent(view) ==> Linked()
    {
      hide AddressPool.Valid, AddressPool.Linked, AddressModel.Coherent;
      RecordShown(a);
      if addresses[a].epoch < spaceEpoch {
        Drop(a);
        if Coherent(view) { StillLinked(); }
      }
    }

    method Unassign(a: Text, id: Text)
      requires Valid() && Linked() && a in addresses && (id != EMPTY ==> id == addresses[a].owner)
      modifies this`addrsByID, this`view, addresses[a]
      ensures Valid() && Linked()
      ensures var r := old(view.records[a]);
              view == WithRecord(old(view), a, r.(inUse := false, owner := if id != EMPTY then EMPTY else r.owner))
                        .(index := if id != EMPTY then old(view.index) - {id} else old(view.index))
    {
      hide AddressPool.Valid, AddressPool.Linked;
      RecordShown(a);
      SetInUse(a, false);
      RecordShown(a);
      if id != EMPTY {
        Unlabel(a);
      }
    }

    // ----- merge, one pool at a time -----

    /** Folds the records a refresh lists into this pool; `listing` ends up empty. */
    method Absorb(listing: AddressPool, newEpoch: int)
      requires Valid() && Linked() && listing.Valid() && listing != this
      modifies this`addresses, this`view, addresses.Values
      modifies listing`space, listing`addresses, listing`view, listing.addresses.Values
      ensures Valid() && Linked()
      ensures view == old(view).(records := Absorbed(old(view.records), old(listing.view.records), newEpoch))
      ensures listing.addresses == map[] && listing.space == null
      ensures addresses.Values <= old(addresses.Values) + old(listing.addresses.Values)
    {
      hide AddressPool.Valid;
      AbsorbAll(listing, newEpoch);
      listing.space := null;
    }

    method AbsorbAll(listing: AddressPool, newEpoch: int)
      requires Valid() && Linked() && listing.Valid() && listing != this
      modifies this`addresses, this`view, addresses.Values, listing`addresses, listing`view, listing.addresses.Values
      ensures Valid() && Linked()
      ensures view == old(view).(records := Absorbed(old(view.records), old(listing.view.records), newEpoch))
      ensures listing.addresses == map[]
      ensures addresses.Values <= old(addresses.Values) + old(listing.addresses.Values)
    {
      ghost var all := Absorbed(view.records, listing.view.records, newEpoch);
      while listing.addresses != map[]
        invariant Valid() && Linked() && listing.Valid()
        invariant Absorbed(view.records, listing.view.records, newEpoch) == all
        invariant view == old(view).(records := view.records)
        invariant addresses.Values <= old(addresses.Values) + old(listing.addresses.Values)
        invariant listing.addresses.Values <= old(listing.addresses.Values)
        decreases listing.addresses.Keys
      {
        var a :| a in listing.addresses.Keys;
        AbsorbedStep(view.records, listing.view.records, a, newEpoch);
        AbsorbOne(listing, a, newEpoch);
      }
      AbsorbedNothing(view.records, listing.view.records, newEpoch);
    }

    method AbsorbOne(listing: AddressPool, a: Text, newEpoch: int)
      requires Valid() && Linked() && listing.Valid() && listing != this && a in listing.addresses
      modifies this`addresses, this`view, addresses.Values, listing`addresses, listing`view, listing.addresses[a]
      ensures Valid() && Linked() && listing.Valid()
      ensures listing.addresses == old(listing.addresses) - {a}
      ensures listing.view == old(listing.view).(records := old(listing.view.records) - {a})
      ensures view == old(view).(records := AbsorbedOne(old(view.records), a, old(listing.view.records)[a], newEpoch))
      ensures addresses.Values <= old(addresses.Values) + {old(listing.addresses[a])}
    {
      if a !in addresses {
        Adopt(listing, a, newEpoch);
      } else {
        Confirm(a, newEpoch);
        listing.Drop(a);
      }
    }

    /** Moves a record this pool does not have out of `listing`. */
    method Adopt(listing: AddressPool, a: Text, newEpoch: int)
      requires Valid() && Linked() && listing.Valid() && listing != this
      requires a in listing.addresses && a !in addresses
      modifies this`addresses, this`view, listing`addresses, listing`view, listing.addresses[a]
      ensures Valid() && Linked() && listing.Valid()
      ensures listing.addresses == old(listing.addresses) - {a}
      ensures listing.view == old(listing.view).(records := old(listing.view.records) - {a})
      ensures view == WithRecord(old(view), a, old(listing.view.records)[a].(epoch := newEpoch))
      ensures addresses == old(addresses)[a := old(listing.addresses[a])]
    {
      var av := listing.addresses[a];
      listing.Drop(a);
      Insert(av, old(listing.view.records[a]), newEpoch);
    }

    /** The clean-up half of merge for one pool. */
    method Sweep(newEpoch: int)
      requires Valid() && Linked()
      modifies this`addresses, this`epoch, this`view, addresses.Values
      ensures Valid()
      ensures view == Swept(old(view), newEpoch)
      ensures addresses.Values <= old(addresses.Values)
      ensures Coherent(view) ==> Linked()
    {
      hide AddressPool.Valid, AddressPool.Linked, AddressModel.Coherent, AddressModel.Swept;
      SweepAll(newEpoch);
      if Coherent(view) { StillLinked(); }
    }

    /** Its loop. */
    method SweepAll(newEpoch: int)
      requires Valid()
      modifies this`addresses, this`epoch, this`view, addresses.Values
      ensures Valid()
      ensures view == Swept(old(view), newEpoch)
      ensures forall a :: a in addresses ==> a in old(addresses) && addresses[a] == old(addresses)[a]
    {
      ghost var before := view;
      var todo := addresses.Keys;
      assert addresses.Keys == before.records.Keys;
      SweptNothing(before, before.records.Keys - todo, newEpoch);
      hide AddressPool.Valid, AddressModel.SweptOne, AddressModel.SweptSoFar;
      while todo != {}
        invariant Valid()
        invariant todo <= addresses.Keys && addresses.Keys <= before.records.Keys
        invariant forall a :: a in addresses ==> a in old(addresses) && addresses[a] == old(addresses)[a]
        invariant view == SweptSoFar(before, before.records.Keys - todo, newEpoch)
        decreases todo
      {
        var a :| a in todo;
        SweptGrows(before, before.records.Keys - todo, a, newEpoch);
        SweepOne(a, newEpoch);
        assert before.records.Keys - (todo - {a}) == before.records.Keys - todo + {a};
        todo := todo - {a};
      }
      assert before.records.Keys - todo == before.records.Keys;
    }

    /** Dropping records hurts no pointer of the index if the pool is coherent without them. */
    twostate lemma StillLinked()
      requires old(Linked()) && Valid() && Coherent(view) && addrsByID == old(addrsByID)
      requires forall a :: a in addresses ==> a in old(addresses) && addresses[a] == old(addresses)[a]
      ensures Linked()
    {}

    method SweepOne(a: Text, newEpoch: int)
      requires Valid() && a in addresses
      modifies this`addresses, this`epoch, this`view, addresses[a]
      ensures Valid()
      ensures view == SweptOne(old(view), a, newEpoch)
      ensures addresses == if Keeps(old(view.records[a]), newEpoch) then old(addresses) else old(addresses) - {a}
    {
      var av := addresses[a];
      if av.epoch == newEpoch {
        SetEpoch(newEpoch);
      } else if av.inUse {
        SetEpoch(newEpoch);
        Flag(a);
      } else {
        Drop(a);
      }
    }
  }

  ghost function RecordsOf(pools: set<AddressPool>): set<AddressRecord>
    reads pools
  {
    set p, r | p in pools && r in p.addresses.Values :: r
  }

  class AddressSpace {
    var epoch: int
    var pools: map<Text, AddressPool>
    ghost var view: Space
    ghost var poolSet: set<AddressPool>
    ghost var recordSet: set<AddressRecord>

    constructor ()
      ensures Valid() && pools == map[] && view == Space(0, map[]) && poolSet == {} && recordSet == {}
    {
      epoch, pools, view, poolSet, recordSet := 0, map[], Space(0, map[]), {}, {};
    }

    /** Every pool sits under its own key, points back here and is well formed. Records of different
        pools differ because each has one home. */
    ghost predicate Valid()
      reads this, pools.Values, RecordsOf(pools.Values)
    {
      && view == Space(epoch, view.pools)
      && view.pools.Keys == pools.Keys
      && pools.Values <= poolSet
      && forall k :: k in pools ==> pools[k].Sits(k, this, view.pools[k], recordSet)
    }

    /** The pools of the two spaces are different objects. */
    ghost predicate Apart(newas: AddressSpace)
      reads this, newas
    {
      this != newas && forall j, k :: j in pools && k in newas.pools ==> pools[j] != newas.pools[k]
    }

    method NewAddressPool(id: Text, ifName: Text, isIPv6: bool, priority: int, gateway: Text)
      returns (pool: AddressPool, created: bool)
      requires Valid()
      modifies this`pools, this`view, this`poolSet
      ensures Valid() && id in pools && pool == pools[id]
      ensures created <==> id !in old(pools)
      ensures !created ==> pools == old(pools) && view == old(view) && poolSet == old(poolSet)
      ensures created ==> fresh(pool) && pools == old(pools)[id := pool] && poolSet == old(poolSet) + {pool}
      ensures created ==>
        view == old(view).(pools :=
                  old(view.pools)[id := Pool(ifName, isIPv6, priority, gateway, 0, epoch, map[], map[])])
    {
      if id in pools {
        return pools[id], false;
      }
      pool := new AddressPool(id, ifName, isIPv6, priority, gateway, this);
      pools := pools[id := pool];
      view := view.(pools := view.pools[id := pool.view]);
      poolSet := poolSet + {pool};
      return pool, true;
    }

    /** newAddressRecord on pool k of this space; `contained` is the answer of Subnet.Contains. */
    method NewAddressRecord(k: Text, addr: Text, contained: bool) returns (ok: bool)
      requires Valid() && k in pools
      modifies this`view, this`recordSet, pools[k]
      ensures Valid() && ok == (contained && addr !in old(view.pools[k].records))
      ensures var p := old(view.pools[k]);
              view == if ok then WithPool(old(view), k, WithRecord(p, addr, NewRecord(p.epoch))) else old(view)
      ensures fresh(recordSet - old(recordSet))
    {
      hide AddressPool.Sits;
      ghost var news;
      ok, news := AddRecord(k, addr, contained);
      view := if ok then WithPool(view, k, WithRecord(view.pools[k], addr, NewRecord(view.pools[k].epoch))) else view;
      WidenRecords(news);
    }

    ghost method WidenRecords(news: set<AddressRecord>)
      requires view == Space(epoch, view.pools) && view.pools.Keys == pools.Keys && pools.Values <= poolSet
      requires forall k :: k in pools ==> pools[k].Sits(k, this, view.pools[k], recordSet + news)
      modifies this`recordSet
      ensures Valid() && recordSet == old(recordSet) + news
    {
      hide AddressPool.Valid, AddressPool.Linked;
      recordSet := recordSet + news;
    }

    method AddRecord(k: Text, addr: Text, contained: bool) returns (ok: bool, ghost news: set<AddressRecord>)
      requires Valid() && k in pools
      modifies pools[k]
      ensures ok == (contained && addr !in view.pools[k].records) && fresh(news)
      ensures var p := view.pools[k];
              pools[k].Sits(k, this, if ok then WithRecord(p, addr, NewRecord(p.epoch)) else p, recordSet + news)
      ensures forall j :: j in pools && j != k ==> pools[j].Sits(j, this, view.pools[j], recordSet + news)
    {
      hide AddressPool.Valid, AddressPool.Linked;
      PoolIsValid(k);
      PoolKeys(k);
      ghost var had := pools[k].addresses.Values;
      var _, answer := pools[k].NewAddressRecord(addr, contained);
      ok := answer == Created;
      news := pools[k].addresses.Values - had;
    }

    lemma PoolKeys(k: Text)
      requires Valid() && k in pools
      ensures pools[k].addresses.Keys == view.pools[k].records.Keys
    {}

    // ----- merge, first loop: fold the refresh in -----

    /** Takes pool k out of this space. */
    method Detach(k: Text) returns (pv: AddressPool)
      requires Valid() && k in pools
      modifies this`pools, this`view
      ensures Valid() && pv == old(pools[k]) && pools == old(pools) - {k} && pv !in pools.Values
      ensures pv.id == k && pv.Valid() && pv.Linked() && pv.addresses.Values <= recordSet
      ensures pv.view == old(view.pools[k])
      ensures view == old(view).(pools := old(view.pools) - {k})
    {
      pv := pools[k];
      pools := pools - {k};
      view := view.(pools := view.pools - {k});
    }

    /** Puts a pool that sits in no space under a key this space does not have. */
    method Attach(pv: AddressPool)
      requires Valid() && pv.Valid() && pv.Linked() && pv.id !in pools && pv !in pools.Values
      requires pv in poolSet && pv.addresses.Values <= recordSet
      modifies this`pools, this`view, pv
      ensures Valid() && pools == old(pools)[pv.id := pv]
      ensures view == old(view).(pools := AddedOne(old(view.pools), pv.id, old(pv.view), epoch))
    {
      hide AddressPool.Valid;
      hide AddressPool.Linked;
      view := view.(pools := AddedOne(view.pools, pv.id, pv.view, epoch));
      pools := pools[pv.id := pv];
      pv.Join(this, epoch);
    }

    /** Folds the records of a detached pool into pool k. */
    method AbsorbPool(k: Text, pv: AddressPool)
      requires Valid() && k in pools && pv.Valid() && pv !in pools.Values && pv.addresses.Values <= recordSet
      requires forall j :: j in pools && pools[j] != pools[k] && pools[j] != pv ==>
                 pools[j].addresses.Values !! pools[k].addresses.Values + pv.addresses.Values
      modifies this`view, pools[k], pools[k].addresses.Values, pv, pv.addresses.Values
      ensures Valid()
      ensures view == old(view).(pools := AddedOne(old(view.pools), k, old(pv.view), epoch))
    {
      hide AddressPool.Sits;
      hide AddressModel.Absorbed;
      ghost var listed := pv.view;
      AbsorbInto(k, pv);
      view := view.(pools := AddedOne(view.pools, k, listed, epoch));
    }

    method AbsorbInto(k: Text, pv: AddressPool)
      requires Valid() && k in pools && pv.Valid() && pv !in pools.Values && pv.addresses.Values <= recordSet
      requires forall j :: j in pools && pools[j] != pools[k] && pools[j] != pv ==>
                 pools[j].addresses.Values !! pools[k].addresses.Values + pv.addresses.Values
      modifies pools[k], pools[k].addresses.Values, pv, pv.addresses.Values
      ensures ValidExcept(k)
      ensures var p := view.pools[k];
              pools[k].Sits(k, this, p.(records := Absorbed(p.records, old(pv.view.records), epoch)), recordSet)
    {
      hide AddressPool.Valid;
      hide AddressPool.Linked;
      hide AddressModel.Absorbed;
      PoolIsValid(k);
      assert forall j :: j in pools && j != k ==> pools[j] != pools[k] && pools[j] != pv;
      pools[k].Absorb(pv, epoch);
      forall j | j in pools && j != k ensures pools[j].Sits(j, this, view.pools[j], recordSet) {
        assert old(pools[j].Sits(j, this, view.pools[j], recordSet));
      }
    }

    ghost predicate Shares(newas: AddressSpace)
      reads this, newas
    {
      poolSet == newas.poolSet && recordSet == newas.recordSet
    }

    /** Folds pool k of the refresh into this space. */
    method AddOne(newas: AddressSpace, k: Text)
      requires Valid() && newas.Valid() && Apart(newas) && Shares(newas) && k in newas.pools
      modifies this`pools, this`view, newas`pools, newas`view, poolSet, recordSet
      ensures Valid() && newas.Valid() && Apart(newas)
      ensures newas.pools == old(newas.pools) - {k}
      ensures newas.view == old(newas.view).(pools := old(newas.view.pools) - {k})
      ensures view == old(view).(pools := AddedOne(old(view.pools), k, old(newas.view.pools)[k], epoch))
    {
      hide AddressPool.Sits;
      hide AddressModel.AddedOne;
      if k !in pools {
        AddNew(newas, k);
      } else {
        AddKnown(newas, k);
      }
    }

    method AddNew(newas: AddressSpace, k: Text)
      requires Valid() && newas.Valid() && Apart(newas) && Shares(newas) && k in newas.pools && k !in pools
      modifies this`pools, this`view, newas`pools, newas`view, poolSet, recordSet
      ensures Valid() && newas.Valid() && Apart(newas)
      ensures newas.pools == old(newas.pools) - {k}
      ensures newas.view == old(newas.view).(pools := old(newas.view.pools) - {k})
      ensures view == old(view).(pools := AddedOne(old(view.pools), k, old(newas.view.pools)[k], epoch))
    {
      hide AddressPool.Valid;
      hide AddressPool.Linked;
      hide AddressModel.AddedOne;
      var pv := newas.Detach(k);
      Attach(pv);
    }

    method AddKnown(newas: AddressSpace, k: Text)
      requires Valid() && newas.Valid() && Apart(newas) && Shares(newas) && k in newas.pools && k in pools
      modifies this`pools, this`view, newas`pools, newas`view, poolSet, recordSet
      ensures Valid() && newas.Valid() && Apart(newas)
      ensures newas.pools == old(newas.pools) - {k}
      ensures newas.view == old(newas.view).(pools := old(newas.view.pools) - {k})
      ensures view == old(view).(pools := AddedOne(old(view.pools), k, old(newas.view.pools)[k], epoch))
    {
      hide AddressPool.Valid;
      hide AddressPool.Linked;
      hide AddressModel.AddedOne;
      hide AddressPool.Sits;
      var pv := newas.Detach(k);
      PoolIsValid(k);
      OthersApart(pools[k], pv);
      newas.OthersApart(pools[k], pv);
      AbsorbPool(k, pv);
    }

    lemma PoolIsValid(k: Text)
      requires Valid() && k in pools
      ensures pools[k].Valid() && pools[k].addresses.Values <= recordSet && pools[k].view == view.pools[k]
      ensures pools[k].epoch == view.pools[k].epoch && pools[k].refCount == view.pools[k].refCount
    {}

    /** Pools of this space other than p and q share no record with them. */
    lemma OthersApart(p: AddressPool, q: AddressPool)
      requires Valid() && p.Valid() && q.Valid()
      ensures forall j :: j in pools && pools[j] != p && pools[j] != q ==>
                pools[j].addresses.Values !! p.addresses.Values + q.addresses.Values
      ensures p !in pools.Values && q !in pools.Values ==>
                RecordsOf(pools.Values) !! p.addresses.Values + q.addresses.Values
    {
      hide AddressPool.Valid;
      forall j | j in pools && pools[j] != p && pools[j] != q
        ensures pools[j].addresses.Values !! p.addresses.Values + q.addresses.Values
      {
        HomesApart(pools[j], p);
        HomesApart(pools[j], q);
      }
    }

    method AddAll(newas: AddressSpace)
      requires Valid() && newas.Valid() && Apart(newas) && Shares(newas)
      modifies this`pools, this`view, newas`pools, newas`view, poolSet, recordSet
      ensures Valid() && newas.pools == map[]
      ensures view == old(view).(pools := Added(old(view.pools), old(newas.view.pools), epoch))
    {
      hide AddressPool.Sits;
      ghost var all := Added(view.pools, newas.view.pools, epoch);
      while newas.pools != map[]
        invariant Valid() && newas.Valid() && Apart(newas) && Shares(newas)
        invariant Added(view.pools, newas.view.pools, epoch) == all
        decreases newas.pools.Keys
      {
        var k :| k in newas.pools.Keys;
        AddedStep(view.pools, newas.view.pools, k, epoch);
        AddOne(newas, k);
      }
      AddedNothing(view.pools, newas.view.pools, epoch);
    }

    // ----- merge, second loop: clean up -----

    /** Every pool but k sits as it should. */
    ghost predicate ValidExcept(k: Text)
      reads this, pools.Values, RecordsOf(pools.Values)
    {
      && view == Space(epoch, view.pools)
      && view.pools.Keys == pools.Keys
      && pools.Values <= poolSet
      && forall j :: j in pools && j != k ==> pools[j].Sits(j, this, view.pools[j], recordSet)
    }

    method SweepPool(k: Text)
      requires Valid() && k in pools
      requires forall j :: j in pools && pools[j] != pools[k] ==>
                 pools[j].addresses.Values !! pools[k].addresses.Values
      modifies pools[k], pools[k].addresses.Values
      ensures ValidExcept(k)
      ensures pools[k].id == k && pools[k].space == this && pools[k].addresses.Values <= recordSet && pools[k].Valid()
      ensures pools[k].view == Swept(view.pools[k], epoch)
      ensures pools[k].epoch == Swept(view.pools[k], epoch).epoch && pools[k].refCount == view.pools[k].refCount
      ensures Coherent(pools[k].view) ==> pools[k].Linked()
    {
      hide AddressPool.Linked;
      hide AddressModel.Coherent;
      hide AddressModel.SweptRecords;
      pools[k].Sweep(epoch);
      forall j | j in pools && j != k ensures pools[j].Sits(j, this, view.pools[j], recordSet) {
        assert old(pools[j].Sits(j, this, view.pools[j], recordSet));
      }
    }

    /** Cleans pool k, and removes it when nothing is left of it. */
    method CleanOne(k: Text)
      requires Valid() && k in pools
      requires !Removed(view.pools[k], epoch) ==>
                 Coherent(CleanedPool(view.pools[k], epoch))
      modifies this`pools, this`view, poolSet, recordSet
      ensures Valid() && old(pools.Keys) - {k} <= pools.Keys
      ensures view == old(view).(pools := CleanedOne(old(view.pools), k, epoch))
    {
      hide AddressPool.Valid;
      hide AddressPool.Linked;
      hide AddressModel.Coherent;
      hide AddressModel.Swept;
      var pv := pools[k];
      PoolIsValid(k);
      if pv.epoch < epoch {
        OthersApart(pv, pv);
        SweepPool(k);
        if pv.epoch < epoch && pv.refCount <= 0 {
          Discard(k);
        } else {
          view := view.(pools := view.pools[k := pv.view]);
        }
      }
    }

    /** Removes pool k and clears its back pointer. */
    method Discard(k: Text)
      requires ValidExcept(k) && k in pools && forall j :: j in pools && j != k ==> pools[j] != pools[k]
      modifies this`pools, this`view, pools[k]
      ensures Valid() && pools == old(pools) - {k} && view == old(view).(pools := old(view.pools) - {k})
      ensures old(pools[k]).space == null
    {
      pools[k].space := null;
      pools := pools - {k};
      view := view.(pools := view.pools - {k});
    }

    method CleanAll()
      requires Valid()
      requires forall k :: k in view.pools && !Removed(view.pools[k], epoch) ==>
                 Coherent(CleanedPool(view.pools[k], epoch))
      modifies this`pools, this`view, poolSet, recordSet
      ensures Valid()
      ensures view == old(view).(pools := Cleaned(old(view.pools), old(view.pools.Keys), epoch))
    {
      hide AddressPool.Sits;
      hide AddressModel.Coherent;
      hide AddressModel.CleanedPool;
      hide AddressModel.Removed;
      ghost var all := Cleaned(view.pools, pools.Keys, epoch);
      var todo := pools.Keys;
      while todo != {}
        invariant Valid() && todo <= pools.Keys
        invariant Cleaned(view.pools, todo, epoch) == all
        invariant forall k :: k in todo ==> k in old(view.pools) && view.pools[k] == old(view.pools)[k]
        decreases todo
      {
        var k :| k in todo;
        CleanedStep(view.pools, todo, k, epoch);
        CleanOne(k);
        todo := todo - {k};
      }
      CleanedNothing(view.pools, epoch);
    }

    /** Merges what a source has built into this space. */
    method Merge(newas: AddressSpace)
      requires Valid() && newas.Valid() && this != newas && poolSet !! newas.poolSet
      requires SpaceInv(view) && IsListing(newas.view)
      modifies this, newas, poolSet, recordSet, newas.poolSet, newas.recordSet
      ensures Valid() && SpaceInv(view) && newas.pools == map[]
      ensures Next(old(view), Refresh(old(newas.view)), view, Done)
    {
      hide AddressSpace.Valid;
      hide AddressModel.EpochsBounded;
      hide AddressModel.Coherent;
      hide AddressModel.IsListing;
      hide AddressModel.Merged;
      hide AddressModel.Added;
      hide AddressModel.Cleaned;
      ghost var s0, n0 := view, newas.view;
      Prepare(newas);
      AddAll(newas);
      LoopsMerge(s0, n0);
      MergeKeepsInv(s0, n0);
      CleanedCoherent(s0, n0);
      CleanAll();
    }

    /** Advances the epoch. The ghost sets of both spaces become their union. */
    method Prepare(newas: AddressSpace)
      requires Valid() && newas.Valid() && this != newas && poolSet !! newas.poolSet
      modifies this`epoch, this`view, this`poolSet, this`recordSet, newas`poolSet, newas`recordSet
      ensures Valid() && newas.Valid() && Apart(newas) && Shares(newas)
      ensures epoch == old(view.epoch) + 1 && view == old(view).(epoch := epoch)
      ensures poolSet == old(poolSet) + old(newas.poolSet) && recordSet == old(recordSet) + old(newas.recordSet)
    {
      hide AddressPool.Sits;
      forall j, k | j in pools && k in newas.pools ensures pools[j] != newas.pools[k] {
        assert pools[j] in pools.Values && newas.pools[k] in newas.pools.Values;
      }
      Widen(newas.poolSet, newas.recordSet);
      newas.Widen(poolSet, recordSet);
      AdvanceEpoch();
    }

    method AdvanceEpoch()
      requires Valid()
      modifies this`epoch, this`view
      ensures Valid() && epoch == old(view.epoch) + 1 && view == old(view).(epoch := epoch)
    {
      hide AddressPool.Valid, AddressPool.Linked;
      epoch := epoch + 1;
      view := view.(epoch := epoch);
    }

    ghost method Widen(ps: set<AddressPool>, rs: set<AddressRecord>)
      requires Valid()
      modifies this`poolSet, this`recordSet
      ensures Valid() && poolSet == old(poolSet) + ps && recordSet == old(recordSet) + rs
    {
      hide AddressPool.Valid;
      hide AddressPool.Linked;
      poolSet, recordSet := poolSet + ps, recordSet + rs;
    }

    // ----- requestPool and releasePool -----

    /** Changes the reference count of pool k. */
    method SetRefCount(k: Text, n: int)
      requires Valid() && k in pools
      modifies this`view, pools[k]
      ensures Valid() && view == WithPool(old(view), k, old(view.pools[k]).(refCount := n))
    {
      hide AddressPool.Valid;
      hide AddressPool.Linked;
      view := WithPool(view, k, view.pools[k].(refCount := n));
      pools[k].SetRefCount(n);
    }

    method ReleasePool(k: Text) returns (reply: Reply)
      requires Valid()
      modifies this`view, pools.Values
      ensures Valid() && Next(old(view), Step.ReleasePool(k), view, reply)
    {
      hide AddressPool.Sits;
      hide AddressModel.AnyRecordInUse;
      if k !in pools {
        return NoSuchPool;
      }
      PoolIsValid(k);
      var used := pools[k].IsAnyRecordInUse();
      if used {
        assert view == WithPool(view, k, view.pools[k]);
      } else {
        SetRefCount(k, 0);
      }
      return Done;
    }

    method RequestNamedPool(k: Text) returns (reply: Reply)
      requires Valid()
      modifies this`view, pools.Values
      ensures Valid() && Next(old(view), NamedPool(k), view, reply)
    {
      hide AddressPool.Sits;
      if k !in pools {
        return NoSuchPool;
      }
      PoolIsValid(k);
      if pools[k].refCount == 0 {
        SetRefCount(k, 1);
      } else {
        assert view == WithPool(view, k, view.pools[k]);
      }
      return Picked(k);
    }

    /** One visit of the scan: try to release pool k, then weigh it against the best so far. */
    method Visit(k: Text, best: Option<Text>, ifName: Text, v6: bool) returns (next: Option<Text>)
      requires Valid() && k in pools && (best.Some? ==> best.value in pools)
      modifies this`view, pools.Values
      ensures Valid()
      ensures view == WithPool(old(view), k, Settle(old(view.pools[k])))
      ensures next == if !Candidate(old(view.pools[k]), ifName, v6) then best
                      else if best.None? || Preferred(old(view.pools[k]), old(view.pools[best.value])) then Some(k)
                      else best
    {
      hide AddressModel.AnyRecordInUse, AddressPool.Sits;
      PoolIsValid(k);
      if pools[k].refCount > 0 {
        var _ := ReleasePool(k);
      } else {
        assert view == WithPool(view, k, view.pools[k]);
      }
      next := Compare(k, best, ifName, v6);
    }

    /** The rest of it: passes over pools in use or of the wrong kind, and keeps the better one. */
    method Compare(k: Text, best: Option<Text>, ifName: Text, v6: bool) returns (next: Option<Text>)
      requires Valid() && k in pools && (best.Some? ==> best.value in pools)
      ensures var p := view.pools[k];
              next == if p.refCount > 0 || p.isIPv6 != v6 || (ifName != EMPTY && ifName != p.ifName) then best
                      else if best.None? || Preferred(p, view.pools[best.value]) then Some(k)
                      else best
    {
      var pool := pools[k];
      assert pool.Sits(k, this, view.pools[k], recordSet);
      if pool.refCount > 0 || pool.isIPv6 != v6 || (ifName != EMPTY && ifName != pool.ifName) {
        return best;
      }
      if best.None? {
        return Some(k);
      }
      var other := pools[best.value];
      assert other.Sits(best.value, this, view.pools[best.value], recordSet);
      assert |pool.addresses| == |pool.addresses.Keys| && |other.addresses| == |other.addresses.Keys|;
      next := best;
      if pool.priority > other.priority {
        next, other := Some(k), pool;
      }
      if |pool.addresses| > |other.addresses| {
        next := Some(k);
      }
    }

    /** requestPool without a pool ID. `order` is the order in which the map happened to be walked. */
    method RequestAnyPool(ifName: Text, v6: bool) returns (reply: Reply, ghost order: seq<Text>)
      requires Valid()
      modifies this`view, pools.Values
      ensures Valid() && Next(old(view), AnyPool(ifName, v6), view, reply)
      ensures Visits(order, old(view.pools.Keys))
      ensures reply == var picked := Scan(old(view.pools), order, ifName, v6);
                       if picked.Some? then Picked(picked.value) else NoSuchPool
    {
      hide AddressPool.Sits, AddressModel.AfterAnyPool, AddressModel.SettledBy, AddressRuns.Next, AddressModel.Visits;
      var best;
      ghost var s0 := view;
      best, order := ScanPools(ifName, v6);
      AnyPoolNext(s0, order, ifName, v6);
      AfterSettled(s0.pools, order, best);
      if best.None? {
        return NoSuchPool, order;
      }
      PoolIsValid(best.value);
      if pools[best.value].refCount == 0 {
        SetRefCount(best.value, 1);
      }
      return Picked(best.value), order;
    }

    method ScanPools(ifName: Text, v6: bool) returns (best: Option<Text>, ghost order: seq<Text>)
      requires Valid()
      modifies this`view, pools.Values
      ensures Valid()
      ensures Visits(order, old(view.pools.Keys))
      ensures best == Scan(old(view.pools), order, ifName, v6) && (best.Some? ==> best.value in pools)
      ensures view == old(view).(pools := SettledBy(old(view.pools), order))
    {
      hide AddressPool.Sits;
      hide AddressModel.Candidate, AddressModel.Preferred, AddressModel.Settle;
      hide AddressModel.SettledBy, AddressModel.Scan;
      ghost var v0 := view;
      best, order := None, [];
      ScanNothing(v0.pools, ifName, v6);
      var todo := pools.Keys;
      while todo != {}
        invariant Valid() && todo <= pools.Keys && v0.pools.Keys == pools.Keys
        invariant Visits(order, pools.Keys - todo)
        invariant best == Scan(v0.pools, order, ifName, v6) && (best.Some? ==> best.value in pools)
        invariant view == v0.(pools := SettledBy(v0.pools, order))
        decreases todo
      {
        var k :| k in todo;
        ScanStep(v0.pools, order, k, ifName, v6);
        best := Visit(k, best, ifName, v6);
        order := order + [k];
        todo := todo - {k};
      }
      assert pools.Keys - todo == v0.pools.Keys;
    }

    // ----- addresses, by pool -----

    method RequestAddress(k: Text, address: Text, id: Text, gatewayType: bool) returns (reply: Reply)
      requires Valid()
      modifies this`view, pools.Values, recordSet
      ensures Valid() && Next(old(view), Request(k, address, id, gatewayType), view, reply)
    {
      hide AddressModel.Serves, AddressModel.AfterRequest, AddressPool.Sits;
      if k !in pools {
        return NoSuchPool;
      }
      PoolIsValid(k);
      var o := RequestIn(k, address, id, gatewayType);
      view := WithPool(view, k, AfterRequest(view.pools[k], id, o));
      return Answer(o);
    }

    method RequestIn(k: Text, address: Text, id: Text, gatewayType: bool) returns (o: Outcome)
      requires Valid() && k in pools
      modifies pools[k], pools[k].addresses.Values
      ensures ValidExcept(k) && Serves(view.pools[k], address, id, gatewayType, o)
      ensures pools[k].Sits(k, this, AfterRequest(view.pools[k], id, o), recordSet)
    {
      hide AddressPool.Valid, AddressPool.Linked, AddressModel.Serves, AddressModel.AfterRequest;
      PoolIsValid(k);
      OthersApart(pools[k], pools[k]);
      o := pools[k].RequestAddress(address, id, gatewayType);
    }

    /** A release that is not Legal can leave the index of the pool pointing at a dropped record. */
    method ReleaseAddress(k: Text, address: Text, id: Text) returns (reply: Reply)
      requires Valid()
      modifies this`view, pools.Values, recordSet
      ensures Next(old(view), Release(k, address, id), view, reply)
      ensures SpaceInv(old(view)) && Legal(old(view), Release(k, address, id)) ==> Valid()
    {
      hide AddressModel.AfterRelease, AddressModel.Coherent, AddressPool.Sits;
      if k !in pools {
        return NoSuchPool;
      }
      if SpaceInv(view) { ReleaseKeepsCoherent(view.pools[k], epoch, address, id); }
      PoolIsValid(k);
      ReleaseIn(k, address, id);
      view := WithPool(view, k, AfterRelease(view.pools[k], epoch, address, id));
      return Done;
    }

    method ReleaseIn(k: Text, address: Text, id: Text)
      requires Valid() && k in pools
      modifies pools[k], pools[k].addresses.Values
      ensures ValidExcept(k)
      ensures var p := AfterRelease(view.pools[k], epoch, address, id);
              pools[k].view == p && (Coherent(p) ==> pools[k].Sits(k, this, p, recordSet))
    {
      hide AddressPool.Valid, AddressPool.Linked, AddressModel.AfterRelease, AddressModel.Coherent;
      PoolIsValid(k);
      OthersApart(pools[k], pools[k]);
      pools[k].ReleaseAddress(address, id);
    }

    // ----- restore -----

    /** The pools still to do are as the store gave them, the others sit in this space. */
    ghost predicate Restoring(todo: set<Text>)
      reads this, pools.Values, RecordsOf(pools.Values)
    {
      && view == Space(epoch, view.pools)
      && view.pools.Keys == pools.Keys
      && pools.Values <= poolSet
      && forall k :: k in pools ==>
           if k in todo then pools[k].Loaded(k, view.pools[k], recordSet)
           else pools[k].Sits(k, this, view.pools[k], recordSet)
    }

    method RestoreOne(k: Text, ghost todo: set<Text>)
      requires Restoring(todo) && k in todo && k in pools
      modifies this`view, pools[k]
      ensures Restoring(todo - {k})
      ensures k in view.pools && view == WithPool(old(view), k, view.pools[k])
      ensures RebuiltFrom(old(view.pools[k]), view.pools[k])
    {
      hide AddressPool.Sits, AddressPool.Loaded, AddressRuns.RebuiltFrom;
      RebuildIn(k, todo);
      view := WithPool(view, k, pools[k].view);
    }

    method RebuildIn(k: Text, ghost todo: set<Text>)
      requires Restoring(todo) && k in todo && k in pools
      modifies pools[k]
      ensures forall j :: j in pools && j != k ==>
                if j in todo then pools[j].Loaded(j, view.pools[j], recordSet)
                else pools[j].Sits(j, this, view.pools[j], recordSet)
      ensures pools[k].Sits(k, this, pools[k].view, recordSet) && RebuiltFrom(view.pools[k], pools[k].view)
    {
      hide AddressPool.Valid, AddressPool.Linked, AddressModel.IsRebuilt;
      pools[k].Rebuild(this);
    }

    /** Restoring what was saved of a space s is the restart of s. */
    method Restore(ghost s: Space)
      requires Restoring(pools.Keys) && view == Stored(s)
      modifies this`view, pools.Values
      ensures Valid() && Next(s, Restart, view, Done)
    {
      hide AddressPool.Sits, AddressPool.Loaded, AddressRuns.RebuiltFrom, AddressRuns.Next, AddressRuns.Stored;
      ghost var v0 := view.pools;
      var todo := pools.Keys;
      assert view == Space(epoch, view.pools) && v0.Keys == pools.Keys;
      hide AddressSpace.Restoring, AddressSpace.Valid;
      while todo != {}
        invariant todo <= pools.Keys && Restoring(todo)
        invariant view == Space(epoch, view.pools) && view.pools.Keys == v0.Keys
        invariant forall k :: k in todo ==> view.pools[k] == v0[k]
        invariant forall k :: k in pools && k !in todo ==> RebuiltFrom(v0[k], view.pools[k])
        decreases todo
      {
        var k :| k in todo;
        RestoreOne(k, todo);
        todo := todo - {k};
      }
      RestoredIsRestart(s, view);
      Restored(todo);
    }

    lemma Restored(todo: set<Text>)
      requires Restoring(todo) && todo == {}
      ensures Valid()
    {}
  }

  lemma HomesApart(p: AddressPool, q: AddressPool)
    requires p.Valid() && q.Valid() && p != q
    ensures p.addresses.Values !! q.addresses.Values
  {}
}
