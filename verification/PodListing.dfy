/** The refresh of the IPv6 source (ipam/ipv6Ipam.go): it fills a new address space with the addresses
    offered to pods, which is then the first space of the manager or merged into it. */
module PodListing {
  import opened Basics
  import opened AddressModel
  import opened AddressRuns
  import opened AddressObjects
  import opened SubnetAddresses

  /** The text forms of addresses. */
  function Texts(text: Bytes -> Text, addresses: seq<Bytes>): set<Text> {
    set i | 0 <= i < |addresses| :: text(addresses[i])
  }

  /** The pool as the source leaves it. */
  ghost predicate IsPodPool(p: Pool, text: Bytes -> Text, addresses: seq<Bytes>) {
    IsListingPool(p) && p.records.Keys == Texts(text, addresses)
  }

  /** Two states of a pool that differ in their records at most. */
  predicate SameRoot(p: Pool, q: Pool) { q == p.(records := q.records) }

  lemma OneMoreAddress(text: Bytes -> Text, addresses: seq<Bytes>, i: nat)
    requires i < |addresses|
    ensures Texts(text, addresses[..i + 1]) == Texts(text, addresses[..i]) + {text(addresses[i])}
  {}

  lemma OfferedContained(o: Offer, i: nat)
    requires IsOffer(o) && i < 254
    ensures Contains(o.net, MaskBytes(16, SUBNET_HOST_BITS), o.addresses[i])
  {
    hide Value, Contains, Agrees, MaskBytes, IsNetwork, SubnetAddresses.Listed;
    SmallBlock(o.net, o.addresses[i]);
    MemberByValue(o.net, SUBNET_HOST_BITS, o.addresses[i]);
  }

  /** refresh up to setAddressSpace. `text` writes an address and `key` a subnet; the result is null if
      there is no IPv6 subnet. Addresses that newAddressRecord refuses are passed over. */
  method Refresh(cidrs: seq<Option<Bytes>>, text: Bytes -> Text, key: Bytes -> Text)
    returns (local: AddressSpace?, ghost offer: Option<Offer>)
    requires forall c <- cidrs :: c.Some? ==> |c.value| == 16
    ensures local != null <==> exists k :: IsNode(cidrs, k) && cidrs[k].Some?
    ensures local != null ==>
              && fresh(local) && fresh(local.poolSet) && fresh(local.recordSet)
              && local.Valid() && IsListing(local.view)
              && offer.Some? && IsOffer(offer.value)
              && (exists k :: IsNode(cidrs, k) && cidrs[k].Some? && offer.value.net == cidrs[k].value[..15] + [0])
              && local.view.pools.Keys == {key(offer.value.net)}
              && IsPodPool(local.view.pools[key(offer.value.net)], text, offer.value.addresses)
    ensures local != null ==>
              var p := local.view.pools[key(offer.value.net)];
              && p.ifName == EMPTY && p.isIPv6 && p.priority == 0
              && exists g :: IsGateway(offer.value.net, g) && p.gateway == text(g)
  {
    hide StartsMapped, IsOffer, AddressSpace.Valid;
    var found := RetrieveKubernetesPodIPs(cidrs);
    offer := found;
    if found.None? {
      return null, found;
    }
    ghost var k :| IsNode(cidrs, k) && cidrs[k].Some? && found.value.net == cidrs[k].value[..15] + [0];
    NodeIsIPv6(cidrs, k, found.value.net);
    local := ListOffer(found.value, text, key(found.value.net));
  }

  lemma NodeIsIPv6(cidrs: seq<Option<Bytes>>, k: int, net: Bytes)
    requires IsNode(cidrs, k) && cidrs[k].Some? && |cidrs[k].value| == 16 && net == cidrs[k].value[..15] + [0]
    ensures To4(net).None?
  {
    assert net[..12] == cidrs[k].value[..12];
  }

  method ListOffer(o: Offer, text: Bytes -> Text, k: Text) returns (local: AddressSpace)
    requires IsOffer(o)
    ensures fresh(local) && fresh(local.poolSet) && fresh(local.recordSet)
    ensures local.Valid() && IsListing(local.view)
    ensures local.view.pools.Keys == {k} && IsPodPool(local.view.pools[k], text, o.addresses)
    ensures var p := local.view.pools[k];
            && p.ifName == EMPTY && p.isIPv6 == To4(o.net).None? && p.priority == 0
            && exists g :: IsGateway(o.net, g) && p.gateway == text(g)
  {
    hide IsNetwork, Value, Or, Contains, MaskBytes, AddressSpace.Valid, To4;
    local := new AddressSpace();
    var gateway := GenerateAddress(o.net, GATEWAY_HOST_ID);
    assert IsGateway(o.net, gateway[..]);
    var _, _ := local.NewAddressPool(k, EMPTY, To4(o.net).None?, 0, text(gateway[..]));
    FillPool(local, k, o, text);
  }

  /** The loop over the addresses. */
  method FillPool(local: AddressSpace, k: Text, o: Offer, text: Bytes -> Text)
    requires IsOffer(o) && local.Valid() && k in local.pools && local.view.pools.Keys == {k}
    requires local.view.epoch == 0 && IsPodPool(local.view.pools[k], text, [])
    modifies local`view, local`recordSet, local.pools[k]
    ensures local.Valid() && fresh(local.recordSet - old(local.recordSet))
    ensures local.view.pools.Keys == {k} && SameRoot(old(local.view.pools)[k], local.view.pools[k])
    ensures IsListing(local.view) && IsPodPool(local.view.pools[k], text, o.addresses)
  {
    hide IsNetwork, Value, Contains, MaskBytes, AddressSpace.Valid, Texts;
    assert o.addresses[..0] == [] && o.addresses[..254] == o.addresses;
    for i := 0 to 254
      invariant local.Valid() && local.view.epoch == 0 && local.view.pools.Keys == {k}
      invariant IsPodPool(local.view.pools[k], text, o.addresses[..i])
      invariant SameRoot(old(local.view.pools)[k], local.view.pools[k])
      invariant fresh(local.recordSet - old(local.recordSet))
    {
      OfferedContained(o, i);
      OneMoreAddress(text, o.addresses, i);
      var contained := Contains(o.net, MaskBytes(16, SUBNET_HOST_BITS), o.addresses[i]);
      var _ := local.NewAddressRecord(k, text(o.addresses[i]), contained);
    }
  }

  // ---------- the gateway is never granted ----------

  /** Different addresses have different texts. */
  ghost predicate Faithful(text: Bytes -> Text) {
    forall a: Bytes, b: Bytes :: |a| == |b| == 16 && text(a) == text(b) ==> a == b
  }

  /** What a listing has for pool k, if anything, is the offer. */
  ghost predicate ListsOffer(n: Space, k: Text, text: Bytes -> Text, o: Offer) {
    k in n.pools ==> IsPodPool(n.pools[k], text, o.addresses)
  }

  /** In a run whose listings of a pool are all the offer for its subnet, no request is ever granted the
      gateway. */
  lemma GatewayNeverGranted(r: Run, j: nat, k: Text, o: Offer, g: Bytes, text: Bytes -> Text)
    requires IsRun(r) && j < |r.steps| && IsOffer(o) && IsGateway(o.net, g) && Faithful(text)
    requires ListsOffer(r.states[0], k, text, o)
    requires forall m :: 0 <= m < |r.steps| && r.steps[m].Refresh? ==> ListsOffer(r.steps[m].listing, k, text, o)
    requires r.steps[j].Request? && r.steps[j].pool == k
    ensures r.replies[j] != Answer(Granted(text(g)))
  {
    hide Next, Legal, IsNetwork, Value, Or, Contains;
    if r.replies[j] == Answer(Granted(text(g))) {
      GrantedWasListed(r, j, k, text(g));
      assert text(g) in Texts(text, o.addresses);
      var i :| 0 <= i < |o.addresses| && text(o.addresses[i]) == text(g);
      OfferedAddresses(o, g, g);
    }
  }
}
