/** Routes over netlink (section 3.1.1 of RFC 3549): netlink/ip_linux.go's encoder setIpRoute and its
    decoder deserializeRoute. */
module NetlinkRoutes {
  import opened Basics
  import opened NetlinkCodec
  import opened NetlinkMessages

  const RTM_NEWROUTE: U16 := 24
  const RTM_DELROUTE: U16 := 25
  const NLM_F_REQUEST := 0x1
  const NLM_F_ACK := 0x4
  const NLM_F_EXCL := 0x200
  const NLM_F_CREATE := 0x400

  const RTA_DST: U16 := 1
  const RTA_IIF: U16 := 3
  const RTA_OIF: U16 := 4
  const RTA_GATEWAY: U16 := 5
  const RTA_PRIORITY: U16 := 6
  const RTA_PREFSRC: U16 := 7
  const RTA_TABLE: U16 := 15

  const RTPROT_STATIC: Byte := 4
  const RT_SCOPE_UNIVERSE: Byte := 0
  const RTN_UNICAST: Byte := 1

  // ---------- addresses and masks of Go's net package ----------

  /** The value of an address attribute: IPv4 in its short form; nil unless 4 or 16 bytes. */
  function IpValue(ip: Bytes): (r: Option<Bytes>)
    ensures r.Some? ==> |r.value| == 4 || |r.value| == 16
  {
    if To4(ip).Some? then To4(ip) else if |ip| == 16 then Some(ip) else None
  }

  datatype Mask = NoMask | Cidr(ones: nat, bits: nat) | Irregular

  function MaskOnes(m: Mask): nat { if m.Cidr? then m.ones else 0 }

  function CidrMask(ones: nat, bits: nat): Mask {
    if (bits == 32 || bits == 128) && ones <= bits then Cidr(ones, bits) else NoMask
  }

  datatype IpNet = IpNet(ip: Bytes, mask: Mask)

  datatype Route = Route(
    family: int, dst: Option<IpNet>, src: Option<Bytes>, gw: Option<Bytes>,
    tos: int, table: int, protocol: int, scope: int, typ: int, flags: int,
    priority: int, linkIndex: int, iLinkIndex: int)

  // ---------- Go's conversions to unsigned integers ----------

  function U8Of(v: int): Byte { v % 256 }
  function U32Of(v: int): U32 { v % 0x1_0000_0000 }

  // ---------- the fixed part of a route message ----------

  class RtMsg {
    var family: Byte
    var dstLen: Byte
    var tos: Byte
    var table: Byte
    var protocol: Byte
    var scope: Byte
    var typ: Byte
    var flags: U32

    constructor (family: int)
      ensures this.family == U8Of(family) && dstLen == 0 && tos == 0 && table == 0
      ensures protocol == RTPROT_STATIC && scope == RT_SCOPE_UNIVERSE && typ == RTN_UNICAST && flags == 0
    {
      this.family, dstLen, tos, table := U8Of(family), 0, 0, 0;
      protocol, scope, typ, flags := RTPROT_STATIC, RT_SCOPE_UNIVERSE, RTN_UNICAST, 0;
    }

    function Serialize(big: bool): (r: Bytes)
      reads this
      ensures |r| == 12
    {
      RtBytes(family, dstLen, tos, table, protocol, scope, typ, flags, big)
    }
  }

  function RtBytes(family: Byte, dstLen: Byte, tos: Byte, table: Byte, protocol: Byte, scope: Byte, typ: Byte,
                   flags: U32, big: bool): (r: Bytes)
    ensures |r| == 12
  {
    [family, dstLen, 0, tos, table, protocol, scope, typ] + Put32(flags, big)
  }

  // ---------- encoding ----------

  function IpAttr(t: U16, ip: Bytes): Item { Attr(t, IpValue(ip), []) }

  function U32Attr(t: U16, v: int, big: bool): Item { Attr(t, Some(Put32(U32Of(v), big)), []) }

  function IpAttrs(t: U16, ip: Option<Bytes>): seq<Item> { if ip.Some? then [IpAttr(t, ip.value)] else [] }

  function U32Attrs(t: U16, v: int, big: bool): seq<Item> { if v != 0 then [U32Attr(t, v, big)] else [] }

  function DstIp(r: Route): Option<Bytes> { if r.dst.Some? then Some(r.dst.value.ip) else None }

  /** The attributes of a route, in the order setIpRoute queues them. */
  function RouteAttrs(r: Route, big: bool): seq<Item> {
    IpAttrs(RTA_DST, DstIp(r)) + IpAttrs(RTA_PREFSRC, r.src) + IpAttrs(RTA_GATEWAY, r.gw) +
    U32Attrs(RTA_PRIORITY, r.priority, big) + U32Attrs(RTA_OIF, r.linkIndex, big) + U32Attrs(RTA_IIF, r.iLinkIndex, big)
  }

  /** The fixed part: a zero protocol, scope or type keeps the default. */
  function RouteBody(r: Route, big: bool): (b: Bytes)
    ensures |b| == 12
  {
    RtBytes(U8Of(r.family), if r.dst.Some? then U8Of(MaskOnes(r.dst.value.mask)) else 0, U8Of(r.tos), U8Of(r.table),
            if r.protocol != 0 then U8Of(r.protocol) else RTPROT_STATIC,
            if r.scope != 0 then U8Of(r.scope) else RT_SCOPE_UNIVERSE,
            if r.typ != 0 then U8Of(r.typ) else RTN_UNICAST,
            U32Of(r.flags), big)
  }

  function RouteItems(r: Route, big: bool): seq<Item> { [Body(RouteBody(r, big))] + RouteAttrs(r, big) }

  function RouteHeader(add: bool, seqNo: U32, pid: U32): Header {
    if add then Header(RTM_NEWROUTE, NLM_F_REQUEST + NLM_F_ACK + NLM_F_EXCL + NLM_F_CREATE, seqNo, pid)
    else Header(RTM_DELROUTE, NLM_F_REQUEST + NLM_F_ACK, seqNo, pid)
  }

  /** A childless attribute of at most 16 bytes. */
  predicate Small(it: Item) { it.Attr? && it.children == [] && (it.value.Some? ==> |it.value.value| in {4, 16}) }

  lemma SmallFits(it: Item, big: bool)
    requires Small(it)
    ensures Plain(it) && Fits(it) && |Encode(it, big)| <= 20
    ensures TlvOf(it, big) == Tlv(it.typ, if it.value.Some? then it.value.value else [])
  {
    hide Header4;
    assert Lengths([]) == 0;
    EncodedSize(it, big);
    Aligned(if it.value.Some? then |it.value.value| else 0);
  }

  lemma RouteAttrsSmall(r: Route, big: bool)
    ensures forall it <- RouteAttrs(r, big) :: Small(it)
    ensures |RouteAttrs(r, big)| <= 6
  {
    hide IpValue, Put32;
  }

  lemma RouteItemsFit(r: Route, big: bool)
    ensures forall it <- RouteAttrs(r, big) :: Small(it) && Plain(it) && Fits(it)
    ensures forall it <- RouteItems(r, big) :: Plain(it)
    ensures EncodeAll(RouteItems(r, big), big) == RouteBody(r, big) + EncodeAll(RouteAttrs(r, big), big)
    ensures MessageFits(RouteItems(r, big), big)
  {
    var attrs := RouteAttrs(r, big);
    RouteAttrsSmall(r, big);
    hide RouteAttrs, RouteBody;
    forall it | it in attrs ensures Plain(it) && Fits(it) { SmallFits(it, big); }
    AttrsSize(attrs, big);
    assert RouteItems(r, big)[1..] == attrs;
  }

  lemma {:induction false} AttrsSize(its: seq<Item>, big: bool)
    requires forall it <- its :: Small(it) && Plain(it)
    ensures |EncodeAll(its, big)| <= 20 * |its|
  {
    if its != [] {
      SmallFits(its[0], big);
      AttrsSize(its[1..], big);
    }
  }

  /** The fixed part as setIpRoute fills it before queueing it: no prefix length yet. */
  method NewRouteMsg(r: Route) returns (msg: RtMsg)
    ensures fresh(msg)
    ensures msg.family == U8Of(r.family) && msg.dstLen == 0 && msg.tos == U8Of(r.tos) && msg.table == U8Of(r.table)
    ensures msg.protocol == if r.protocol != 0 then U8Of(r.protocol) else RTPROT_STATIC
    ensures msg.scope == if r.scope != 0 then U8Of(r.scope) else RT_SCOPE_UNIVERSE
    ensures msg.typ == if r.typ != 0 then U8Of(r.typ) else RTN_UNICAST
    ensures msg.flags == U32Of(r.flags)
  {
    msg := new RtMsg(r.family);
    msg.tos := U8Of(r.tos);
    msg.table := U8Of(r.table);
    if r.protocol != 0 { msg.protocol := U8Of(r.protocol); }
    if r.scope != 0 { msg.scope := U8Of(r.scope); }
    if r.typ != 0 { msg.typ := U8Of(r.typ); }
    msg.flags := U32Of(r.flags);
  }

  // ---------- what is on the wire, in numbers ----------

  /** The bytes of an address: an IPv4 one in its short form, none for a malformed one. */
  function WireIp(ip: Bytes): Bytes {
    if |ip| == 16 && ip[..12] == [0, 0, 0, 0, 0, 0, 0, 0, 0, 0, 255, 255] then ip[12..]
    else if |ip| == 4 || |ip| == 16 then ip
    else []
  }

  function WireU32(typ: U16, v: int, big: bool): seq<Tlv> {
    if v == 0 then [] else [Tlv(typ, Put32(v % 0x1_0000_0000, big))]
  }

  /** Destination, preferred source, gateway, priority, outgoing and incoming interface. */
  function WireAttrs(r: Route, big: bool): seq<Tlv> {
    (if r.dst.Some? then [Tlv(1, WireIp(r.dst.value.ip))] else []) +
    (if r.src.Some? then [Tlv(7, WireIp(r.src.value))] else []) +
    (if r.gw.Some? then [Tlv(5, WireIp(r.gw.value))] else []) +
    WireU32(6, r.priority, big) + WireU32(4, r.linkIndex, big) + WireU32(3, r.iLinkIndex, big)
  }

  /** A message of its own length: 24 with flags 0x605 adds a route, 25 with flags 0x5 deletes one. Then
      the fixed part, with the prefix length of the destination and the defaults 4 and 1 for a zero
      protocol and type, and the attributes. */
  predicate OnTheWire(b: Bytes, r: Route, add: bool, seqNo: U32, pid: U32, big: bool) {
    && |b| >= 28 && Get32(b, big) == |b|
    && Get16(b[4..], big) == (if add then 24 else 25)
    && Get16(b[6..], big) == (if add then 0x605 else 0x5)
    && Get32(b[8..], big) == seqNo && Get32(b[12..], big) == pid
    && b[16] == r.family % 256
    && b[17] == (if r.dst.Some? && r.dst.value.mask.Cidr? then r.dst.value.mask.ones % 256 else 0)
    && b[18] == 0 && b[19] == r.tos % 256 && b[20] == r.table % 256
    && b[21] == (if r.protocol == 0 then 4 else r.protocol % 256)
    && b[22] == r.scope % 256
    && b[23] == (if r.typ == 0 then 1 else r.typ % 256)
    && Get32(b[24..], big) == r.flags % 0x1_0000_0000
    && Walk(b[28..], big) == Some(WireAttrs(r, big))
  }

  lemma SentOnTheWire(r: Route, add: bool, seqNo: U32, pid: U32, big: bool)
    ensures MessageFits(RouteItems(r, big), big)
    ensures OnTheWire(MessageBytes(RouteHeader(add, seqNo, pid), RouteItems(r, big), big), r, add, seqNo, pid, big)
  {
    hide MessageBytes, EncodeAll, Put32, Get16, Get32, Walk, WireAttrs, RouteAttrs, Plain, Length;
    RouteItemsFit(r, big);
    MessageRoundTrip(RouteHeader(add, seqNo, pid), RouteItems(r, big), big);
    var b := MessageBytes(RouteHeader(add, seqNo, pid), RouteItems(r, big), big);
    var body, attrs := RouteBody(r, big), EncodeAll(RouteAttrs(r, big), big);
    assert b[16..] == body + attrs;
    assert forall i :: 0 <= i < 12 ==> b[16 + i] == body[i];
    assert b[28..] == attrs;
    FlagsOnTheWire(r, b, attrs, big);
    WalkRecovers(RouteAttrs(r, big), big);
    AttrsOnTheWire(r, big);
  }

  lemma FlagsOnTheWire(r: Route, b: Bytes, rest: Bytes, big: bool)
    requires |b| >= 28 && b[16..] == RouteBody(r, big) + rest
    ensures Get32(b[24..], big) == U32Of(r.flags)
  {
    hide Put32, Get32;
    assert b[24..] == b[16..][8..] == Put32(U32Of(r.flags), big) + rest;
    Uint32RoundTrip(U32Of(r.flags), rest, big);
  }

  lemma AttrsOnTheWire(r: Route, big: bool)
    ensures forall it <- RouteAttrs(r, big) :: !it.Body?
    ensures Tlvs(RouteAttrs(r, big), big) == WireAttrs(r, big)
  {
    hide IpAttrs, U32Attrs, Tlvs, WireU32, WireIp;
    var a1, a2, a3 := IpAttrs(RTA_DST, DstIp(r)), IpAttrs(RTA_PREFSRC, r.src), IpAttrs(RTA_GATEWAY, r.gw);
    var a4, a5 := U32Attrs(RTA_PRIORITY, r.priority, big), U32Attrs(RTA_OIF, r.linkIndex, big);
    var a6 := U32Attrs(RTA_IIF, r.iLinkIndex, big);
    IpOnTheWire(RTA_DST, DstIp(r), big);
    IpOnTheWire(RTA_PREFSRC, r.src, big);
    IpOnTheWire(RTA_GATEWAY, r.gw, big);
    U32OnTheWire(RTA_PRIORITY, r.priority, big);
    U32OnTheWire(RTA_OIF, r.linkIndex, big);
    U32OnTheWire(RTA_IIF, r.iLinkIndex, big);
    TlvsConcat(a1, a2, big);
    TlvsConcat(a1 + a2, a3, big);
    TlvsConcat(a1 + a2 + a3, a4, big);
    TlvsConcat(a1 + a2 + a3 + a4, a5, big);
    TlvsConcat(a1 + a2 + a3 + a4 + a5, a6, big);
  }

  lemma IpOnTheWire(t: U16, ip: Option<Bytes>, big: bool)
    ensures forall it <- IpAttrs(t, ip) :: !it.Body?
    ensures Tlvs(IpAttrs(t, ip), big) == if ip.Some? then [Tlv(t, WireIp(ip.value))] else []
  {
    hide TlvOf;
    if ip.Some? {
      SmallFits(IpAttr(t, ip.value), big);
      assert IpAttrs(t, ip)[1..] == [];
    }
  }

  lemma U32OnTheWire(t: U16, v: int, big: bool)
    ensures forall it <- U32Attrs(t, v, big) :: !it.Body?
    ensures Tlvs(U32Attrs(t, v, big), big) == WireU32(t, v, big)
  {
    hide TlvOf, Put32;
    if v != 0 {
      SmallFits(U32Attr(t, v, big), big);
      assert U32Attrs(t, v, big)[1..] == [];
    }
  }

  /** setIpRoute up to the send. The fixed part is queued before the prefix length is known and is
      changed through the queue's pointer afterwards. */
  method SetIpRoute(r: Route, add: bool, seqNo: U32, pid: U32, big: bool) returns (sent: array<Byte>)
    ensures MessageFits(RouteItems(r, big), big)
    ensures sent[..] == MessageBytes(RouteHeader(add, seqNo, pid), RouteItems(r, big), big)
    ensures OnTheWire(sent[..], r, add, seqNo, pid, big)
  {
    var msg := NewRouteMsg(r);
    var queued, attrs := msg, [];     // the first payload is this object, the others are attributes
    if r.dst.Some? {
      msg.dstLen := U8Of(MaskOnes(r.dst.value.mask));
      attrs := attrs + [IpAttr(RTA_DST, r.dst.value.ip)];
    }
    assert queued.Serialize(big) == RouteBody(r, big);
    assert attrs == IpAttrs(RTA_DST, DstIp(r));
    hide RouteBody, MessageFits, MessageBytes, Plain, IpAttrs, U32Attrs, RouteHeader, OnTheWire;
    attrs := attrs + IpAttrs(RTA_PREFSRC, r.src);
    attrs := attrs + IpAttrs(RTA_GATEWAY, r.gw);
    attrs := attrs + U32Attrs(RTA_PRIORITY, r.priority, big);
    attrs := attrs + U32Attrs(RTA_OIF, r.linkIndex, big);
    attrs := attrs + U32Attrs(RTA_IIF, r.iLinkIndex, big);
    assert attrs == RouteAttrs(r, big);
    RouteItemsFit(r, big);
    SentOnTheWire(r, add, seqNo, pid, big);
    sent := SerializeMessage(RouteHeader(add, seqNo, pid), [Body(queued.Serialize(big))] + attrs, big);
  }

  // ---------- decoding ----------

  function EmptyRoute(b: Bytes, big: bool): Route
    requires |b| >= 12
  {
    Route(b[0], None, None, None, b[3], b[4], b[5], b[6], b[7], Get32(b[8..], big), 0, 0, 0)
  }

  /** One turn of the loop over attributes; None where the program would index past the value. */
  function Apply(r: Route, dstLen: Byte, a: Tlv, big: bool): Option<Route> {
    if a.typ == RTA_DST then Some(r.(dst := Some(IpNet(a.value, CidrMask(dstLen, 8 * |a.value|)))))
    else if a.typ == RTA_PREFSRC then Some(r.(src := Some(a.value)))
    else if a.typ == RTA_GATEWAY then Some(r.(gw := Some(a.value)))
    else if a.typ !in {RTA_TABLE, RTA_PRIORITY, RTA_OIF, RTA_IIF} then Some(r)
    else if |a.value| < 4 then None
    else if a.typ == RTA_TABLE then Some(r.(table := Get32(a.value, big)))
    else if a.typ == RTA_PRIORITY then Some(r.(priority := Get32(a.value, big)))
    else if a.typ == RTA_OIF then Some(r.(linkIndex := Get32(a.value, big)))
    else Some(r.(iLinkIndex := Get32(a.value, big)))
  }

  function ApplyAll(r: Option<Route>, dstLen: Byte, ts: seq<Tlv>, big: bool): Option<Route>
    decreases |ts|
  {
    if r.None? || ts == [] then r
    else ApplyAll(Apply(r.value, dstLen, ts[0], big), dstLen, ts[1..], big)
  }

  /** The attributes behind the fixed part; the socket drops all of them if their list is malformed. */
  function AttrsOf(data: Bytes, big: bool): seq<Tlv>
    requires |data| >= 12
  {
    match Walk(data[12..], big)
    case None => []
    case Some(ts) => ts
  }

  /** The route in the data of a received message; None where the program would index past its end. */
  function DecodeRoute(data: Bytes, big: bool): Option<Route> {
    if |data| < 12 then None
    else ApplyAll(Some(EmptyRoute(data, big)), data[1], AttrsOf(data, big), big)
  }

  method DeserializeRoute(data: Bytes, big: bool) returns (route: Option<Route>)
    ensures route == DecodeRoute(data, big)
  {
    if |data| < 12 {
      return None;
    }
    var attrs := AttrsOf(data, big);
    route := Some(EmptyRoute(data, big));
    for i := 0 to |attrs|
      invariant ApplyAll(route, data[1], attrs[i..], big) == DecodeRoute(data, big)
    {
      if route.None? {
        return;
      }
      route := Apply(route.value, data[1], attrs[i], big);
    }
  }

  /** The value of the last attribute of a type. */
  function LastValue(ts: seq<Tlv>, typ: int): Option<Bytes> {
    if ts == [] then None
    else if ts[|ts| - 1].typ == typ then Some(ts[|ts| - 1].value)
    else LastValue(ts[..|ts| - 1], typ)
  }

  function NumberOr(v: Option<Bytes>, otherwise: int, big: bool): int {
    if v.Some? && |v.value| >= 4 then Get32(v.value, big) else otherwise
  }

  /** A route by its attributes: of each type the last one counts, the others do not. */
  function ByLast(base: Route, dstLen: Byte, ts: seq<Tlv>, big: bool): Route {
    var ip, src, gw := LastValue(ts, 1), LastValue(ts, 7), LastValue(ts, 5);
    base.(
      dst := if ip.None? then base.dst else
             Some(IpNet(ip.value, if |ip.value| in {4, 16} && dstLen <= 8 * |ip.value|
                                  then Cidr(dstLen, 8 * |ip.value|) else NoMask)),
      src := if src.None? then base.src else src,
      gw := if gw.None? then base.gw else gw,
      table := NumberOr(LastValue(ts, 15), base.table, big),
      priority := NumberOr(LastValue(ts, 6), base.priority, big),
      linkIndex := NumberOr(LastValue(ts, 4), base.linkIndex, big),
      iLinkIndex := NumberOr(LastValue(ts, 3), base.iLinkIndex, big))
  }

  /** A number attribute of less than four bytes. */
  predicate CutShort(a: Tlv) { a.typ in {3, 4, 6, 15} && |a.value| < 4 }

  lemma {:induction false} AppliedByLast(base: Route, dstLen: Byte, ts: seq<Tlv>, big: bool)
    ensures ApplyAll(Some(base), dstLen, ts, big) ==
            if exists a <- ts :: CutShort(a) then None else Some(ByLast(base, dstLen, ts, big))
    decreases |ts|
  {
    if ts != [] {
      var front, last := ts[..|ts| - 1], ts[|ts| - 1];
      assert ts == front + [last];
      AppliedByLast(base, dstLen, front, big);
      ApplyConcat(Some(base), dstLen, front, [last], big);
      hide ApplyAll, Get32;
      if exists a <- front :: CutShort(a) {
        AppliedNothing(dstLen, [last], big);
      } else {
        ApplyOne(ByLast(base, dstLen, front, big), dstLen, last, big);
        OneMoreLast(base, dstLen, front, last, big);
      }
    }
  }

  lemma AppliedNothing(dstLen: Byte, ts: seq<Tlv>, big: bool)
    ensures ApplyAll(None, dstLen, ts, big) == None
  {}

  lemma OneMoreLast(base: Route, dstLen: Byte, ts: seq<Tlv>, a: Tlv, big: bool)
    ensures Apply(ByLast(base, dstLen, ts, big), dstLen, a, big) ==
            if CutShort(a) then None else Some(ByLast(base, dstLen, ts + [a], big))
  {
    hide Get32;
    assert (ts + [a])[..|ts|] == ts;
    assert forall t: int :: LastValue(ts + [a], t) == if a.typ == t then Some(a.value) else LastValue(ts, t);
  }

  /** What a received message decodes to, attribute by attribute; nothing only if it is shorter than the
      fixed part or a number attribute is cut short. */
  lemma DecodedByLast(data: Bytes, big: bool)
    requires |data| >= 12
    ensures var ts := AttrsOf(data, big);
            var base := Route(data[0], None, None, None, data[3], data[4], data[5], data[6], data[7],
                              Get32(data[8..], big), 0, 0, 0);
            DecodeRoute(data, big) ==
            if exists a <- ts :: CutShort(a) then None else Some(ByLast(base, data[1], ts, big))
  {
    AppliedByLast(EmptyRoute(data, big), data[1], AttrsOf(data, big), big);
  }

  /** Attributes followed by a malformed one are all dropped: the fixed part is what is left. */
  lemma MalformedListIsDropped(body: Bytes, its: seq<Item>, bad: Bytes, big: bool)
    requires |body| == 12 && forall it <- its :: !it.Body? && Plain(it) && Fits(it)
    requires |bad| >= 4 && !(4 <= Get16(bad, big) <= |bad|)
    ensures AttrsOf(body + (EncodeAll(its, big) + bad), big) == []
  {
    WalkWithTail(its, bad, big);
    assert (body + (EncodeAll(its, big) + bad))[12..] == EncodeAll(its, big) + bad;
  }

  // ---------- the round trip ----------

  /** What comes back of an address: the bytes of the attribute, none for a malformed address. */
  function NormalIp(ip: Bytes): Bytes { if IpValue(ip).Some? then IpValue(ip).value else [] }

  function NormalNet(n: IpNet): IpNet {
    IpNet(NormalIp(n.ip), CidrMask(U8Of(MaskOnes(n.mask)), 8 * |NormalIp(n.ip)|))
  }

  /** IPv4 in 4-byte form, defaults for a zero protocol and type, integers cut to their width. */
  function NormalRoute(r: Route): Route {
    Route(U8Of(r.family),
          if r.dst.Some? then Some(NormalNet(r.dst.value)) else None,
          if r.src.Some? then Some(NormalIp(r.src.value)) else None,
          if r.gw.Some? then Some(NormalIp(r.gw.value)) else None,
          U8Of(r.tos), U8Of(r.table),
          if r.protocol != 0 then U8Of(r.protocol) else RTPROT_STATIC,
          U8Of(r.scope),
          if r.typ != 0 then U8Of(r.typ) else RTN_UNICAST,
          U32Of(r.flags), U32Of(r.priority), U32Of(r.linkIndex), U32Of(r.iLinkIndex))
  }

  lemma {:induction false} TlvsConcat(a: seq<Item>, b: seq<Item>, big: bool)
    requires (forall it <- a :: !it.Body?) && (forall it <- b :: !it.Body?)
    ensures Tlvs(a + b, big) == Tlvs(a, big) + Tlvs(b, big)
  {
    hide TlvOf;
    if a == [] {
      assert a + b == b;
    } else {
      assert (a + b)[1..] == a[1..] + b;
      TlvsConcat(a[1..], b, big);
    }
  }

  lemma {:induction false} ApplyConcat(r: Option<Route>, dstLen: Byte, a: seq<Tlv>, b: seq<Tlv>, big: bool)
    ensures ApplyAll(r, dstLen, a + b, big) == ApplyAll(ApplyAll(r, dstLen, a, big), dstLen, b, big)
    decreases |a|
  {
    if r.None? {
    } else if a == [] {
      assert a + b == b;
    } else {
      assert (a + b)[1..] == a[1..] + b;
      ApplyConcat(Apply(r.value, dstLen, a[0], big), dstLen, a[1..], b, big);
    }
  }

  lemma ApplyOne(r: Route, dstLen: Byte, t: Tlv, big: bool)
    ensures ApplyAll(Some(r), dstLen, [t], big) == Apply(r, dstLen, t, big)
  {
    assert [t][1..] == [];
  }

  /** Reading back a list of small attributes, and then the rest. */
  function ReadAttrs(r: Option<Route>, dstLen: Byte, its: seq<Item>, big: bool): Option<Route>
    requires Readable(its)
  {
    ApplyAll(r, dstLen, Tlvs(its, big), big)
  }

  predicate Readable(its: seq<Item>) { forall it <- its :: !it.Body? }

  lemma ReadConcat(r: Option<Route>, dstLen: Byte, a: seq<Item>, b: seq<Item>, big: bool)
    requires (forall it <- a :: Small(it)) && (forall it <- b :: Small(it))
    ensures Readable(a) && Readable(b) && Readable(a + b)
    ensures ReadAttrs(r, dstLen, a + b, big) == ReadAttrs(ReadAttrs(r, dstLen, a, big), dstLen, b, big)
  {
    TlvsConcat(a, b, big);
    ApplyConcat(r, dstLen, Tlvs(a, big), Tlvs(b, big), big);
  }

  lemma ReadIp(r: Route, dstLen: Byte, t: U16, ip: Option<Bytes>, big: bool)
    requires t in {RTA_DST, RTA_PREFSRC, RTA_GATEWAY}
    ensures Readable(IpAttrs(t, ip)) && forall it <- IpAttrs(t, ip) :: Small(it)
    ensures ReadAttrs(Some(r), dstLen, IpAttrs(t, ip), big) ==
            if ip.None? then Some(r)
            else if t == RTA_DST then
              Some(r.(dst := Some(IpNet(NormalIp(ip.value), CidrMask(dstLen, 8 * |NormalIp(ip.value)|)))))
            else if t == RTA_PREFSRC then Some(r.(src := Some(NormalIp(ip.value))))
            else Some(r.(gw := Some(NormalIp(ip.value))))
  {
    if ip.Some? {
      SmallFits(IpAttr(t, ip.value), big);
      assert Tlvs(IpAttrs(t, ip), big) == [TlvOf(IpAttr(t, ip.value), big)];
      ApplyOne(r, dstLen, TlvOf(IpAttr(t, ip.value), big), big);
    }
  }

  lemma ReadU32(r: Route, dstLen: Byte, t: U16, v: int, big: bool)
    requires t in {RTA_PRIORITY, RTA_OIF, RTA_IIF}
    ensures Readable(U32Attrs(t, v, big)) && forall it <- U32Attrs(t, v, big) :: Small(it)
    ensures ReadAttrs(Some(r), dstLen, U32Attrs(t, v, big), big) ==
            if v == 0 then Some(r)
            else if t == RTA_PRIORITY then Some(r.(priority := U32Of(v)))
            else if t == RTA_OIF then Some(r.(linkIndex := U32Of(v)))
            else Some(r.(iLinkIndex := U32Of(v)))
  {
    if v != 0 {
      SmallFits(U32Attr(t, v, big), big);
      assert Tlvs(U32Attrs(t, v, big), big) == [TlvOf(U32Attr(t, v, big), big)];
      ApplyOne(r, dstLen, TlvOf(U32Attr(t, v, big), big), big);
      Uint32RoundTrip(U32Of(v), [], big);
      assert Put32(U32Of(v), big) + [] == Put32(U32Of(v), big);
    }
  }

  /** Decoding the payload of an encoded route gives the route back, up to NormalRoute. */
  lemma RouteRoundTrip(r: Route, big: bool)
    ensures DecodeRoute(EncodeAll(RouteItems(r, big), big), big) == Some(NormalRoute(r))
  {
    var body, attrs := RouteBody(r, big), RouteAttrs(r, big);
    RouteItemsFit(r, big);
    var data := EncodeAll(RouteItems(r, big), big);
    WalkRecovers(attrs, big);
    assert data[12..] == EncodeAll(attrs, big);
    BodyReads(r, data, big);
    AttrsRead(r, EmptyRoute(data, big), data[1], big);
  }

  lemma BodyReads(r: Route, data: Bytes, big: bool)
    requires RouteBody(r, big) <= data
    ensures EmptyRoute(data, big) ==
            NormalRoute(r).(dst := None, src := None, gw := None, priority := 0, linkIndex := 0, iLinkIndex := 0)
    ensures data[1] == if r.dst.Some? then U8Of(MaskOnes(r.dst.value.mask)) else 0
  {
    assert data[8..] == Put32(U32Of(r.flags), big) + data[12..];
    Uint32RoundTrip(U32Of(r.flags), data[12..], big);
  }

  lemma AttrsRead(r: Route, r0: Route, dstLen: Byte, big: bool)
    requires r0 == NormalRoute(r).(dst := None, src := None, gw := None, priority := 0, linkIndex := 0, iLinkIndex := 0)
    requires r.dst.Some? ==> dstLen == U8Of(MaskOnes(r.dst.value.mask))
    ensures Readable(RouteAttrs(r, big))
    ensures ReadAttrs(Some(r0), dstLen, RouteAttrs(r, big), big) == Some(NormalRoute(r))
  {
    hide ReadAttrs, IpAttrs, U32Attrs, IpValue, CidrMask, MaskOnes, Readable, Small;
    var a1, a2, a3 := IpAttrs(RTA_DST, DstIp(r)), IpAttrs(RTA_PREFSRC, r.src), IpAttrs(RTA_GATEWAY, r.gw);
    var a4, a5 := U32Attrs(RTA_PRIORITY, r.priority, big), U32Attrs(RTA_OIF, r.linkIndex, big);
    var a6 := U32Attrs(RTA_IIF, r.iLinkIndex, big);
    var n := NormalRoute(r);
    var r1 := r0.(dst := n.dst);
    var r2 := r1.(src := n.src);
    var r3 := r2.(gw := n.gw);
    var r4 := r3.(priority := n.priority);
    var r5 := r4.(linkIndex := n.linkIndex);
    ReadIp(r0, dstLen, RTA_DST, DstIp(r), big);
    ReadIp(r1, dstLen, RTA_PREFSRC, r.src, big);
    ReadIp(r2, dstLen, RTA_GATEWAY, r.gw, big);
    ReadU32(r3, dstLen, RTA_PRIORITY, r.priority, big);
    ReadU32(r4, dstLen, RTA_OIF, r.linkIndex, big);
    ReadU32(r5, dstLen, RTA_IIF, r.iLinkIndex, big);
    ReadConcat(Some(r0), dstLen, a1, a2, big);
    ReadConcat(Some(r0), dstLen, a1 + a2, a3, big);
    ReadConcat(Some(r0), dstLen, a1 + a2 + a3, a4, big);
    ReadConcat(Some(r0), dstLen, a1 + a2 + a3 + a4, a5, big);
    ReadConcat(Some(r0), dstLen, a1 + a2 + a3 + a4 + a5, a6, big);
  }

  /** The same through the whole message: what setIpRoute sends is a message of its own length, of
      the asked kind, whose data decode to the route. */
  lemma SentRouteComesBack(r: Route, add: bool, seqNo: U32, pid: U32, big: bool)
    ensures MessageFits(RouteItems(r, big), big)
    ensures var b := MessageBytes(RouteHeader(add, seqNo, pid), RouteItems(r, big), big);
            && |b| >= 16 && ParseHeader(b, big) == (|b|, RouteHeader(add, seqNo, pid))
            && DecodeRoute(b[16..], big) == Some(NormalRoute(r))
  {
    RouteItemsFit(r, big);
    MessageRoundTrip(RouteHeader(add, seqNo, pid), RouteItems(r, big), big);
    RouteRoundTrip(r, big);
  }

  // ---------- when nothing is lost ----------

  predicate ShortestIp(ip: Bytes) { |ip| == 4 || |ip| == 0 || (|ip| == 16 && To4(ip).None?) }

  predicate MatchingMask(n: IpNet) {
    if |n.ip| == 0 then n.mask == NoMask
    else n.mask.Cidr? && n.mask.bits == 8 * |n.ip| && n.mask.ones <= n.mask.bits
  }

  predicate Canonical(r: Route) {
    && 0 <= r.family < 256 && 0 <= r.tos < 256 && 0 <= r.table < 256
    && 0 < r.protocol < 256 && 0 <= r.scope < 256 && 0 < r.typ < 256
    && 0 <= r.flags < 0x1_0000_0000 && 0 <= r.priority < 0x1_0000_0000
    && 0 <= r.linkIndex < 0x1_0000_0000 && 0 <= r.iLinkIndex < 0x1_0000_0000
    && (r.dst.Some? ==> ShortestIp(r.dst.value.ip) && MatchingMask(r.dst.value))
    && (r.src.Some? ==> ShortestIp(r.src.value))
    && (r.gw.Some? ==> ShortestIp(r.gw.value))
  }

  lemma NormalIpFixed(ip: Bytes)
    ensures NormalIp(ip) == ip <==> ShortestIp(ip)
  {}

  lemma NormalNetFixed(n: IpNet)
    ensures NormalNet(n) == n <==> ShortestIp(n.ip) && MatchingMask(n)
  {
    NormalIpFixed(n.ip);
  }

  /** A route survives encoding and decoding unchanged exactly when it is canonical: integers within
      their width, no zero protocol or type, shortest address forms and a mask of the address's size. */
  lemma LosslessIffCanonical(r: Route)
    ensures NormalRoute(r) == r <==> Canonical(r)
  {
    if r.dst.Some? { NormalNetFixed(r.dst.value); }
    if r.src.Some? { NormalIpFixed(r.src.value); }
    if r.gw.Some? { NormalIpFixed(r.gw.value); }
  }
}
