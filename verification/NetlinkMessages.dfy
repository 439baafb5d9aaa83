/** Reading back what the encoder wrote: the attribute walk that the socket applies to received
    messages, a decoder for whole attribute trees, and the message around them. */
module NetlinkMessages {
  import opened Basics
  import opened NetlinkCodec

  // ---------- the walk over a flat list of attributes ----------

  datatype Tlv = Tlv(typ: U16, value: Bytes)

  /** One pass over attributes: the length field bounds the value, the next one starts aligned. */
  function Walk(b: Bytes, big: bool): Option<seq<Tlv>>
    decreases |b|
  {
    if |b| < 4 then Some([]) else
    var l := Get16(b, big);
    if l < 4 || l > |b| then None else
    var rest := if Align(l) <= |b| then b[Align(l)..] else [];
    match Walk(rest, big)
    case None => None
    case Some(ts) => Some([Tlv(Get16(b[2..], big), b[4..l])] + ts)
  }

  /** An attribute as the walk sees it: a plain one with its padding, an rtAttr without. */
  function TlvOf(it: Item, big: bool): Tlv
    requires !it.Body?
  {
    match it
    case Attr(t, v, cs) => Tlv(t, if v.Some? then PadTo(v.value, Length(it) - 4) else EncodeAll(cs, big))
    case Rta(t, d) => Tlv(t, d)
  }

  function Tlvs(its: seq<Item>, big: bool): seq<Tlv>
    requires forall it <- its :: !it.Body?
  {
    if its == [] then [] else [TlvOf(its[0], big)] + Tlvs(its[1..], big)
  }

  predicate Fits(it: Item) { Length(it) < 0x1_0000 }

  lemma RawHeader(len: U16, typ: U16, tail: Bytes, big: bool)
    ensures var b := Put16(len, big) + Put16(typ, big) + tail;
            Get16(b, big) == len && Get16(b[2..], big) == typ
  {
    var b := Put16(len, big) + Put16(typ, big) + tail;
    assert b == Put16(len, big) + (Put16(typ, big) + tail);
    assert b[2..] == Put16(typ, big) + tail;
    Uint16RoundTrip(len, Put16(typ, big) + tail, big);
    Uint16RoundTrip(typ, tail, big);
  }

  /** The header of an encoded attribute tells its length and type, whatever follows. */
  lemma HeaderReads(it: Item, rest: Bytes, big: bool)
    requires !it.Body? && Plain(it) && Fits(it)
    ensures var b := Encode(it, big) + rest;
            && |b| >= 4 && Get16(b, big) == Length(it) && Get16(b[2..], big) == it.typ
            && 4 <= Length(it) <= Align(Length(it)) <= |b|
            && b[4..Length(it)] == TlvOf(it, big).value
            && b[Align(Length(it))..] == rest
  {
    hide Put16, Get16, TlvOf, Plain, Length, Align, Content;
    var e, c := Encode(it, big), Content(it, big);
    EncodedSize(it, big);
    ContentReads(it, big);
    RawHeader(Length(it), it.typ, c + rest, big);
    assert e + rest == Put16(Length(it), big) + Put16(it.typ, big) + (c + rest);
    assert (e + rest)[4..Length(it)] == c[..Length(it) - 4];
  }

  lemma ContentReads(it: Item, big: bool)
    requires !it.Body? && Plain(it)
    ensures 4 <= Length(it) <= 4 + |Content(it, big)|
    ensures Content(it, big)[..Length(it) - 4] == TlvOf(it, big).value
  {
    hide Align, EncodeAll, Lengths, Zeros;
    var c := Content(it, big);
    if it.Attr? {
      assert c[..Length(it) - 4] == c;
      if it.value.None? { NestedContent(it, big); }
    }
  }

  lemma NestedContent(it: Item, big: bool)
    requires it.Attr? && it.value.None? && Plain(it)
    ensures Content(it, big) == EncodeAll(it.children, big)
  {
    hide EncodeAll, Content;
    SerializedLength(it, big);
    assert Encode(it, big)[4..] == Content(it, big);
  }

  /** The walk recovers every type and value of an encoded list, in order. */
  lemma {:induction false} WalkRecovers(its: seq<Item>, big: bool)
    requires forall it <- its :: !it.Body? && Plain(it) && Fits(it)
    ensures Walk(EncodeAll(its, big), big) == Some(Tlvs(its, big))
  {
    hide Encode, Length, Plain, Align, Get16;
    if its != [] {
      var rest := EncodeAll(its[1..], big);
      HeaderReads(its[0], rest, big);
      WalkRecovers(its[1..], big);
      assert EncodeAll(its, big) == Encode(its[0], big) + rest;
    }
  }

  /** A tail too short for a header is ignored; a tail whose length field is below four or beyond the end
      makes the whole list malformed, whatever went before it. */
  lemma {:induction false} WalkWithTail(its: seq<Item>, tail: Bytes, big: bool)
    requires forall it <- its :: !it.Body? && Plain(it) && Fits(it)
    ensures |tail| < 4 ==> Walk(EncodeAll(its, big) + tail, big) == Some(Tlvs(its, big))
    ensures |tail| >= 4 && !(4 <= Get16(tail, big) <= |tail|) ==> Walk(EncodeAll(its, big) + tail, big) == None
  {
    hide Encode, Length, Plain, Align, Get16;
    if its == [] {
      assert EncodeAll(its, big) + tail == tail;
    } else {
      var rest := EncodeAll(its[1..], big) + tail;
      HeaderReads(its[0], rest, big);
      WalkWithTail(its[1..], tail, big);
      assert EncodeAll(its, big) + tail == Encode(its[0], big) + rest;
    }
  }

  // ---------- whole trees ----------

  /** What a reader must know beforehand: where fixed-size bodies are, and what is nested. */
  datatype Shape = BodyShape(size: nat) | LeafShape | NestShape(children: seq<Shape>)

  function ShapeOf(it: Item): Shape {
    match it
    case Body(b) => BodyShape(|b|)
    case Attr(_, v, cs) => if v.Some? then LeafShape else NestShape(ShapesOf(cs))
    case Rta(_, _) => LeafShape
  }

  function ShapesOf(its: seq<Item>): (r: seq<Shape>)
    ensures |r| == |its|
  {
    if its == [] then [] else [ShapeOf(its[0])] + ShapesOf(its[1..])
  }

  function Decode(shapes: seq<Shape>, b: Bytes, big: bool): Option<seq<Item>>
  {
    if shapes == [] then (if b == [] then Some([]) else None) else
    match shapes[0]
    case BodyShape(n) =>
      if n > |b| then None else Prepend(Body(b[..n]), Decode(shapes[1..], b[n..], big))
    case LeafShape =>
      if |b| < 4 || !(4 <= Get16(b, big) <= |b|) || Align(Get16(b, big)) > |b| then None else
      Prepend(Attr(Get16(b[2..], big), Some(b[4..Get16(b, big)]), []),
              Decode(shapes[1..], b[Align(Get16(b, big))..], big))
    case NestShape(cs) =>
      if |b| < 4 || !(4 <= Get16(b, big) <= |b|) || Align(Get16(b, big)) > |b| then None else
      match Decode(cs, b[4..Get16(b, big)], big)
      case None => None
      case Some(children) =>
        Prepend(Attr(Get16(b[2..], big), None, children),
                Decode(shapes[1..], b[Align(Get16(b, big))..], big))
  }

  function Prepend(it: Item, rest: Option<seq<Item>>): Option<seq<Item>> {
    match rest
    case None => None
    case Some(its) => Some([it] + its)
  }

  /** The tree that comes back: values of plain attributes keep their padding. */
  function Normal(it: Item): Item {
    match it
    case Body(_) => it
    case Attr(t, v, cs) =>
      if v.Some? then Attr(t, Some(PadTo(v.value, Length(it) - 4)), []) else Attr(t, None, Normals(cs))
    case Rta(t, d) => Attr(t, Some(d), [])
  }

  function Normals(its: seq<Item>): seq<Item> {
    if its == [] then [] else [Normal(its[0])] + Normals(its[1..])
  }

  lemma {:induction false} ChildrenFit(cs: seq<Item>, n: nat)
    requires Lengths(cs) < n
    ensures forall c <- cs :: Length(c) < n
  {
    if cs != [] {
      ChildrenFit(cs[1..], n);
      assert cs == [cs[0]] + cs[1..];
    }
  }

  /** Decoding an encoded tree recovers every type and zero-padded value at every depth. */
  lemma {:induction false} TreeRoundTrip(its: seq<Item>, big: bool)
    requires forall it <- its :: Plain(it) && (it.Body? || Fits(it))
    ensures Decode(ShapesOf(its), EncodeAll(its, big), big) == Some(Normals(its))
    decreases its
  {
    if its != [] {
      var it, rest := its[0], EncodeAll(its[1..], big);
      TreeRoundTrip(its[1..], big);
      assert ShapesOf(its)[1..] == ShapesOf(its[1..]);
      if it.Body? {
        var b := Encode(it, big) + rest;
        assert b[..|it.bytes|] == it.bytes && b[|it.bytes|..] == rest;
      } else {
        AttributeRoundTrip(it, ShapesOf(its), rest, Normals(its[1..]), big);
      }
    }
  }

  /** One attribute in front of bytes that already decode. */
  lemma {:induction false} AttributeRoundTrip(it: Item, shapes: seq<Shape>, rest: Bytes, tail: seq<Item>, big: bool)
    requires !it.Body? && Plain(it) && Fits(it)
    requires shapes != [] && shapes[0] == ShapeOf(it) && Decode(shapes[1..], rest, big) == Some(tail)
    ensures Decode(shapes, Encode(it, big) + rest, big) == Some([Normal(it)] + tail)
    decreases it, 1
  {
    HeaderReads(it, rest, big);
    if it.Attr? && it.value.None? { NestedRoundTrip(it, big); }
    hide Encode, EncodeAll, Length, Align, Get16, Plain;
  }

  lemma {:induction false} NestedRoundTrip(it: Item, big: bool)
    requires it.Attr? && it.value.None? && Plain(it) && Fits(it)
    ensures Decode(ShapesOf(it.children), EncodeAll(it.children, big), big) == Some(Normals(it.children))
    decreases it, 0
  {
    ChildrenFit(it.children, 0x1_0000);
    TreeRoundTrip(it.children, big);
  }

  // ---------- the message ----------

  datatype Header = Header(typ: U16, flags: U16, seqNo: U32, pid: U32)

  function HeaderBytes(len: U32, h: Header, big: bool): (r: Bytes)
    ensures |r| == 16
  {
    Put32(len, big) + Put16(h.typ, big) + Put16(h.flags, big) + Put32(h.seqNo, big) + Put32(h.pid, big)
  }

  predicate MessageFits(its: seq<Item>, big: bool) { 16 + |EncodeAll(its, big)| < 0x1_0000_0000 }

  function MessageBytes(h: Header, its: seq<Item>, big: bool): Bytes
    requires MessageFits(its, big)
  {
    HeaderBytes(16 + |EncodeAll(its, big)|, h, big) + EncodeAll(its, big)
  }

  /** What a receiver reads of a message: the header fields and the bytes behind them. */
  function ParseHeader(b: Bytes, big: bool): (U32, Header)
    requires |b| >= 16
  {
    (Get32(b, big), Header(Get16(b[4..], big), Get16(b[6..], big), Get32(b[8..], big), Get32(b[12..], big)))
  }

  /** The length field of a message is its size, and header and payload come back. */
  lemma MessageRoundTrip(h: Header, its: seq<Item>, big: bool)
    requires MessageFits(its, big)
    ensures var b := MessageBytes(h, its, big);
            |b| >= 16 && ParseHeader(b, big) == (|b|, h) && b[16..] == EncodeAll(its, big)
  {
    hide Put16, Put32, Get16, Get32, EncodeAll;
    var e := EncodeAll(its, big);
    var len, t, f := Put32(16 + |e|, big), Put16(h.typ, big), Put16(h.flags, big);
    var n, p := Put32(h.seqNo, big), Put32(h.pid, big);
    var b := MessageBytes(h, its, big);
    assert b == len + (t + f + n + p + e);
    assert b[4..] == t + (f + n + p + e);
    assert b[6..] == f + (n + p + e);
    assert b[8..] == n + (p + e);
    assert b[12..] == p + e;
    Uint32RoundTrip(16 + |e|, t + f + n + p + e, big);
    Uint16RoundTrip(h.typ, f + n + p + e, big);
    Uint16RoundTrip(h.flags, n + p + e, big);
    Uint32RoundTrip(h.seqNo, p + e, big);
    Uint32RoundTrip(h.pid, e, big);
  }

  function Total(parts: seq<Bytes>): nat {
    if parts == [] then 0 else Total(parts[..|parts| - 1]) + |parts[|parts| - 1]|
  }

  function Joined(parts: seq<Bytes>): (r: Bytes)
    ensures |r| == Total(parts)
  {
    if parts == [] then [] else Joined(parts[..|parts| - 1]) + parts[|parts| - 1]
  }

  lemma {:induction false} TotalGrows(parts: seq<Bytes>, i: nat)
    requires i <= |parts|
    ensures Total(parts[..i]) <= Total(parts)
  {
    if i < |parts| {
      var front := parts[..|parts| - 1];
      assert parts[..i] == front[..i];
      TotalGrows(front, i);
    } else {
      assert parts[..i] == parts;
    }
  }

  /** The message's serialize: payloads first, to know the length, then the header, then copies. */
  method SerializeMessage(h: Header, its: seq<Item>, big: bool) returns (buf: array<Byte>)
    requires (forall it <- its :: Plain(it)) && MessageFits(its, big)
    ensures fresh(buf) && buf[..] == MessageBytes(h, its, big)
  {
    hide Total, Joined, EncodeAll, HeaderBytes, Plain;
    var parts := SerializePayload(its, big);
    buf := new Byte[16 + Total(parts)](_ => 0);
    CopyInto(buf, 0, HeaderBytes(buf.Length, h, big));
    assert buf[..16] == HeaderBytes(buf.Length, h, big);
    AppendParts(buf, parts);
    assert buf[..] == buf[..16] + buf[16..];
  }

  /** The loop that appends the payloads. */
  method AppendParts(buf: array<Byte>, parts: seq<Bytes>)
    requires buf.Length == 16 + Total(parts)
    modifies buf
    ensures buf[..16] == old(buf[..16]) && buf[16..] == Joined(parts)
  {
    hide Total, Joined;
    var next := 16;
    JoinedNothing();
    assert parts[..0] == [] && parts[..|parts|] == parts;
    for i := 0 to |parts|
      invariant 16 <= next == 16 + Total(parts[..i]) <= buf.Length
      invariant buf[..16] == old(buf[..16])
      invariant buf[16..next] == Joined(parts[..i])
    {
      ghost var before := buf[..];
      JoinedStep(parts, i);
      CopyInto(buf, next, parts[i]);
      assert buf[16..next + |parts[i]|] == before[16..next] + parts[i];
      assert buf[..16] == before[..16];
      next := next + |parts[i]|;
    }
  }

  lemma JoinedNothing()
    ensures Joined([]) == [] && Total([]) == 0
  {}

  lemma JoinedStep(parts: seq<Bytes>, i: nat)
    requires i < |parts|
    ensures Joined(parts[..i + 1]) == Joined(parts[..i]) + parts[i]
    ensures Total(parts[..i + 1]) == Total(parts[..i]) + |parts[i]| <= Total(parts)
  {
    TotalGrows(parts, i + 1);
    assert parts[..i + 1][..i] == parts[..i];
  }

  method SerializePayload(its: seq<Item>, big: bool) returns (parts: seq<Bytes>)
    requires forall it <- its :: Plain(it)
    ensures Joined(parts) == EncodeAll(its, big)
  {
    hide Encode;
    parts := [];
    for i := 0 to |its|
      invariant Joined(parts) == EncodeAll(its[..i], big)
    {
      var b := Serialize(its[i], big);
      EncodeOneMore(its, i, big);
      assert (parts + [b[..]])[..|parts|] == parts;
      parts := parts + [b[..]];
    }
    assert its[..|its|] == its;
  }
}
