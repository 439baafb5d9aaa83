/** The encoder of netlink/protocol.go: trees of attributes around fixed-size bodies, aligned to four
    bytes, inside a netlink message (header layout: section 2.3.2 of RFC 3549). `big` is the byte
    order of the host. */
module NetlinkCodec {
  import opened Basics

  type U16 = v: int | 0 <= v < 0x1_0000
  type U32 = v: int | 0 <= v < 0x1_0000_0000

  // ---------- integers ----------

  function Put16(v: U16, big: bool): (r: Bytes)
    ensures |r| == 2
  {
    if big then [v / 256, v % 256] else [v % 256, v / 256]
  }

  function Put32(v: U32, big: bool): (r: Bytes)
    ensures |r| == 4
  {
    if big then Put16(v / 0x1_0000, big) + Put16(v % 0x1_0000, big)
    else Put16(v % 0x1_0000, big) + Put16(v / 0x1_0000, big)
  }

  function Get16(b: Bytes, big: bool): U16
    requires |b| >= 2
  {
    var first: int, second: int := b[0], b[1];
    if big then first * 256 + second else second * 256 + first
  }

  function Get32(b: Bytes, big: bool): U32
    requires |b| >= 4
  {
    var first: int, second: int := Get16(b, big), Get16(b[2..], big);
    if big then first * 0x1_0000 + second else second * 0x1_0000 + first
  }

  /** Big-endian bytes are the digits of the number, most significant first; little-endian ones last. */
  lemma Digits(v: U16, w: U32, big: bool)
    ensures var b: seq<int> := Put16(v, big); v == if big then 0x100 * b[0] + b[1] else b[0] + 0x100 * b[1]
    ensures var b: seq<int> := Put32(w, big);
            w == if big then 0x100_0000 * b[0] + 0x1_0000 * b[1] + 0x100 * b[2] + b[3]
                 else b[0] + 0x100 * b[1] + 0x1_0000 * b[2] + 0x100_0000 * b[3]
  {}

  lemma Uint16RoundTrip(v: U16, rest: Bytes, big: bool)
    ensures Get16(Put16(v, big) + rest, big) == v
  {}

  lemma Uint32RoundTrip(v: U32, rest: Bytes, big: bool)
    ensures Get32(Put32(v, big) + rest, big) == v
  {
    var hi, lo := v / 0x1_0000, v % 0x1_0000;
    var first, second := if big then hi else lo, if big then lo else hi;
    var b := Put32(v, big) + rest;
    assert b == Put16(first, big) + (Put16(second, big) + rest);
    assert b[2..] == Put16(second, big) + rest;
    Uint16RoundTrip(first, Put16(second, big) + rest, big);
    Uint16RoundTrip(second, rest, big);
  }

  // ---------- alignment ----------

  function Align(n: nat): (r: nat)
    ensures n <= r < n + 4 && r % 4 == 0
  {
    (n + 3) / 4 * 4
  }

  function Zeros(n: nat): (r: Bytes)
    ensures |r| == n && forall i :: 0 <= i < n ==> r[i] == 0
  {
    seq(n, _ => 0)
  }

  lemma Aligned(n: nat)
    ensures Align(n + 4) == Align(n) + 4
    ensures n % 4 == 0 ==> Align(n) == n
  {}

  /** A zeroed buffer of n bytes after Go's copy of b into it: padded, or cut. */
  function PadTo(b: Bytes, n: nat): (r: Bytes)
    ensures |r| == n
  {
    if |b| <= n then b + Zeros(n - |b|) else b[..n]
  }

  function Padded(b: Bytes): Bytes { PadTo(b, Align(|b|)) }

  // ---------- what is sent ----------

  /** Body: one of the fixed-size messages, as its bytes. Attr: an `attribute`, whose value may be
      nil. Rta: an `rtAttr`; the repository gives it data and no children. */
  datatype Item =
    | Body(bytes: Bytes)
    | Attr(typ: U16, value: Option<Bytes>, children: seq<Item>)
    | Rta(typ: U16, data: Bytes)

  /** The length method. For an rtAttr it is the length without padding. */
  function Length(it: Item): nat {
    match it
    case Body(b) => |b|
    case Attr(_, v, cs) => Align(4 + (if v.Some? then |v.value| else 0) + Lengths(cs))
    case Rta(_, d) => 4 + |d|
  }

  function Lengths(its: seq<Item>): nat {
    if its == [] then 0 else Length(its[0]) + Lengths(its[1..])
  }

  /** The children of attributes are attributes and fixed-size bodies. */
  predicate Plain(it: Item) {
    match it
    case Body(b) => |b| % 4 == 0
    case Attr(_, _, cs) => forall c <- cs :: !c.Rta? && Plain(c)
    case Rta(_, _) => true
  }

  /** The bytes an item becomes. */
  function Encode(it: Item, big: bool): Bytes
    decreases it, 1
  {
    if it.Body? then it.bytes else Header4(Length(it), it.typ, big) + Content(it, big)
  }

  /** What follows the header of an attribute. Children are written only when there is no value. */
  function Content(it: Item, big: bool): Bytes
    requires !it.Body?
    decreases it, 0
  {
    match it
    case Attr(t, v, cs) => PadTo(if v.Some? then v.value else EncodeAll(cs, big), Length(it) - 4)
    case Rta(t, d) => Padded(d)
  }

  /** Length and type, the length cut to 16 bits. */
  function Header4(length: nat, typ: U16, big: bool): (r: Bytes)
    ensures |r| == 4
  {
    Put16(length % 0x1_0000, big) + Put16(typ, big)
  }

  function EncodeAll(its: seq<Item>, big: bool): Bytes
    decreases its, 0
  {
    if its == [] then [] else Encode(its[0], big) + EncodeAll(its[1..], big)
  }

  lemma EncodedSize(it: Item, big: bool)
    requires Plain(it)
    ensures |Encode(it, big)| == Align(Length(it)) && (!it.Rta? ==> Align(Length(it)) == Length(it))
  {
    hide EncodeAll, Lengths, Header4, Align;
    Aligned(Length(it));
    if it.Rta? { Aligned(|it.data|); }
  }

  /** Children without padding of their own: their encodings are as long as their lengths say. */
  lemma {:induction false} EncodedSizes(its: seq<Item>, big: bool)
    requires forall it <- its :: !it.Rta? && Plain(it)
    ensures |EncodeAll(its, big)| == Lengths(its) && Lengths(its) % 4 == 0
  {
    hide Encode, Length, Align;
    if its != [] {
      EncodedSize(its[0], big);
      EncodedSizes(its[1..], big);
    }
  }

  /** Serializing yields exactly length() bytes, a multiple of four. A value comes whole, padded with
      zeros; nested children lie end to end behind the header: nothing is cut off. */
  lemma SerializedLength(it: Item, big: bool)
    requires Plain(it)
    ensures !it.Rta? ==> |Encode(it, big)| == Length(it)
    ensures |Encode(it, big)| % 4 == 0
    ensures it.Attr? && it.value.Some? ==>
              |it.value.value| <= Length(it) - 4 && it.value.value <= Encode(it, big)[4..]
    ensures it.Attr? && it.value.Some? ==>
              forall i :: 4 + |it.value.value| <= i < Length(it) ==> Encode(it, big)[i] == 0
    ensures it.Attr? && it.value.None? ==> Encode(it, big)[4..] == EncodeAll(it.children, big)
    ensures it.Attr? ==>
              var size := 4 + (if it.value.Some? then |it.value.value| else 0) + |EncodeAll(it.children, big)|;
              |Encode(it, big)| == Align(size)
    ensures it.Rta? ==> |Encode(it, big)| >= 4 + |it.data| && Encode(it, big)[4..4 + |it.data|] == it.data
    ensures it.Rta? ==> forall i :: 4 + |it.data| <= i < |Encode(it, big)| ==> Encode(it, big)[i] == 0
  {
    hide EncodeAll, Lengths, Header4, Align;
    EncodedSize(it, big);
    if it.Attr? {
      assert Encode(it, big)[4..] == Content(it, big);
      assert forall i :: 4 <= i < Length(it) ==> Encode(it, big)[i] == Content(it, big)[i - 4];
      EncodedSizes(it.children, big);
      Aligned(4 + Lengths(it.children));
    } else if it.Rta? {
      Aligned(|it.data|);
      assert Encode(it, big)[4..] == Padded(it.data);
      assert Encode(it, big)[4..4 + |it.data|] == Padded(it.data)[..|it.data|];
      assert forall i :: 4 <= i < |Encode(it, big)| ==> Encode(it, big)[i] == Padded(it.data)[i - 4];
    }
  }

  lemma {:induction false} EncodeAllConcat(a: seq<Item>, b: seq<Item>, big: bool)
    ensures EncodeAll(a + b, big) == EncodeAll(a, big) + EncodeAll(b, big)
  {
    hide Encode;
    if a == [] {
      assert a + b == b;
    } else {
      assert (a + b)[1..] == a[1..] + b;
      EncodeAllConcat(a[1..], b, big);
    }
  }

  lemma EncodeOneMore(its: seq<Item>, i: nat, big: bool)
    requires i < |its|
    ensures EncodeAll(its[..i + 1], big) == EncodeAll(its[..i], big) + Encode(its[i], big)
  {
    hide Encode;
    assert its[..i + 1] == its[..i] + [its[i]];
    EncodeAllConcat(its[..i], [its[i]], big);
    assert [its[i]][1..] == [];
    assert EncodeAll([its[i]], big) == Encode(its[i], big) + EncodeAll([], big);
  }

  // ---------- serialize, over a buffer with a moving offset ----------

  /** Go's copy into buf[at:], for a source that fits. */
  method CopyInto(buf: array<Byte>, at: nat, src: Bytes)
    requires at + |src| <= buf.Length
    modifies buf
    ensures buf[..] == old(buf[..at]) + src + old(buf[at + |src|..])
  {
    for i := 0 to |src|
      invariant forall j :: 0 <= j < i ==> buf[at + j] == src[j]
      invariant forall j :: 0 <= j < buf.Length && !(at <= j < at + i) ==> buf[j] == old(buf[j])
    {
      buf[at + i] := src[i];
    }
  }

  method Serialize(it: Item, big: bool) returns (buf: array<Byte>)
    requires Plain(it)
    ensures fresh(buf) && buf[..] == Encode(it, big)
    decreases it, 1
  {
    match it
    case Body(b) =>
      buf := new Byte[|b|](_ => 0);
      CopyInto(buf, 0, b);
      assert buf[..] == b;
    case Attr(_, _, _) =>
      buf := SerializeAttribute(it, big);
    case Rta(_, _) =>
      buf := SerializeRta(it, big);
  }

  /** A copy behind the header of a zeroed buffer, and the header written afterwards. */
  lemma CopiedBehindHeader(zeros: Bytes, d: Bytes, header: Bytes, after: Bytes)
    requires |header| == 4 && 4 + |d| <= |zeros| && forall i :: 0 <= i < |zeros| ==> zeros[i] == 0
    requires var copied := zeros[..4] + d + zeros[4 + |d|..]; after == copied[..0] + header + copied[4..]
    ensures after == header + PadTo(d, |zeros| - 4)
  {
    var copied := zeros[..4] + d + zeros[4 + |d|..];
    assert copied[4..] == d + zeros[4 + |d|..];
    assert zeros[4 + |d|..] == Zeros(|zeros| - 4 - |d|);
    assert copied[..0] + header == header;
  }

  method SerializeRta(it: Item, big: bool) returns (buf: array<Byte>)
    requires it.Rta?
    ensures fresh(buf) && buf[..] == Encode(it, big)
  {
    hide Header4, Align;
    var length := Length(it);
    Aligned(|it.data|);
    buf := new Byte[Align(length)](_ => 0);
    ghost var zeros := buf[..];
    CopyInto(buf, 4, it.data);
    ghost var copied := buf[..];
    assert copied[..4] == zeros[..4];
    assert copied == zeros[..4] + it.data + zeros[4 + |it.data|..];
    CopyInto(buf, 0, Header4(length, it.typ, big));
    assert buf[..] == copied[..0] + Header4(length, it.typ, big) + copied[4..];
    CopiedBehindHeader(zeros, it.data, Header4(length, it.typ, big), buf[..]);
  }

  method SerializeAttribute(it: Item, big: bool) returns (buf: array<Byte>)
    requires it.Attr? && Plain(it)
    ensures fresh(buf) && buf[..] == Encode(it, big)
    decreases it, 0
  {
    hide Header4, Align, EncodeAll, Lengths;
    var length := Length(it);
    ghost var header := Header4(length, it.typ, big);
    SerializedLength(it, big);
    buf := new Byte[length](_ => 0);
    CopyInto(buf, 0, Header4(length, it.typ, big));
    assert buf[..] == header + Zeros(length - 4);
    if it.value.Some? {
      CopyInto(buf, 4, it.value.value);
      assert buf[..] == header + PadTo(it.value.value, length - 4);
    } else {
      EncodedSizes(it.children, big);
      SerializeChildren(it.children, big, buf);
      assert buf[..] == buf[..4] + buf[4..];
    }
  }

  lemma ChildStep(cs: seq<Item>, i: nat, big: bool)
    requires (forall c <- cs :: !c.Rta? && Plain(c)) && i < |cs|
    ensures Lengths(cs[i..]) == |Encode(cs[i], big)| + Lengths(cs[i + 1..])
  {
    hide Encode, Length, Align, Plain;
    EncodedSize(cs[i], big);
    assert cs[i..][1..] == cs[i + 1..];
  }

  lemma EncodeNothing(big: bool)
    ensures EncodeAll([], big) == [] && Lengths([]) == 0
  {}

  /** The loop over the nested attributes. */
  method SerializeChildren(cs: seq<Item>, big: bool, buf: array<Byte>)
    requires forall c <- cs :: !c.Rta? && Plain(c)
    requires buf.Length == 4 + Lengths(cs)
    modifies buf
    ensures buf[..4] == old(buf[..4]) && buf[4..] == EncodeAll(cs, big)
    decreases cs, 2
  {
    hide Encode, EncodeAll, Lengths, Length, Align;
    var offset := 4;
    EncodeNothing(big);
    assert cs[..0] == [] && cs[0..] == cs && cs[|cs|..] == [];
    for i := 0 to |cs|
      invariant 4 <= offset && offset + Lengths(cs[i..]) == buf.Length
      invariant buf[..4] == old(buf[..4]) && buf[4..offset] == EncodeAll(cs[..i], big)
    {
      ghost var before := buf[..];
      var childBuf := Serialize(cs[i], big);
      ChildStep(cs, i, big);
      EncodeOneMore(cs, i, big);
      CopyInto(buf, offset, childBuf[..]);
      assert buf[4..offset + childBuf.Length] == before[4..offset] + childBuf[..];
      assert buf[..4] == before[..4];
      offset := offset + childBuf.Length;
    }
    assert cs[..|cs|] == cs;
  }
}
