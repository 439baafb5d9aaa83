/** Enumerating the addresses of a subnet (ipam/ipv6Ipam.go) and the gateway address that platform/ip.go
    generates for it. An address is its bytes, most significant first; a prefix of n bytes with h host
    bits has length 8 n - h. */
module SubnetAddresses {
  import opened Basics

  // ---------- addresses as numbers ----------

  function Value(b: Bytes): nat {
    if b == [] then 0 else 256 * Value(b[..|b| - 1]) + b[|b| - 1]
  }

  lemma {:induction false} ValueBound(b: Bytes)
    ensures Value(b) < Pow2(8 * |b|)
  {
    if b != [] {
      ValueBound(b[..|b| - 1]);
      Pow2Eight(8 * |b| - 8);
    }
  }

  lemma Pow2Eight(n: nat)
    ensures Pow2(n + 8) == 256 * Pow2(n)
  {
    assert Pow2(n + 8) == 2 * Pow2(n + 7) == 4 * Pow2(n + 6) == 8 * Pow2(n + 5) == 16 * Pow2(n + 4);
    assert Pow2(n + 4) == 2 * Pow2(n + 3) == 4 * Pow2(n + 2) == 8 * Pow2(n + 1) == 16 * Pow2(n);
  }

  lemma {:induction false} ValueInjective(a: Bytes, b: Bytes)
    requires |a| == |b| && Value(a) == Value(b)
    ensures a == b
  {
    hide Value;
    if a != [] {
      var m := |a| - 1;
      LastDigit(a);
      LastDigit(b);
      DigitsUnique(Value(a[..m]), a[m], Value(b[..m]), b[m]);
      ValueInjective(a[..m], b[..m]);
      assert a == a[..m] + [a[m]] && b == b[..m] + [b[m]];
    }
  }

  lemma LastDigit(b: Bytes)
    requires b != []
    ensures Value(b) == 256 * Value(b[..|b| - 1]) + b[|b| - 1]
  {}

  lemma DigitsUnique(x: nat, l: Byte, y: nat, m: Byte)
    requires 256 * x + l == 256 * y + m
    ensures x == y && l == m
  {}

  // ---------- incrementIP ----------

  function Incremented(b: Bytes): (r: Bytes)
    ensures |r| == |b|
  {
    if b == [] then []
    else if b[|b| - 1] == 255 then Incremented(b[..|b| - 1]) + [0]
    else b[..|b| - 1] + [b[|b| - 1] + 1]
  }

  lemma Wrap(v: nat, p: nat)
    requires v <= p && p > 0
    ensures v % p == if v == p then 0 else v
  {}

  /** Byte-wise increment with carry adds one, and wraps around at the end of the address space. */
  lemma {:induction false} IncrementCarries(b: Bytes)
    ensures Value(Incremented(b)) == if Value(b) + 1 == Pow2(8 * |b|) then 0 else Value(b) + 1
  {
    hide Value, Pow2, Incremented;
    IncrementedParts(b);
    if b == [] {
      NoValue(b);
      Pow2Small();
    } else {
      var front := b[..|b| - 1];
      Pow2Eight(8 * |b| - 8);
      ValueBound(front);
      LastDigit(b);
      LastDigit(Incremented(b));
      IncrementCarries(front);
    }
  }

  lemma IncrementedParts(b: Bytes)
    ensures if b == [] then Incremented(b) == [] else
            var m := |b| - 1;
            && Incremented(b)[..m] == (if b[m] == 255 then Incremented(b[..m]) else b[..m])
            && Incremented(b)[m] == if b[m] == 255 then 0 else b[m] + 1
  {}

  lemma IncrementAddsOne(b: Bytes)
    ensures Value(Incremented(b)) == (Value(b) + 1) % Pow2(8 * |b|)
  {
    hide Value, Pow2, Incremented;
    IncrementCarries(b);
    ValueBound(b);
    Wrap(Value(b) + 1, Pow2(8 * |b|));
  }

  method IncrementIP(ip: array<Byte>)
    modifies ip
    ensures ip[..] == Incremented(old(ip[..]))
  {
    hide Incremented;
    ghost var b := ip[..];
    var j := ip.Length - 1;
    while j >= 0
      invariant -1 <= j < ip.Length
      invariant forall k :: 0 <= k <= j ==> ip[k] == b[k]
      invariant forall k :: j < k < ip.Length ==> b[k] == 255 && ip[k] == 0
    {
      ip[j] := if ip[j] == 255 then 0 else ip[j] + 1;
      if ip[j] > 0 {
        break;
      }
      j := j - 1;
    }
    forall k | 0 <= k < ip.Length ensures ip[k] == Incremented(b)[k] { IncrementedAt(b, j, k); }
  }

  /** The increment, byte by byte: j is the last byte that does not wrap, -1 if all do. */
  lemma {:induction false} IncrementedAt(b: Bytes, j: int, k: nat)
    requires -1 <= j < |b| && k < |b|
    requires (forall i :: j < i < |b| ==> b[i] == 255) && (j >= 0 ==> b[j] < 255)
    ensures Incremented(b)[k] == if k < j then b[k] else if k == j then b[k] + 1 else 0
  {
    if j < |b| - 1 && k < |b| - 1 { IncrementedAt(b[..|b| - 1], j, k); }
  }

  // ---------- masks ----------

  /** Bitwise and, and or. */
  function And(a: nat, b: nat): nat {
    if a == 0 then 0 else 2 * And(a / 2, b / 2) + (if a % 2 == 1 && b % 2 == 1 then 1 else 0)
  }

  function Or(a: nat, b: nat): nat
    decreases a + b
  {
    if a == 0 then b else if b == 0 then a
    else 2 * Or(a / 2, b / 2) + (if a % 2 == 1 || b % 2 == 1 then 1 else 0)
  }

  /** What is left of a number without its low k bits. */
  function High(v: nat, k: nat): nat { if k == 0 then v else High(v / 2, k - 1) }

  /** The mask byte that covers k host bits, and the mask of n bytes with h host bits. */
  function MaskByte(k: nat): Byte
    requires k <= 8
  {
    assert Pow2(8) == 256 by { Pow2Eight(0); }
    Pow2Monotone(k, 8);
    256 - Pow2(k)
  }

  /** How many of h host bits are in the last byte. */
  function Last(h: nat): nat { if h < 8 then h else 8 }

  function MaskBytes(n: nat, h: nat): (r: Bytes)
    requires h <= 8 * n
    ensures |r| == n
  {
    if n == 0 then [] else MaskBytes(n - 1, if h < 8 then 0 else h - 8) + [MaskByte(Last(h))]
  }

  function Masked(b: Bytes, mask: Bytes): (r: Bytes)
    requires |b| == |mask|
    ensures |r| == |b|
    ensures forall i :: 0 <= i < |b| ==> r[i] == And(b[i], mask[i])
  {
    forall i | 0 <= i < |b| ensures And(b[i], mask[i]) <= b[i] { AndBelow(b[i], mask[i]); }
    seq(|b|, i requires 0 <= i < |b| => AndByte(b[i], mask[i]))
  }

  function AndByte(a: Byte, m: Byte): Byte { AndBelow(a, m); And(a, m) }

  lemma AndBelow(a: nat, b: nat)
    ensures And(a, b) <= a
  {}

  lemma {:induction false} Pow2Monotone(a: nat, b: nat)
    requires a <= b
    ensures Pow2(a) <= Pow2(b)
  {
    if a < b { Pow2Monotone(a, b - 1); }
  }

  lemma DoublePow2(n: nat)
    ensures Pow2(n + 1) == 2 * Pow2(n)
  {}

  lemma {:induction false} Pow2Adds(a: nat, b: nat)
    ensures Pow2(a + b) == Pow2(a) * Pow2(b)
  {
    hide Pow2;
    if a == 0 {
      Pow2Small();
    } else {
      Pow2Adds(a - 1, b);
      DoublePow2(a - 1);
      DoublePow2(a - 1 + b);
      Regroup3(2, Pow2(a - 1), Pow2(b));
    }
  }

  lemma AndStep(a: nat, b: nat)
    ensures And(a, b) == 2 * And(a / 2, b / 2) + if a % 2 == 1 && b % 2 == 1 then 1 else 0
  {}

  lemma HighStep(v: nat, k: nat)
    requires k > 0
    ensures High(v, k) == High(v / 2, k - 1)
  {}

  lemma HalvesEven(p: nat, q: nat)
    requires q <= p
    ensures (2 * p - 2 * q) / 2 == p - q && (2 * p - 2 * q) % 2 == 0
  {
    var t := p - q;
    assert 2 * p - 2 * q == 2 * t;
  }

  lemma HalvesOdd(p: nat)
    requires p > 0
    ensures (2 * p - 1) / 2 == p - 1 && (2 * p - 1) % 2 == 1
  {
    var t := p - 1;
    assert 2 * p - 1 == 2 * t + 1;
  }

  /** A mask of all m bits takes nothing away. */
  lemma {:induction false} AndKeeps(a: nat, m: nat)
    requires a < Pow2(m)
    ensures And(a, Pow2(m) - 1) == a
  {
    hide And, Pow2;
    if m == 0 {
      Pow2Small();
      AndBelow(a, Pow2(m) - 1);
    } else {
      DoublePow2(m - 1);
      AndKeeps(a / 2, m - 1);
      HalvesOdd(Pow2(m - 1));
      AndStep(a, Pow2(m) - 1);
    }
  }

  /** Masking away the low k of m bits. */
  lemma {:induction false} AndClears(a: nat, m: nat, k: nat)
    requires k <= m && a < Pow2(m)
    ensures Pow2(k) <= Pow2(m) && And(a, Pow2(m) - Pow2(k)) == High(a, k) * Pow2(k)
  {
    hide And, High, Pow2;
    Pow2Monotone(k, m);
    if k == 0 {
      Pow2Small();
      AndKeeps(a, m);
      HighZero(a);
    } else {
      var p, q := Pow2(m - 1), Pow2(k - 1);
      DoublePow2(m - 1);
      DoublePow2(k - 1);
      AndClears(a / 2, m - 1, k - 1);
      HalvesEven(p, q);
      AndStep(a, 2 * p - 2 * q);
      HighStep(a, k);
      Regroup2(2, High(a, k), q);
    }
  }

  lemma MaskClears(a: Byte, k: nat)
    requires k <= 8
    ensures And(a, MaskByte(k)) == High(a, k) * Pow2(k)
  {
    Pow2Eight(0);
    AndClears(a, 8, k);
  }

  /** Dropping low bits of a number split at bit m. */
  lemma {:induction false} HighSplits(m: nat, k: nat, x: nat, l: nat)
    requires l < Pow2(m) && k <= m
    ensures Pow2(m) * x >= 0 && High(Pow2(m) * x + l, k) == Pow2(m - k) * x + High(l, k)
    ensures High(l, k) < Pow2(m - k)
  {
    hide High, Pow2;
    var v := Pow2(m) * x;
    if k == 0 {
      HighZero(v + l);
      HighZero(l);
    } else {
      DoublePow2(m - 1);
      HighSplits(m - 1, k - 1, x, l / 2);
      var y := Pow2(m - 1) * x;
      assert v == 2 * y by { Regroup2(2, x, Pow2(m - 1)); }
      assert (v + l) / 2 == y + l / 2;
      HighStep(v + l, k);
      HighStep(l, k);
    }
  }

  lemma {:induction false} MulOrder(p: nat, x: nat, y: nat)
    requires x < y
    ensures p * x + p <= p * y
  {
    if x + 1 < y { MulOrder(p, x, y - 1); }
    assert p * y == p * (y - 1) + p;
  }

  lemma SplitUnique(p: nat, x: nat, a: nat, y: nat, b: nat)
    requires a < p && b < p
    ensures p * x + a == p * y + b <==> x == y && a == b
  {
    if x < y {
      MulOrder(p, x, y);
    } else if y < x {
      MulOrder(p, y, x);
    }
  }

  lemma Regroup(p: nat, q: nat, x: nat, l: nat)
    ensures (p * x + l) * q == (p * q) * x + l * q
  {
    assert (p * x + l) * q == p * x * q + l * q;
    assert p * x * q == (p * q) * x;
  }

  lemma Regroup2(c: nat, a: nat, p: nat)
    ensures c * (a * p) == a * (c * p) && (c * p) * a == c * (p * a)
  {}

  lemma {:induction false} HighHigh(v: nat, a: nat, b: nat)
    ensures High(v, a + b) == High(High(v, a), b)
  {
    if a > 0 { HighHigh(v / 2, a - 1, b); }
  }

  /** Dropping h bits of an address, by way of its last byte. */
  lemma HighOfValue(b: Bytes, h: nat)
    requires b != []
    ensures h >= 8 ==> High(Value(b), h) == High(Value(b[..|b| - 1]), h - 8)
    ensures h < 8 ==> High(Value(b), h) == Pow2(8 - h) * Value(b[..|b| - 1]) + High(b[|b| - 1], h)
    ensures h < 8 ==> High(b[|b| - 1], h) < Pow2(8 - h)
  {
    hide High, Pow2;
    var x, l := Value(b[..|b| - 1]), b[|b| - 1];
    Pow2Small();
    HighSplits(8, if h >= 8 then 8 else h, x, l);
    if h >= 8 { HighHigh(Value(b), 8, h - 8); }
  }

  lemma ByteHasNoHigh(l: Byte)
    ensures High(l, 8) == 0
  {
    hide High, Pow2;
    Pow2Small();
    HighSplits(8, 8, 0, l);
  }

  lemma Pow2Small()
    ensures Pow2(0) == 1 && Pow2(8) == 256
  {
    Pow2Eight(0);
  }

  lemma HighZero(v: nat)
    ensures High(v, 0) == v && Pow2(0) == 1
  {}

  lemma MaskBytesLast(n: nat, h: nat)
    requires n > 0 && h <= 8 * n
    ensures MaskBytes(n, h)[..n - 1] == MaskBytes(n - 1, if h < 8 then 0 else h - 8)
    ensures MaskBytes(n, h)[n - 1] == MaskByte(Last(h))
  {
    hide MaskByte;
  }

  lemma MaskedFront(b: Bytes, mask: Bytes, m: nat)
    requires m <= |b| == |mask|
    ensures Masked(b, mask)[..m] == Masked(b[..m], mask[..m])
  {
    hide And, Masked;
  }

  lemma MaskedLast(b: Bytes, h: nat)
    requires b != [] && h <= 8 * |b|
    ensures var m := |b| - 1; var mask := MaskBytes(|b|, h); var h' := if h < 8 then 0 else h - 8;
            && Masked(b, mask)[..m] == Masked(b[..m], MaskBytes(m, h'))
            && Masked(b, mask)[m] == High(b[m], Last(h)) * Pow2(Last(h))
  {
    hide And, High, Pow2, MaskByte, MaskBytes, Masked;
    MaskBytesLast(|b|, h);
    MaskedFront(b, MaskBytes(|b|, h), |b| - 1);
    MaskClears(b[|b| - 1], Last(h));
  }

  /** Masking an address rounds its value down to a multiple of 2^h. */
  lemma {:induction false} MaskedValue(b: Bytes, h: nat)
    requires h <= 8 * |b|
    ensures Value(Masked(b, MaskBytes(|b|, h))) == High(Value(b), h) * Pow2(h)
  {
    hide High, MaskBytes, Masked, Pow2, Value;
    if b == [] {
      NoValue(Masked(b, MaskBytes(|b|, h)));
      NoValue(b);
      HighZero(0);
    } else {
      var m := |b| - 1;
      var masked := Masked(b, MaskBytes(|b|, h));
      MaskedLast(b, h);
      MaskedValue(b[..m], if h < 8 then 0 else h - 8);
      HighOfValue(b, h);
      LastDigit(masked);
      if h >= 8 {
        ByteHasNoHigh(b[m]);
        WholeByte(High(Value(b[..m]), h - 8), h);
      } else {
        HighZero(Value(b[..m]));
        PartOfByte(Value(b[..m]), High(b[m], h), h);
      }
    }
  }

  lemma NoValue(b: Bytes)
    requires b == []
    ensures Value(b) == 0
  {}

  lemma WholeByte(x: nat, h: nat)
    requires h >= 8
    ensures x * Pow2(h) == 256 * (x * Pow2(h - 8)) && 0 * Pow2(8) == 0
  {
    Pow2Eight(h - 8);
    Regroup2(256, x, Pow2(h - 8));
  }

  lemma PartOfByte(x: nat, l: nat, h: nat)
    requires h < 8
    ensures (Pow2(8 - h) * x + l) * Pow2(h) == 256 * x + l * Pow2(h) && x * 1 == x
  {
    hide Pow2;
    Pow2Small();
    Pow2Adds(8 - h, h);
    Regroup(Pow2(8 - h), Pow2(h), x, l);
  }

  /** The network and the address agree under the mask. */
  predicate Agrees(net: Bytes, mask: Bytes, x: Bytes) {
    |net| == |mask| == |x| && Masked(net, mask) == Masked(x, mask)
  }

  /** That is: they agree on the high bits. */
  lemma AgreesIff(net: Bytes, h: nat, x: Bytes)
    requires |net| == |x| && h <= 8 * |x|
    ensures Agrees(net, MaskBytes(|x|, h), x) <==> High(Value(net), h) == High(Value(x), h)
  {
    hide High, MaskBytes, Value, Pow2;
    var mask := MaskBytes(|x|, h);
    MaskedValue(net, h);
    MaskedValue(x, h);
    var a, b, p := High(Value(net), h), High(Value(x), h), Pow2(h);
    SplitUnique(p, a, 0, b, 0);
    if a == b {
      ValueInjective(Masked(net, mask), Masked(x, mask));
    }
  }

  // ---------- blocks of addresses ----------

  /** net is a network address: its host bits are zero. */
  predicate IsNetwork(net: Bytes, h: nat) {
    h <= 8 * |net| && Value(net) == High(Value(net), h) * Pow2(h)
  }

  /** The low h bits. */
  function Low(v: nat, h: nat): nat { if h == 0 then 0 else 2 * Low(v / 2, h - 1) + v % 2 }

  lemma LowStep(v: nat, h: nat)
    ensures Low(v, 0) == 0 && (h > 0 ==> Low(v, h) == 2 * Low(v / 2, h - 1) + v % 2)
  {}

  lemma {:induction false} HighAndLow(v: nat, h: nat)
    ensures v == High(v, h) * Pow2(h) + Low(v, h) && Low(v, h) < Pow2(h)
  {
    hide High, Low, Pow2;
    LowStep(v, h);
    if h == 0 {
      HighZero(v);
    } else {
      HighAndLow(v / 2, h - 1);
      HighStep(v, h);
      DoublePow2(h - 1);
      Regroup2(2, High(v, h), Pow2(h - 1));
    }
  }

  /** The addresses that agree with a network are those of its block. */
  lemma MemberByValue(net: Bytes, h: nat, x: Bytes)
    requires IsNetwork(net, h) && |x| == |net|
    ensures Agrees(net, MaskBytes(|x|, h), x) <==> Value(net) <= Value(x) < Value(net) + Pow2(h)
    ensures Agrees(net, MaskBytes(|x|, h), x) ==>
              Value(x) == Value(net) + Low(Value(x), h) && Low(Value(x), h) < Pow2(h)
  {
    hide High, Low, Value, Pow2, MaskBytes, Agrees;
    AgreesIff(net, h, x);
    HighAndLow(Value(x), h);
    SameBlock(Pow2(h), High(Value(net), h), High(Value(x), h), Low(Value(x), h));
  }

  lemma SameBlock(p: nat, q: nat, r: nat, l: nat)
    requires l < p
    ensures q * p <= r * p + l < q * p + p <==> q == r
  {
    if r < q { MulOrder(p, r, q); } else if q < r { MulOrder(p, q, r); }
  }

  lemma MaskedIsNetwork(b: Bytes, h: nat)
    requires h <= 8 * |b|
    ensures IsNetwork(Masked(b, MaskBytes(|b|, h)), h)
    ensures Agrees(Masked(b, MaskBytes(|b|, h)), MaskBytes(|b|, h), b)
  {
    hide High, Value, Pow2, MaskBytes, Agrees;
    MaskedValue(b, h);
    HighOfMultiple(High(Value(b), h), h);
    AgreesIff(Masked(b, MaskBytes(|b|, h)), h, b);
  }

  lemma HighOfMultiple(q: nat, h: nat)
    ensures q * Pow2(h) >= 0 && High(q * Pow2(h), h) == q
  {
    hide High, Pow2;
    Pow2Small();
    HighSplits(h, h, q, 0);
    HighOfZero(h);
    assert Pow2(h) * q + 0 == q * Pow2(h);
  }

  lemma {:induction false} HighOfZero(h: nat)
    ensures High(0, h) == 0
  {
    if h > 0 { HighOfZero(h - 1); }
  }

  lemma {:induction false} Pow2Strict(a: nat, b: nat)
    requires a < b
    ensures Pow2(a) < Pow2(b)
  {
    if a + 1 < b { Pow2Strict(a, b - 1); }
  }

  /** The block of a network ends within the address space. */
  lemma BlockEnds(net: Bytes, h: nat)
    requires IsNetwork(net, h)
    ensures Value(net) + Pow2(h) <= Pow2(8 * |net|)
  {
    hide High, Value, Pow2;
    ValueBound(net);
    Pow2Adds(8 * |net| - h, h);
    BlockArith(High(Value(net), h), Pow2(h), Pow2(8 * |net| - h));
  }

  lemma BlockArith(q: nat, p: nat, k: nat)
    requires q * p < k * p
    ensures q * p + p <= k * p
  {
    if q < k { MulOrder(p, q, k); } else if k < q { MulOrder(p, k, q); }
  }

  // ---------- IPNet.Contains and the IPv4-mapped addresses ----------

  function Short(ip: Bytes): Bytes { if To4(ip).Some? then To4(ip).value else ip }

  /** IPNet.Contains: both addresses are taken in their 4-byte form when they have one, and then their
      lengths must be the same. */
  predicate Contains(net: Bytes, mask: Bytes, x: Bytes) {
    var short := Short(net);
    Agrees(short, if |mask| == 16 && |short| == 4 then mask[12..] else mask, Short(x))
  }

  predicate IsMapped(x: Bytes) { |x| == 16 && To4(x).Some? }

  const MAPPED_FIRST := 0xffff_0000_0000    // the value of ::ffff:0:0
  const MAPPED_END := 0x1_0000_0000_0000

  /** A block of more than 32 host bits around ::ffff:0:0. */
  predicate CutShort(net: Bytes, h: nat) {
    |net| == 16 && h > 32 && Value(net) <= MAPPED_FIRST < Value(net) + Pow2(h)
  }

  lemma Pow2Of32()
    ensures Pow2(8) == 256 && Pow2(32) == 0x1_0000_0000
  {
    Pow2Eight(0);
    Pow2Eight(8);
    Pow2Eight(16);
    Pow2Eight(24);
  }

  lemma SplitAt12(x: Bytes)
    requires |x| == 16
    ensures Value(x) == 0x1_0000_0000 * Value(x[..12]) + Value(x[12..]) && Value(x[12..]) < 0x1_0000_0000
  {
    assert x[..15][..14] == x[..14] && x[..14][..13] == x[..13] && x[..13][..12] == x[..12];
    var t := x[12..];
    assert t[..3][..2] == t[..2] && t[..2][..1] == t[..1] && t[..1][..0] == [];
    assert Value(x) == 256 * Value(x[..15]) + x[15] && Value(x[..15]) == 256 * Value(x[..14]) + x[14];
    assert Value(x[..14]) == 256 * Value(x[..13]) + x[13] && Value(x[..13]) == 256 * Value(x[..12]) + x[12];
    assert Value(t) == 256 * Value(t[..3]) + t[3] && Value(t[..3]) == 256 * Value(t[..2]) + t[2];
    assert Value(t[..2]) == 256 * Value(t[..1]) + t[1] && Value(t[..1]) == t[0];
  }

  lemma {:induction false} ValueOfZeros(b: Bytes)
    requires forall i :: 0 <= i < |b| ==> b[i] == 0
    ensures Value(b) == 0
  {
    if b != [] { ValueOfZeros(b[..|b| - 1]); }
  }

  lemma TwelveBytes(b: Bytes)
    requires |b| == 12 && forall i :: 0 <= i < 10 ==> b[i] == 0
    ensures Value(b) == 256 * (b[10] as int) + b[11]
  {
    ValueOfZeros(b[..10]);
    assert b[..11][..10] == b[..10];
    assert Value(b[..11]) == 256 * Value(b[..10]) + b[10];
  }

  /** The mapped addresses are those of ::ffff:0:0/96. */
  lemma MappedByValue(x: Bytes)
    requires |x| == 16
    ensures IsMapped(x) <==> MAPPED_FIRST <= Value(x) < MAPPED_END
  {
    hide Value;
    SplitAt12(x);
    TwelveBytes(V4_IN_V6_PREFIX);
    if Value(x[..12]) == Value(V4_IN_V6_PREFIX) { ValueInjective(x[..12], V4_IN_V6_PREFIX); }
  }

  /** A block of at most 32 host bits has only mapped addresses or none; a larger one does not start
      with a mapped address. */
  lemma BlockAndMapped(net: Bytes, h: nat)
    requires |net| == 16 && IsNetwork(net, h)
    ensures var v := Value(net); var end := v + Pow2(h);
            if MAPPED_FIRST <= v < MAPPED_END then h <= 32 && end <= MAPPED_END
            else h > 32 || end <= MAPPED_FIRST || MAPPED_END <= v
  {
    hide High, Value, Pow2;
    Pow2Of32();
    var q := High(Value(net), h);
    if h <= 32 {
      var k := Pow2(32 - h);
      Pow2Adds(32 - h, h);
      Regroup3(0xffff, k, Pow2(h));
      Regroup3(0x10000, k, Pow2(h));
      if Value(net) < MAPPED_FIRST { BlockArith(q, Pow2(h), 0xffff * k); }
      if Value(net) < MAPPED_END { BlockArith(q, Pow2(h), 0x10000 * k); }
    } else {
      Pow2Adds(h - 32, 32);
      assert Pow2(h - 32) == 2 * Pow2(h - 33) by { DoublePow2(h - 33); }
      EvenMultiple(q, Pow2(h - 33));
    }
  }

  lemma Regroup3(a: nat, k: nat, p: nat)
    ensures a * (k * p) == (a * k) * p
  {}

  /** An even multiple of 2^32 is not a mapped address. */
  lemma EvenMultiple(q: nat, p: nat)
    ensures var v := q * (2 * p * 0x1_0000_0000); !(MAPPED_FIRST <= v < MAPPED_END)
  {
    var a := q * p;
    assert q * (2 * p * 0x1_0000_0000) == a * 0x2_0000_0000 by { Regroup2(0x2_0000_0000, q, p); }
  }

  /** Contains is membership in the block, except for mapped addresses in a block that starts before
      them. */
  lemma ContainsIff(net: Bytes, h: nat, x: Bytes)
    requires |net| == |x| && (|net| == 4 || |net| == 16) && IsNetwork(net, h)
    ensures Contains(net, MaskBytes(|x|, h), x) <==>
              Agrees(net, MaskBytes(|x|, h), x) && !(CutShort(net, h) && IsMapped(x))
  {
    hide Value, Pow2, High, Masked, MaskBytes;
    if |net| == 16 {
      MappedByValue(net);
      MappedByValue(x);
      BlockAndMapped(net, h);
      MemberByValue(net, h, x);
      if IsMapped(net) && IsMapped(x) { ShortAgrees(net, MaskBytes(16, h), x); }
    }
  }

  lemma ShortAgrees(net: Bytes, mask: Bytes, x: Bytes)
    requires IsMapped(net) && IsMapped(x) && |mask| == 16
    ensures Contains(net, mask, x) <==> Agrees(net, mask, x)
  {
    hide And;
    var a, b := Masked(net, mask), Masked(x, mask);
    assert net[..12] == x[..12];
    assert forall i :: 0 <= i < 12 ==> net[i] == net[..12][i] && x[i] == x[..12][i];
    assert Masked(net[12..], mask[12..]) == a[12..] && Masked(x[12..], mask[12..]) == b[12..];
    assert a[..12] == b[..12];
    assert a == a[..12] + a[12..] && b == b[..12] + b[12..];
  }

  // ---------- enumeration ----------

  /** ips counts up from the network address. */
  predicate CountsUp(ips: seq<Bytes>, net: Bytes) {
    forall i :: 0 <= i < |ips| ==> |ips[i]| == |net| && Value(ips[i]) == Value(net) + i
  }

  /** How many addresses the enumeration lists: the block, or what lies before ::ffff:0:0. */
  function Listed(net: Bytes, h: nat): nat {
    if CutShort(net, h) then MAPPED_FIRST - Value(net) else Pow2(h)
  }

  /** An address i past the network address, wrapped around at the end of the address space. */
  function WrapValue(v: nat, n: nat): nat { if v == Pow2(8 * n) then 0 else v }

  /** The loop test holds for the addresses to be listed and fails for the next. */
  lemma LoopTest(net: Bytes, h: nat, i: nat, x: Bytes)
    requires IsNetwork(net, h) && i <= Listed(net, h)
    requires |x| == |net| && ((|net| == 4 && h < 32) || |net| == 16)
    requires Value(x) == WrapValue(Value(net) + i, |net|)
    ensures Contains(net, MaskBytes(|x|, h), x) <==> i < Listed(net, h)
    ensures i < Listed(net, h) ==> Value(x) == Value(net) + i
  {
    hide Value, Pow2, MaskBytes, Contains, Agrees, High, IsNetwork, To4;
    ContainsIff(net, h, x);
    MemberByValue(net, h, x);
    BlockEnds(net, h);
    if h < 8 * |net| { Pow2Strict(h, 8 * |net|); }
    if |net| == 16 {
      MappedByValue(x);
      LargeSpace();
    }
  }

  lemma LargeSpace()
    ensures Pow2(128) > MAPPED_END
  {
    hide Pow2;
    Pow2Of32();
    Pow2Adds(32, 32);
    Pow2Strict(64, 128);
  }

  /** getIPsFromAddresses: the addresses of the subnet, counting up from the first. For IPv4 without a
      prefix it would never stop. */
  method GetIPsFromAddresses(ip: Bytes, h: nat) returns (ips: seq<Bytes>)
    requires (|ip| == 4 && h < 32) || (|ip| == 16 && h <= 128)
    ensures var net := Masked(ip, MaskBytes(|ip|, h));
            |ips| == Listed(net, h) && CountsUp(ips, net)
  {
    hide High, Value, Pow2, MaskBytes, Masked, Contains, Incremented, IsNetwork, Listed, Agrees;
    var mask := MaskBytes(|ip|, h);
    var net := Masked(ip, mask);
    MaskedIsNetwork(ip, h);
    BlockEnds(net, h);
    ListedFits(net, h);
    var cur := new Byte[|ip|](i requires 0 <= i < |ip| => net[i]);
    assert cur[..] == net;
    ips := [];
    while Contains(net, mask, cur[..])
      invariant |ips| <= Listed(net, h) && CountsUp(ips, net)
      invariant Value(cur[..]) == WrapValue(Value(net) + |ips|, |net|)
      decreases Listed(net, h) - |ips|
    {
      LoopTest(net, h, |ips|, cur[..]);
      ips := ips + [cur[..]];
      ghost var b := cur[..];
      IncrementIP(cur);
      IncrementCarries(b);
    }
    LoopTest(net, h, |ips|, cur[..]);
  }

  lemma ListedFits(net: Bytes, h: nat)
    ensures Listed(net, h) <= Pow2(h) && WrapValue(Value(net), |net|) == Value(net)
  {
    hide Value, Pow2;
    ValueBound(net);
  }

  /** For IPv4 without a prefix every address passes the loop's test, so the enumeration never ends. */
  lemma NoPrefixNeverEnds(net: Bytes, x: Bytes)
    requires |x| == |net| == 4 && IsNetwork(net, 32)
    ensures Contains(net, MaskBytes(4, 32), x)
  {
    hide Value, Pow2, MaskBytes, Contains, Agrees, High, IsNetwork;
    ContainsIff(net, 32, x);
    MemberByValue(net, 32, x);
    BlockEnds(net, 32);
    ValueBound(x);
  }

  /** The enumeration lists, once each, the addresses of the subnet; in a block around ::ffff:0:0 only
      those before it. */
  lemma EnumerationIsExact(ips: seq<Bytes>, net: Bytes, h: nat, x: Bytes)
    requires IsNetwork(net, h) && |ips| == Listed(net, h) && CountsUp(ips, net) && |x| == |net|
    ensures x in ips <==> Agrees(net, MaskBytes(|x|, h), x) && (CutShort(net, h) ==> Value(x) < MAPPED_FIRST)
    ensures forall i, j :: 0 <= i < j < |ips| ==> ips[i] != ips[j]
  {
    hide Value, Pow2, MaskBytes, Agrees, High, IsNetwork, Low;
    MemberByValue(net, h, x);
    var i := Value(x) - Value(net);
    if 0 <= i < |ips| { ValueInjective(ips[i], x); }
  }

  /** The enumeration is complete exactly if the block is not a large one around ::ffff:0:0, where the
      library takes an address for IPv4. */
  lemma EnumerationCompleteIff(ips: seq<Bytes>, net: Bytes, h: nat)
    requires IsNetwork(net, h) && |ips| == Listed(net, h) && CountsUp(ips, net)
    ensures (forall x: Bytes :: |x| == |net| ==> (x in ips <==> Agrees(net, MaskBytes(|net|, h), x)))
              <==> !CutShort(net, h)
  {
    hide Value, Pow2, MaskBytes, Agrees, High, Low;
    forall x: Bytes | |x| == |net|
      ensures x in ips <==> Agrees(net, MaskBytes(|net|, h), x) && (CutShort(net, h) ==> Value(x) < MAPPED_FIRST)
    {
      EnumerationIsExact(ips, net, h, x);
    }
    if CutShort(net, h) {
      FirstMapped();
      MemberByValue(net, h, MAPPED_NET);
      assert MAPPED_NET !in ips;
    }
  }

  const MAPPED_NET: Bytes := V4_IN_V6_PREFIX + [0, 0, 0, 0]

  lemma FirstMapped()
    ensures |MAPPED_NET| == 16 && Value(MAPPED_NET) == MAPPED_FIRST
  {
    hide Value;
    SplitAt12(MAPPED_NET);
    TwelveBytes(MAPPED_NET[..12]);
    ValueOfZeros(MAPPED_NET[12..]);
  }

  /** ::fffe:0:0/95 is cut short: half of its addresses are listed. */
  lemma CutShortExample()
    ensures var net: Bytes := [0, 0, 0, 0, 0, 0, 0, 0, 0, 0, 255, 254, 0, 0, 0, 0];
            IsNetwork(net, 33) && CutShort(net, 33) && Listed(net, 33) == 0x1_0000_0000 && Pow2(33) == 0x2_0000_0000
  {
    hide Value;
    var net: Bytes := [0, 0, 0, 0, 0, 0, 0, 0, 0, 0, 255, 254, 0, 0, 0, 0];
    SplitAt12(net);
    TwelveBytes(net[..12]);
    ValueOfZeros(net[12..]);
    Pow2Of32();
    DoublePow2(32);
    HighOfMultiple(0x7fff, 33);
  }

  // ---------- the generated gateway ----------

  lemma OrByte(a: Byte, b: Byte)
    ensures Or(a, b) <= a + b
    ensures b == 0 ==> Or(a, b) == a
    ensures b == 1 && a % 2 == 0 ==> Or(a, b) == a + 1
  {
    OrBelow(a, b);
  }

  lemma {:induction false} OrBelow(a: nat, b: nat)
    ensures Or(a, b) <= a + b
    decreases a + b
  {
    if a > 0 && b > 0 { OrBelow(a / 2, b / 2); }
  }

  lemma {:induction false} OrFits(a: nat, b: nat, m: nat)
    requires a < Pow2(m) && b < Pow2(m)
    ensures Or(a, b) < Pow2(m)
    decreases m
  {
    if m > 0 && a > 0 && b > 0 { OrFits(a / 2, b / 2, m - 1); }
  }

  function OrOf(a: Byte, b: Byte): Byte {
    Pow2Eight(0);
    OrFits(a, b, 8);
    Or(a, b)
  }

  /** Or and And are what they are called, bit by bit. */
  lemma {:induction false} BitByBit(a: nat, b: nat, i: nat)
    ensures High(Or(a, b), i) % 2 == 1 <==> High(a, i) % 2 == 1 || High(b, i) % 2 == 1
    ensures High(And(a, b), i) % 2 == 1 <==> High(a, i) % 2 == 1 && High(b, i) % 2 == 1
    decreases i
  {
    hide High, And, Or;
    AndStep(a, b);
    OrStep(a, b);
    HalfAndBit(And(a, b), And(a / 2, b / 2), if a % 2 == 1 && b % 2 == 1 then 1 else 0);
    HalfAndBit(Or(a, b), Or(a / 2, b / 2), if a % 2 == 1 || b % 2 == 1 then 1 else 0);
    if i == 0 {
      HighZero(a);
      HighZero(b);
      HighZero(Or(a, b));
      HighZero(And(a, b));
    } else {
      HighStep(a, i);
      HighStep(b, i);
      HighStep(Or(a, b), i);
      HighStep(And(a, b), i);
      BitByBit(a / 2, b / 2, i - 1);
    }
  }

  lemma HalfAndBit(v: nat, half: nat, bit: nat)
    requires v == 2 * half + bit && bit < 2
    ensures v / 2 == half && v % 2 == bit
  {}

  lemma OrStep(a: nat, b: nat)
    ensures Or(a, b) == 2 * Or(a / 2, b / 2) + if a % 2 == 1 || b % 2 == 1 then 1 else 0
  {}

  /** GenerateAddress, byte by byte. */
  method GenerateAddress(network: Bytes, hostID: Bytes) returns (address: array<Byte>)
    requires |network| == 16 && |hostID| == 16
    ensures address.Length == 16
    ensures forall i :: 0 <= i < 16 ==> address[i] == Or(network[i], hostID[i])
  {
    address := new Byte[16](_ => 0);
    for i := 0 to 16
      invariant forall j :: 0 <= j < i ==> address[j] == Or(network[j], hostID[j])
    {
      address[i] := OrOf(network[i], hostID[i]);
    }
  }

  /** The well-known host ID of the gateway, ::1. */
  const GATEWAY_HOST_ID: Bytes := [0, 0, 0, 0, 0, 0, 0, 0, 0, 0, 0, 0, 0, 0, 0, 1]

  lemma EvenDigit(x: nat, l: nat, a: nat)
    requires 256 * x + l == 2 * a
    ensures l % 2 == 0
  {
    var t := a - 128 * x;
    assert l == 2 * t;
  }

  lemma LastByteEven(net: Bytes, h: nat)
    requires net != [] && IsNetwork(net, h) && h >= 1
    ensures net[|net| - 1] % 2 == 0
  {
    hide Value, High, Pow2;
    DoublePow2(h - 1);
    Regroup2(2, High(Value(net), h), Pow2(h - 1));
    LastDigit(net);
    EvenDigit(Value(net[..|net| - 1]), net[|net| - 1], High(Value(net), h) * Pow2(h - 1));
  }

  /** What GenerateAddress makes of a network and the gateway's host ID. */
  predicate IsGateway(net: Bytes, g: Bytes) {
    |net| == |g| == 16 && forall i :: 0 <= i < 16 ==> g[i] == Or(net[i], GATEWAY_HOST_ID[i])
  }

  /** With at least one host bit the generated gateway is the network address plus one. */
  lemma GatewayIsSecond(net: Bytes, h: nat, g: Bytes)
    requires IsNetwork(net, h) && h >= 1 && IsGateway(net, g)
    ensures Value(g) == Value(net) + 1
  {
    hide Or, High, Pow2;
    LastByteEven(net, h);
    forall i | 0 <= i < 16 ensures g[i] == if i == 15 then net[i] + 1 else net[i] {
      OrByte(net[i], GATEWAY_HOST_ID[i]);
    }
    assert g[..15] == net[..15];
  }

  // ---------- what is offered to pods ----------

  const SUBNET_HOST_BITS: nat := 8   // the /120 of an IPv6 node

  datatype Offer = Offer(net: Bytes, addresses: seq<Bytes>)

  /** All addresses of a /120 but the first two, in order. */
  predicate IsOffer(o: Offer) {
    && |o.net| == 16 && IsNetwork(o.net, SUBNET_HOST_BITS) && |o.addresses| == 254
    && forall i :: 0 <= i < 254 ==> |o.addresses[i]| == 16 && Value(o.addresses[i]) == Value(o.net) + 2 + i
  }

  predicate SkipsCidr(c: Option<Bytes>) { c.Some? && To4(c.value).Some? }

  /** An address that begins like ::ffff:0:0 is an IPv4 address. */
  predicate StartsMapped(c: Option<Bytes>) {
    c.Some? && |c.value| == 16 && c.value[..12] == [0, 0, 0, 0, 0, 0, 0, 0, 0, 0, 255, 255]
  }

  /** retrieveKubernetesPodIPs. A pod CIDR is the address it parses to, None if it does not parse. The
      first one that is not IPv4 decides; its /120 is offered. */
  method RetrieveKubernetesPodIPs(cidrs: seq<Option<Bytes>>) returns (o: Option<Offer>)
    requires forall c <- cidrs :: c.Some? ==> |c.value| == 16
    ensures o.Some? <==> exists k :: IsNode(cidrs, k) && cidrs[k].Some?
    ensures o.Some? ==> IsOffer(o.value)
    ensures o.Some? ==> exists k :: IsNode(cidrs, k) && cidrs[k].Some? && o.value.net == cidrs[k].value[..15] + [0]
  {
    hide SkipsCidr, StartsMapped, Masked, MaskBytes, Value, IsNetwork, Contains, Agrees, Listed, To4;
    for k := 0 to |cidrs|
      invariant forall j :: 0 <= j < k ==> StartsMapped(cidrs[j])
    {
      assert cidrs[k] in cidrs;
      SkipsMapped(cidrs[k]);
      if !SkipsCidr(cidrs[k]) {
        assert IsNode(cidrs, k);
        if cidrs[k].None? {
          return None;
        }
        var ip := cidrs[k].value;
        var all := GetIPsFromAddresses(ip, SUBNET_HOST_BITS);
        MaskedIsNetwork(ip, SUBNET_HOST_BITS);
        SmallBlock(Masked(ip, MaskBytes(16, SUBNET_HOST_BITS)), ip);
        LastByteCleared(ip);
        var addresses := [];
        for i := 2 to |all|
          invariant addresses == all[2..i]
        {
          addresses := addresses + [all[i]];
        }
        return Some(Offer(Masked(ip, MaskBytes(16, SUBNET_HOST_BITS)), addresses));
      }
    }
    return None;
  }

  /** Entry k ends the search: it is the first that does not begin like an IPv4 address. */
  predicate IsNode(cidrs: seq<Option<Bytes>>, k: int) {
    && 0 <= k < |cidrs|
    && !StartsMapped(cidrs[k])
    && forall j :: 0 <= j < k ==> StartsMapped(cidrs[j])
  }

  lemma SkipsMapped(c: Option<Bytes>)
    requires c.Some? ==> |c.value| == 16
    ensures SkipsCidr(c) <==> StartsMapped(c)
  {}

  /** The mask of the /120 clears the last byte and leaves the others. */
  lemma LastByteCleared(ip: Bytes)
    requires |ip| == 16
    ensures Masked(ip, MaskBytes(16, SUBNET_HOST_BITS)) == ip[..15] + [0]
  {
    hide Masked, MaskBytes, Value, High, Pow2;
    var r, front := Masked(ip, MaskBytes(16, SUBNET_HOST_BITS)), Masked(ip[..15], MaskBytes(15, 0));
    MaskedLast(ip, SUBNET_HOST_BITS);
    ByteHasNoHigh(ip[15]);
    MaskedValue(ip[..15], 0);
    HighZero(Value(ip[..15]));
    ValueInjective(front, ip[..15]);
    assert r == r[..15] + [r[15]];
  }

  /** The /120 is never cut short. */
  lemma SmallBlock(net: Bytes, x: Bytes)
    requires |net| == |x| == 16 && IsNetwork(net, SUBNET_HOST_BITS)
    ensures Listed(net, SUBNET_HOST_BITS) == Pow2(SUBNET_HOST_BITS) == 256
    ensures Contains(net, MaskBytes(16, SUBNET_HOST_BITS), x) <==> Agrees(net, MaskBytes(16, SUBNET_HOST_BITS), x)
  {
    hide Value, Pow2, MaskBytes, Contains, Agrees, IsNetwork, To4;
    Pow2Of32();
    ContainsIff(net, SUBNET_HOST_BITS, x);
  }

  /** The offered addresses are the members of the subnet except host parts 0 and 1; the generated
      gateway is a member and is never offered. */
  lemma OfferedAddresses(o: Offer, x: Bytes, g: Bytes)
    requires IsOffer(o) && |x| == 16 && IsGateway(o.net, g)
    ensures x in o.addresses <==>
              Contains(o.net, MaskBytes(16, SUBNET_HOST_BITS), x) && Low(Value(x), SUBNET_HOST_BITS) !in {0, 1}
    ensures Contains(o.net, MaskBytes(16, SUBNET_HOST_BITS), g) && g !in o.addresses
  {
    hide Value, Low, Pow2, Contains, Agrees, MaskBytes, Or, IsNetwork, Listed;
    var h := SUBNET_HOST_BITS;
    GatewayIsSecond(o.net, h, g);
    SmallBlock(o.net, x);
    SmallBlock(o.net, g);
    MemberByValue(o.net, h, x);
    MemberByValue(o.net, h, g);
    ListedFromTwo(o.addresses, Value(o.net), x);
    ListedFromTwo(o.addresses, Value(o.net), g);
  }

  lemma ListedFromTwo(addresses: seq<Bytes>, v: nat, x: Bytes)
    requires |addresses| == 254 && |x| == 16
    requires forall i :: 0 <= i < 254 ==> |addresses[i]| == 16 && Value(addresses[i]) == v + 2 + i
    ensures x in addresses <==> v + 2 <= Value(x) < v + 256
  {
    hide Value;
    var i := Value(x) - v - 2;
    if 0 <= i < 254 { ValueInjective(addresses[i], x); }
  }
}
