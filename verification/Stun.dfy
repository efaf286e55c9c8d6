/** The binding response of a STUN server (internal/ddns/network_source.go): the public
    address in an attribute of the message (sections 5, 14, 14.1 and 14.2 of RFC 8489). */
module Stun {
  import opened Wrappers

  type Byte = x: int | 0 <= x < 256
  type Bytes = seq<Byte>

  datatype Failure = BadHeader | Truncated | BadLength | Missing | WrongFamily

  const HEADER: nat := 20
  const MAPPED: nat := 0x0001
  const XOR_MAPPED: nat := 0x0020
  const COOKIE: Bytes := [0x21, 0x12, 0xa4, 0x42]

  /** Two bytes in network order. */
  function U16(b: Bytes, i: nat): (n: nat)
    requires i + 2 <= |b|
    ensures n < 0x10000
  {
    var high: int, low: int := b[i], b[i + 1];
    high * 256 + low
  }

  /** The size with its padding to a multiple of four. */
  function Padded(size: nat): (n: nat)
    ensures size <= n < size + 4 && n % 4 == 0
  {
    (size + 3) / 4 * 4
  }

  function AddressLength(v6: bool): nat {
    if v6 then 16 else 4
  }

  function Family(v6: bool): Byte {
    if v6 then 2 else 1
  }

  predicate HeaderOK(b: Bytes, tid: Bytes) {
    && |b| >= HEADER
    && U16(b, 0) == 0x0101
    && b[4..8] == COOKIE
    && b[8..20] == tid
    && U16(b, 2) == |b| - HEADER
    && (|b| - HEADER) % 4 == 0
  }

  /** An attribute with an address of the family asked for; others are skipped. */
  predicate Usable(typ: nat, value: Bytes, v6: bool) {
    && (typ == XOR_MAPPED || typ == MAPPED)
    && |value| == 4 + AddressLength(v6)
    && value[0] == 0 && value[1] == Family(v6)
  }

  /** Exclusive or of the lowest n bits. */
  function XorBits(a: nat, b: nat, n: nat): nat {
    if n == 0 then 0 else XorBits(a / 2, b / 2, n - 1) * 2 + (a + b) % 2
  }

  function Pow2(n: nat): nat {
    if n == 0 then 1 else 2 * Pow2(n - 1)
  }

  lemma {:induction false} XorBitsBound(a: nat, b: nat, n: nat)
    ensures XorBits(a, b, n) < Pow2(n)
  {
    if n > 0 {
      XorBitsBound(a / 2, b / 2, n - 1);
    }
  }

  lemma XorBitsStep(a: nat, b: nat, n: nat)
    requires n > 0
    ensures XorBits(a, b, n) == XorBits(a / 2, b / 2, n - 1) * 2 + (a + b) % 2
  {
  }

  lemma ParityTwice(x: nat, a: nat, b: nat)
    ensures var y := x * 2 + (a + b) % 2; y / 2 == x && (y + b) % 2 == a % 2
  {
  }

  lemma {:induction false} XorBitsTwice(a: nat, b: nat, n: nat)
    requires a < Pow2(n)
    ensures XorBits(XorBits(a, b, n), b, n) == a
  {
    if n > 0 {
      XorBitsTwice(a / 2, b / 2, n - 1);
      hide XorBits, Pow2;
      var x := XorBits(a / 2, b / 2, n - 1);
      XorBitsStep(a, b, n);
      ParityTwice(x, a, b);
      XorBitsStep(x * 2 + (a + b) % 2, b, n);
    }
  }

  lemma EightBits()
    ensures Pow2(8) == 256
  {
    assert Pow2(4) == 16;
  }

  function XorByte(a: Byte, b: Byte): Byte {
    EightBits();
    XorBitsBound(a, b, 8);
    XorBits(a, b, 8)
  }

  lemma XorByteTwice(a: Byte, m: Byte)
    ensures XorByte(XorByte(a, m), m) == a
  {
    EightBits();
    XorBitsTwice(a, m, 8);
  }

  function Xored(a: Bytes, mask: Bytes): (r: Bytes)
    requires |a| <= |mask|
    ensures |r| == |a|
  {
    seq(|a|, i requires 0 <= i < |a| => XorByte(a[i], mask[i]))
  }

  function Mask(tid: Bytes): Bytes {
    COOKIE + tid
  }

  function Address(typ: nat, value: Bytes, tid: Bytes, v6: bool): (a: Bytes)
    requires Usable(typ, value, v6) && |tid| == 12
    ensures |a| == AddressLength(v6)
  {
    if typ == XOR_MAPPED then Xored(value[4..], Mask(tid)) else value[4..]
  }

  /** ::ffff:a.b.c.d, which counts as an IPv4 address. */
  predicate V4Mapped(a: Bytes) {
    |a| == 16 && (forall i :: 0 <= i < 10 ==> a[i] == 0) && a[10] == 0xff && a[11] == 0xff
  }

  function Checked(a: Bytes): Result<Bytes, Failure> {
    if V4Mapped(a) then Err(WrongFamily) else Ok(a)
  }

  /** The attributes one after the other, up to the first usable one. */
  function Scan(rest: Bytes, tid: Bytes, v6: bool): Result<Bytes, Failure>
    requires |tid| == 12
    decreases |rest|
  {
    if rest == [] then Err(Missing)
    else if |rest| < 4 then Err(Truncated)
    else
      var typ, size := U16(rest, 0), U16(rest, 2);
      if 4 + size > |rest| then Err(BadLength)
      else if Usable(typ, rest[4..4 + size], v6) then Checked(Address(typ, rest[4..4 + size], tid, v6))
      else if 4 + Padded(size) >= |rest| then Err(Missing)
      else Scan(rest[4 + Padded(size)..], tid, v6)
  }

  function Decode(b: Bytes, tid: Bytes, v6: bool): Result<Bytes, Failure>
    requires |tid| == 12
  {
    if HeaderOK(b, tid) then Scan(b[HEADER..], tid, v6) else Err(BadHeader)
  }

  /** The same from a position in the message. */
  function ScanFrom(b: Bytes, offset: nat, tid: Bytes, v6: bool): Result<Bytes, Failure>
    requires |tid| == 12
  {
    if offset < |b| then Scan(b[offset..], tid, v6) else Err(Missing)
  }

  lemma ScanStep(b: Bytes, offset: nat, tid: Bytes, v6: bool)
    requires offset < |b| && |tid| == 12
    ensures ScanFrom(b, offset, tid, v6) ==
            if offset + 4 > |b| then Err(Truncated)
            else
              var typ, size := U16(b, offset), U16(b, offset + 2);
              if offset + 4 + size > |b| then Err(BadLength)
              else
                var value := b[offset + 4..offset + 4 + size];
                if Usable(typ, value, v6) then Checked(Address(typ, value, tid, v6))
                else ScanFrom(b, offset + 4 + Padded(size), tid, v6)
  {
    var rest := b[offset..];
    if offset + 4 <= |b| {
      assert U16(b, offset) == U16(rest, 0) && U16(b, offset + 2) == U16(rest, 2);
      var size := U16(rest, 2);
      if offset + 4 + size <= |b| {
        assert b[offset + 4..offset + 4 + size] == rest[4..4 + size];
        if offset + 4 + Padded(size) < |b| {
          assert b[offset + 4 + Padded(size)..] == rest[4 + Padded(size)..];
        }
      }
    }
  }

  /** `decodeSTUN`: in bounds and terminating on every byte string. */
  method DecodeSTUN(b: Bytes, tid: Bytes, v6: bool) returns (r: Result<Bytes, Failure>)
    requires |tid| == 12
    ensures r == Decode(b, tid, v6)
  {
    hide Scan, ScanFrom, Checked, U16, Usable, Address, HeaderOK, Padded;
    if !HeaderOK(b, tid) {
      return Err(BadHeader);
    }
    HeaderFits(b, tid);
    var offset := HEADER;
    ScanStart(b, tid, v6);
    while offset < |b|
      invariant offset >= HEADER && Scan(b[HEADER..], tid, v6) == ScanFrom(b, offset, tid, v6)
      decreases |b| - offset
    {
      ScanStep(b, offset, tid, v6);
      if offset + 4 > |b| {
        return Err(Truncated);
      }
      var typ, size := U16(b, offset), U16(b, offset + 2);
      offset := offset + 4;
      if offset + size > |b| {
        return Err(BadLength);
      }
      var attr := b[offset..offset + size];
      offset := offset + Padded(size);
      var ip := ReadAddress(typ, attr, tid, v6);
      if ip.Some? {
        return Checked(ip.value);
      }
    }
    ScanEnd(b, offset, tid, v6);
    r := Err(Missing);
  }

  /** The address in an attribute, if it is one to take. */
  method ReadAddress(typ: nat, attr: Bytes, tid: Bytes, v6: bool) returns (r: Option<Bytes>)
    requires |tid| == 12
    ensures r == if Usable(typ, attr, v6) then Some(Address(typ, attr, tid, v6)) else None
  {
    if typ != XOR_MAPPED && typ != MAPPED {
      return None;
    }
    var length, family: Byte := 4, 1;
    if v6 {
      length, family := 16, 2;
    }
    if |attr| != 4 + length || attr[0] != 0 || attr[1] != family {
      return None;
    }
    var ip := attr[4..];
    if typ == XOR_MAPPED {
      ip := XorInPlace(ip, COOKIE + tid);
    }
    r := Some(ip);
  }

  lemma HeaderFits(b: Bytes, tid: Bytes)
    requires HeaderOK(b, tid)
    ensures |b| >= HEADER
  {
  }

  lemma ScanStart(b: Bytes, tid: Bytes, v6: bool)
    requires |b| >= HEADER && |tid| == 12
    ensures Scan(b[HEADER..], tid, v6) == ScanFrom(b, HEADER, tid, v6)
  {
  }

  lemma ScanEnd(b: Bytes, offset: nat, tid: Bytes, v6: bool)
    requires offset >= |b| && |tid| == 12
    ensures ScanFrom(b, offset, tid, v6) == Err(Missing)
  {
  }

  /** The address buffer is overwritten byte by byte. */
  method XorInPlace(a: Bytes, mask: Bytes) returns (r: Bytes)
    requires |a| <= |mask|
    ensures r == Xored(a, mask)
  {
    var ip := new Byte[|a|](i requires 0 <= i < |a| => a[i]);
    for i := 0 to |a|
      invariant forall k :: 0 <= k < |a| ==> ip[k] == if k < i then XorByte(a[k], mask[k]) else a[k]
    {
      ip[i] := XorByte(ip[i], mask[i]);
    }
    r := ip[..];
  }

  // ---- Messages as the standard lays them out ------------------------------

  /** An attribute with the bytes that pad it. */
  datatype Attribute = Attribute(typ: nat, value: Bytes, padding: Bytes)

  predicate WellFormed(a: Attribute) {
    a.typ < 0x10000 && |a.value| < 0x10000 && |a.padding| == Padded(|a.value|) - |a.value|
  }

  function Put16(n: nat): (b: Bytes)
    requires n < 0x10000
    ensures |b| == 2
  {
    [n / 256, n % 256]
  }

  function Encoded(a: Attribute): (b: Bytes)
    requires WellFormed(a)
    ensures |b| == 4 + Padded(|a.value|) && |b| % 4 == 0
  {
    Put16(a.typ) + Put16(|a.value|) + a.value + a.padding
  }

  lemma FoursAdd(m: nat, n: nat)
    requires m % 4 == 0 && n % 4 == 0
    ensures (m + n) % 4 == 0
  {
  }

  function Body(attributes: seq<Attribute>): (b: Bytes)
    requires forall a :: a in attributes ==> WellFormed(a)
    ensures |b| % 4 == 0
  {
    if attributes == [] then []
    else
      FoursAdd(|Encoded(attributes[0])|, |Body(attributes[1..])|);
      Encoded(attributes[0]) + Body(attributes[1..])
  }

  /** A binding success response. */
  function Message(attributes: seq<Attribute>, tid: Bytes): Bytes
    requires forall a :: a in attributes ==> WellFormed(a)
    requires |Body(attributes)| < 0x10000 && |tid| == 12
  {
    Put16(0x0101) + Put16(|Body(attributes)|) + COOKIE + tid + Body(attributes)
  }

  /** What the attributes say: the address in the first usable one. */
  function FirstAddress(attributes: seq<Attribute>, tid: Bytes, v6: bool): Result<Bytes, Failure>
    requires |tid| == 12
  {
    if attributes == [] then Err(Missing)
    else if Usable(attributes[0].typ, attributes[0].value, v6) then
      Checked(Address(attributes[0].typ, attributes[0].value, tid, v6))
    else FirstAddress(attributes[1..], tid, v6)
  }

  lemma Put16RoundTrip(n: nat)
    requires n < 0x10000
    ensures U16(Put16(n), 0) == n
  {
  }

  lemma ScanAttribute(a: Attribute, rest: Bytes, tid: Bytes, v6: bool)
    requires WellFormed(a) && |tid| == 12
    ensures Scan(Encoded(a) + rest, tid, v6) ==
            if Usable(a.typ, a.value, v6) then Checked(Address(a.typ, a.value, tid, v6)) else Scan(rest, tid, v6)
  {
    var s := Encoded(a) + rest;
    Put16RoundTrip(a.typ);
    Put16RoundTrip(|a.value|);
    assert s[..2] == Put16(a.typ) && s[2..4] == Put16(|a.value|);
    assert U16(s, 0) == a.typ && U16(s, 2) == |a.value|;
    assert s[4..4 + |a.value|] == a.value;
    assert s[4 + Padded(|a.value|)..] == rest;
  }

  lemma {:induction false} ScanBody(attributes: seq<Attribute>, tid: Bytes, v6: bool)
    requires (forall a :: a in attributes ==> WellFormed(a)) && |tid| == 12
    ensures Scan(Body(attributes), tid, v6) == FirstAddress(attributes, tid, v6)
  {
    if attributes != [] {
      ScanBody(attributes[1..], tid, v6);
      ScanAttribute(attributes[0], Body(attributes[1..]), tid, v6);
    }
  }

  /** Main result 1. On every well-formed response the decoder finds what the
      attributes say. */
  lemma DecodesMessages(attributes: seq<Attribute>, tid: Bytes, v6: bool)
    requires (forall a :: a in attributes ==> WellFormed(a)) && |Body(attributes)| < 0x10000 && |tid| == 12
    ensures Decode(Message(attributes, tid), tid, v6) == FirstAddress(attributes, tid, v6)
  {
    var b, body := Message(attributes, tid), Body(attributes);
    Put16RoundTrip(0x0101);
    Put16RoundTrip(|body|);
    assert b[..2] == Put16(0x0101) && b[2..4] == Put16(|body|);
    assert U16(b, 0) == 0x0101 && U16(b, 2) == |body|;
    assert b[4..8] == COOKIE && b[8..20] == tid && b[20..] == body;
    ScanBody(attributes, tid, v6);
  }

  // ---- Round trip of an address --------------------------------------------

  /** XOR-MAPPED-ADDRESS (section 14.2), with the port as it is transmitted. */
  function XorMapped(a: Bytes, port: Bytes, tid: Bytes, v6: bool): Attribute
    requires |a| == AddressLength(v6) && |port| == 2 && |tid| == 12
  {
    Attribute(XOR_MAPPED, [0, Family(v6)] + port + Xored(a, Mask(tid)), [])
  }

  lemma XorTwice(a: Bytes, mask: Bytes)
    requires |a| <= |mask|
    ensures Xored(Xored(a, mask), mask) == a
  {
    forall i | 0 <= i < |a| ensures Xored(Xored(a, mask), mask)[i] == a[i] {
      XorByteTwice(a[i], mask[i]);
    }
  }

  lemma XorMappedIsUsable(a: Bytes, port: Bytes, tid: Bytes, v6: bool)
    requires |a| == AddressLength(v6) && |port| == 2 && |tid| == 12
    ensures var x := XorMapped(a, port, tid, v6);
            WellFormed(x) && Usable(x.typ, x.value, v6) && Address(x.typ, x.value, tid, v6) == a
  {
    var x := XorMapped(a, port, tid, v6);
    assert x.value[4..] == Xored(a, Mask(tid));
    XorTwice(a, Mask(tid));
  }

  lemma {:induction false} SkipsOthers(others: seq<Attribute>, x: Attribute, more: seq<Attribute>, tid: Bytes, v6: bool)
    requires |tid| == 12 && Usable(x.typ, x.value, v6)
    requires forall a :: a in others ==> !Usable(a.typ, a.value, v6)
    ensures FirstAddress(others + [x] + more, tid, v6) == Checked(Address(x.typ, x.value, tid, v6))
  {
    var all := others + [x] + more;
    if others != [] {
      assert all[1..] == others[1..] + [x] + more;
      SkipsOthers(others[1..], x, more, tid, v6);
    }
  }

  /** Main result 2. Behind any attributes that are not usable, and before any others,
      an XOR-MAPPED-ADDRESS of the family asked for decodes to exactly the address it
      encodes, unless that is an IPv4 address in IPv6 form. */
  lemma AddressRoundTrip(others: seq<Attribute>, more: seq<Attribute>, a: Bytes, port: Bytes, tid: Bytes, v6: bool)
    requires |a| == AddressLength(v6) && |port| == 2 && |tid| == 12
    requires forall x :: x in others ==> WellFormed(x) && !Usable(x.typ, x.value, v6)
    requires forall x :: x in more ==> WellFormed(x)
    ensures forall x :: x in others + [XorMapped(a, port, tid, v6)] + more ==> WellFormed(x)
    ensures var all := others + [XorMapped(a, port, tid, v6)] + more;
            |Body(all)| < 0x10000 ==>
              Decode(Message(all, tid), tid, v6) == if V4Mapped(a) then Err(WrongFamily) else Ok(a)
  {
    var x := XorMapped(a, port, tid, v6);
    var all := others + [x] + more;
    XorMappedIsUsable(a, port, tid, v6);
    SkipsOthers(others, x, more, tid, v6);
    if |Body(all)| < 0x10000 {
      DecodesMessages(all, tid, v6);
    }
  }

  // ---- Arbitrary bytes -----------------------------------------------------

  /** An address comes only out of a valid header and is of the family asked for. */
  lemma DecodedIsOfTheFamily(b: Bytes, tid: Bytes, v6: bool)
    requires |tid| == 12 && Decode(b, tid, v6).Ok?
    ensures HeaderOK(b, tid) && |Decode(b, tid, v6).value| == AddressLength(v6) && !V4Mapped(Decode(b, tid, v6).value)
  {
    ScannedIsOfTheFamily(b[HEADER..], tid, v6);
  }

  lemma {:induction false} ScannedIsOfTheFamily(rest: Bytes, tid: Bytes, v6: bool)
    requires |tid| == 12 && Scan(rest, tid, v6).Ok?
    ensures |Scan(rest, tid, v6).value| == AddressLength(v6) && !V4Mapped(Scan(rest, tid, v6).value)
    decreases |rest|
  {
    var typ, size := U16(rest, 0), U16(rest, 2);
    if !Usable(typ, rest[4..4 + size], v6) {
      ScannedIsOfTheFamily(rest[4 + Padded(size)..], tid, v6);
    }
  }

  // ---- Bits and bytes on the wire ------------------------------------------

  function Bit(a: nat, k: nat): nat {
    if k == 0 then a % 2 else Bit(a / 2, k - 1)
  }

  lemma LowestBit(x: nat, p: nat)
    requires p < 2
    ensures (x * 2 + p) % 2 == p && (x * 2 + p) / 2 == x
  {
  }

  lemma SumParity(a: nat, b: nat)
    ensures (a + b) % 2 == (a % 2 + b % 2) % 2
  {
  }

  lemma {:induction false} XorBitsAt(a: nat, b: nat, n: nat, k: nat)
    requires k < n
    ensures Bit(XorBits(a, b, n), k) == (Bit(a, k) + Bit(b, k)) % 2
  {
    hide XorBits;
    XorBitsStep(a, b, n);
    LowestBit(XorBits(a / 2, b / 2, n - 1), (a + b) % 2);
    if k == 0 {
      SumParity(a, b);
    } else {
      XorBitsAt(a / 2, b / 2, n - 1, k - 1);
    }
  }

  lemma {:induction false} BitsDetermine(a: nat, b: nat, n: nat)
    requires a < Pow2(n) && b < Pow2(n) && forall k :: 0 <= k < n ==> Bit(a, k) == Bit(b, k)
    ensures a == b
  {
    if n > 0 {
      assert Bit(a, 0) == Bit(b, 0);
      forall k | 0 <= k < n - 1 ensures Bit(a / 2, k) == Bit(b / 2, k) {
        assert Bit(a, k + 1) == Bit(b, k + 1);
      }
      BitsDetermine(a / 2, b / 2, n - 1);
    }
  }

  /** Every bit of x is that of a, flipped where the mask has a one. */
  ghost predicate Flipped(x: Bytes, a: Bytes, mask: Bytes) {
    && |x| == |a| <= |mask|
    && forall i, k :: 0 <= i < |a| && 0 <= k < 8 ==> Bit(x[i], k) == (Bit(a[i], k) + Bit(mask[i], k)) % 2
  }

  lemma FlippedIsXored(x: Bytes, a: Bytes, mask: Bytes)
    requires Flipped(x, a, mask)
    ensures x == Xored(a, mask)
  {
    hide Bit;
    EightBits();
    forall i | 0 <= i < |a| ensures x[i] == XorByte(a[i], mask[i]) {
      forall k | 0 <= k < 8 ensures Bit(x[i], k) == Bit(XorByte(a[i], mask[i]), k) {
        XorBitsAt(a[i], mask[i], 8, k);
      }
      BitsDetermine(x[i], XorByte(a[i], mask[i]), 8);
    }
  }

  /** The header of a response, byte by byte. */
  predicate HeaderBytes(b: Bytes, tid: Bytes) {
    && |b| >= 20 && b[0] == 1 && b[1] == 1 && b[2] as int * 256 + b[3] as int == |b| - 20 && |b| % 4 == 0
    && b[4..8] == [0x21, 0x12, 0xa4, 0x42] && b[8..20] == tid
  }

  lemma BadHeaderExactlyWhen(b: Bytes, tid: Bytes, v6: bool)
    requires |tid| == 12
    ensures Decode(b, tid, v6) == Err(BadHeader) <==> !HeaderBytes(b, tid)
  {
    hide Scan;
    if HeaderOK(b, tid) {
      NoHeaderError(b[HEADER..], tid, v6);
    }
  }

  lemma {:induction false} NoHeaderError(rest: Bytes, tid: Bytes, v6: bool)
    requires |tid| == 12
    ensures Scan(rest, tid, v6) != Err(BadHeader)
    decreases |rest|
  {
    hide Address, Usable;
    if |rest| >= 4 {
      var size := U16(rest, 2);
      if 4 + Padded(size) < |rest| {
        NoHeaderError(rest[4 + Padded(size)..], tid, v6);
      }
    }
  }

  /** ::ffff:a.b.c.d, byte by byte. */
  predicate IPv4InIPv6(a: Bytes) {
    |a| == 16 && a[..12] == [0, 0, 0, 0, 0, 0, 0, 0, 0, 0, 0xff, 0xff]
  }

  lemma MappedExactly(a: Bytes)
    ensures V4Mapped(a) <==> IPv4InIPv6(a)
  {
    if V4Mapped(a) {
      assert a[..12] == [0, 0, 0, 0, 0, 0, 0, 0, 0, 0, 0xff, 0xff];
    }
    if IPv4InIPv6(a) {
      assert forall i :: 0 <= i < 12 ==> a[i] == a[..12][i];
    }
  }

  /** An attribute with an address of the family asked for, byte by byte. */
  predicate HasAddress(typ: nat, value: Bytes, v6: bool) {
    (typ == 0x0001 || typ == 0x0020)
    && (if v6 then |value| == 20 && value[0] == 0 && value[1] == 2 else |value| == 8 && value[0] == 0 && value[1] == 1)
  }

  /** What the bytes behind some attributes without such an address come to: nothing is an
      address missing, one to three bytes are a truncated attribute, a size that goes beyond
      the end is a bad one, and whatever else is the last attribute has the address or
      leaves it missing, padded or not. */
  lemma {:induction false} EveryBodyIsDecoded(attributes: seq<Attribute>, rest: Bytes, tid: Bytes, v6: bool)
    requires forall a :: a in attributes ==> WellFormed(a) && !HasAddress(a.typ, a.value, v6)
    requires |tid| == 12
    ensures var r := Scan(Body(attributes) + rest, tid, v6);
            if rest == [] then r == Err(Missing)
            else if |rest| < 4 then r == Err(Truncated)
            else
              var typ, size := rest[0] as int * 256 + rest[1] as int, rest[2] as int * 256 + rest[3] as int;
              if 4 + size > |rest| then r == Err(BadLength)
              else
                var value := rest[4..4 + size];
                if HasAddress(typ, value, v6) then
                  var a := if typ == 0x0020 then Xored(value[4..], [0x21, 0x12, 0xa4, 0x42] + tid) else value[4..];
                  r == if IPv4InIPv6(a) then Err(WrongFamily) else Ok(a)
                else |rest| <= 4 + size + 3 && |rest| <= 4 + (size + 3) / 4 * 4 ==> r == Err(Missing)
  {
    hide V4Mapped, IPv4InIPv6, HasAddress, Usable;
    if attributes == [] {
      assert Body(attributes) + rest == rest;
      LastAttribute(rest, tid, v6);
    } else {
      var first, more := attributes[0], attributes[1..];
      assert first in attributes && forall a :: a in more ==> a in attributes;
      assert Body(attributes) + rest == Encoded(first) + (Body(more) + rest);
      ScanAttribute(first, Body(more) + rest, tid, v6);
      UsableExactly(first.typ, first.value, v6);
      EveryBodyIsDecoded(more, rest, tid, v6);
    }
  }

  lemma UsableExactly(typ: nat, value: Bytes, v6: bool)
    ensures Usable(typ, value, v6) <==> HasAddress(typ, value, v6)
  {
  }

  lemma LastAttribute(rest: Bytes, tid: Bytes, v6: bool)
    requires |tid| == 12
    ensures var r := Scan(rest, tid, v6);
            if rest == [] then r == Err(Missing)
            else if |rest| < 4 then r == Err(Truncated)
            else
              var typ, size := rest[0] as int * 256 + rest[1] as int, rest[2] as int * 256 + rest[3] as int;
              if 4 + size > |rest| then r == Err(BadLength)
              else
                var value := rest[4..4 + size];
                if HasAddress(typ, value, v6) then
                  var a := if typ == 0x0020 then Xored(value[4..], [0x21, 0x12, 0xa4, 0x42] + tid) else value[4..];
                  r == if IPv4InIPv6(a) then Err(WrongFamily) else Ok(a)
                else |rest| <= 4 + size + 3 && |rest| <= 4 + (size + 3) / 4 * 4 ==> r == Err(Missing)
  {
    if |rest| >= 4 && 4 + U16(rest, 2) <= |rest| {
      var value := rest[4..4 + U16(rest, 2)];
      UsableExactly(U16(rest, 0), value, v6);
      hide Usable, HasAddress, V4Mapped, IPv4InIPv6;
      if HasAddress(U16(rest, 0), value, v6) {
        MappedExactly(Address(U16(rest, 0), value, tid, v6));
      }
    }
  }

  /** Main result 3. The bytes of a response with one XOR-MAPPED-ADDRESS, as section 14.2
      of RFC 8489 lays them out, decode to the address. */
  lemma WireRoundTrip(a: Bytes, x: Bytes, port: Bytes, tid: Bytes, v6: bool)
    requires |a| == (if v6 then 16 else 4) && |port| == 2 && |tid| == 12
    requires Flipped(x, a, [0x21, 0x12, 0xa4, 0x42] + tid)
    ensures var head := [1, 1, 0, if v6 then 24 else 12, 0x21, 0x12, 0xa4, 0x42] + tid;
            var attribute := [0, 0x20, 0, if v6 then 20 else 8, 0, if v6 then 2 else 1] + port + x;
            Decode(head + attribute, tid, v6) == if IPv4InIPv6(a) then Err(WrongFamily) else Ok(a)
  {
    hide Decode, Flipped;
    MappedExactly(a);
    hide V4Mapped, IPv4InIPv6;
    FlippedIsXored(x, a, Mask(tid));
    var attribute := XorMapped(a, port, tid, v6);
    AddressRoundTrip([], [], a, port, tid, v6);
    assert [] + [attribute] + [] == [attribute];
    OneAttribute(attribute, [0, 0x20, 0, if v6 then 20 else 8, 0, if v6 then 2 else 1] + port + x, tid);
  }

  lemma OneAttribute(a: Attribute, bytes: Bytes, tid: Bytes)
    requires WellFormed(a) && bytes == Put16(a.typ) + Put16(|a.value|) + a.value + a.padding
    requires |bytes| < 256 && |tid| == 12
    ensures Body([a]) == bytes
    ensures Message([a], tid) == [1, 1, 0, |bytes|, 0x21, 0x12, 0xa4, 0x42] + tid + bytes
  {
    assert Body([a]) == Encoded(a) + Body([a][1..]) == bytes + [];
  }

  /** A MAPPED-ADDRESS has the address as it is (section 14.1 of RFC 8489). */
  lemma MappedIsAsItIs(a: Bytes, port: Bytes, tid: Bytes, v6: bool)
    requires |a| == (if v6 then 16 else 4) && |port| == 2 && |tid| == 12
    ensures var head := [1, 1, 0, if v6 then 24 else 12, 0x21, 0x12, 0xa4, 0x42] + tid;
            var attribute := [0, 1, 0, if v6 then 20 else 8, 0, if v6 then 2 else 1] + port + a;
            Decode(head + attribute, tid, v6) == if IPv4InIPv6(a) then Err(WrongFamily) else Ok(a)
  {
    hide Decode;
    MappedExactly(a);
    hide V4Mapped, IPv4InIPv6;
    var value := [0, Family(v6)] + port + a;
    var attribute := Attribute(MAPPED, value, []);
    assert value[4..] == a;
    OneAttribute(attribute, [0, 1, 0, if v6 then 20 else 8, 0, if v6 then 2 else 1] + port + a, tid);
    DecodesMessages([attribute], tid, v6);
    assert Usable(MAPPED, value, v6) && Address(MAPPED, value, tid, v6) == a;
  }
}
