/**
 * Peer addresses: an IPv4 address of four bytes and a Java `int` port, with
 * value equality, a hash consistent with it, the 8-byte wire encoding and the
 * `[a.b.c.d:port]` text form.
 */
module Identifiers {
  import opened Bytes
  import opened Options

  /** `Identifier.SIZE = 4 + Integer.SIZE`: 36, four address bytes plus a bit count. */
  const SIZE: nat := 4 + INT_SIZE

  /** The four bytes of an IPv4 address, most significant first. */
  type Address = a: seq<byte> | |a| == 4 witness [0, 0, 0, 0]

  /**
   * What `equals(Object)` can be handed: `null`, another `Identifier`, or an
   * object of another class (an `Entity` or `RemoteEntity` with the given
   * identifier, which is what the hash sets of the node hold).
   */
  datatype Object = Null | IdentifierObject(identifier: Identifier) | EntityObject(entityIdentifier: Identifier)

  datatype Identifier = Identifier(address: Address, port: int32) {

    /** `equals`: only an `Identifier` with the same address and port is equal. */
    predicate Equals(obj: Object)
      ensures Equals(obj) <==> obj == IdentifierObject(this)
    {
      match obj
      case Null => false
      case EntityObject(_) => false
      case IdentifierObject(other) => address == other.address && port == other.port
    }

    /**
     * `hashCode`: `31 * (31 + h) + port` in Java's wrapping `int`
     * arithmetic, where `h` stands for the address's own hash.
     */
    function HashCode(): (h: int32)
      ensures (h - (31 * (31 * 1 + AddressHash(address)) + port)) % TWO_32 == 0
    {
      var inner := Wrap32(31 * 1 + AddressHash(address));
      var k := (inner - (31 * 1 + AddressHash(address))) / TWO_32;
      assert inner - (31 * 1 + AddressHash(address)) == k * TWO_32;
      var h := Wrap32(31 * inner + port);
      var j := (h - (31 * inner + port)) / TWO_32;
      assert h - (31 * inner + port) == j * TWO_32;
      assert h - (31 * (31 * 1 + AddressHash(address)) + port) == (j + 31 * k) * TWO_32;
      h
    }

    /** The 8 bytes `insertData` writes: the address, then the port as a big-endian int. */
    function Encode(): (b: seq<byte>)
      ensures |b| == 8 && b[..4] == address && b[4..] == Int32Bytes(port)
    {
      address + Int32Bytes(port)
    }

    /**
     * `insertData`: the four address bytes one by one from `offset`, then
     * the port through a buffer that must hold `Integer.SIZE` bytes from
     * `offset + 4`.
     */
    method InsertData(data: array<byte>, offset: nat)
      requires offset + SIZE <= data.Length
      modifies data
      ensures data[..] == Splice(old(data[..]), offset, Encode())
    {
      ghost var before := data[..];
      data[offset] := address[0];
      data[offset + 1] := address[1];
      data[offset + 2] := address[2];
      data[offset + 3] := address[3];
      assert data[..] == Splice(before, offset, address);
      PutInt(data, offset + 4, port);
      SpliceAdjacent(before, offset, address, Int32Bytes(port));
    }

    /** `toString`: `"[" + a.b.c.d + ":" + port + "]"`. */
    function ToString(): (s: string)
      ensures |s| >= 2 && s[0] == '[' && s[|s| - 1] == ']'
    {
      "[" + IpToString(address) + ":" + IntToString(port) + "]"
    }
  }

  /** A stand-in for `InetAddress.hashCode`: the address read as a big-endian `int`. */
  function AddressHash(address: Address): int32
  {
    Int32Of(address)
  }

  /** Java's `int` wrap-around. */
  function Wrap32(v: int): (r: int32)
    ensures (r - v) % TWO_32 == 0
  {
    (v + TWO_31) % TWO_32 - TWO_31
  }

  /** `new Identifier(data, offset)`: four address bytes, then a big-endian int port. */
  function FromBytes(data: seq<byte>, offset: nat): (id: Identifier)
    requires offset + SIZE <= |data|
  {
    Identifier(data[offset..offset + 4], IntAt(data, offset + 4))
  }

  /** The identifier read at `offset` is the one whose encoding is the eight bytes there. */
  lemma FromBytesEncodes(data: seq<byte>, offset: nat)
    requires offset + SIZE <= |data|
    ensures FromBytes(data, offset).Encode() == data[offset..offset + 8]
  {
    IntAtBytes(data, offset + 4);
    assert data[offset..offset + 8] == data[offset..offset + 4] + data[offset + 4..offset + 8];
  }

  /** Decoding what `InsertData` wrote at the same offset gives back an equal identifier. */
  lemma DecodeInserted(s: seq<byte>, offset: nat, id: Identifier)
    requires offset + SIZE <= |s|
    ensures FromBytes(Splice(s, offset, id.Encode()), offset) == id
  {
    var w := Splice(s, offset, id.Encode());
    assert w[offset..offset + 4] == w[offset..offset + 8][..4];
    assert w[offset + 4..offset + 8] == w[offset..offset + 8][4..];
    Int32RoundTrip(id.port);
  }

  lemma EqualsReflexive(a: Identifier)
    ensures a.Equals(IdentifierObject(a))
  {
  }

  lemma EqualsSymmetric(a: Identifier, b: Identifier)
    ensures a.Equals(IdentifierObject(b)) <==> b.Equals(IdentifierObject(a))
  {
  }

  /** `null` and objects of another class are never equal to an identifier. */
  lemma EqualsOtherClass(a: Identifier, b: Identifier)
    ensures !a.Equals(Null) && !a.Equals(EntityObject(b))
  {
  }

  /** Equal identifiers have equal hash codes. */
  lemma HashConsistent(a: Identifier, b: Identifier)
    requires a.Equals(IdentifierObject(b))
    ensures a.HashCode() == b.HashCode()
  {
  }

  // ---------------------------------------------------------------------
  // Decimal text

  predicate IsDigit(c: char)
  {
    '0' <= c <= '9'
  }

  predicate AllDigits(s: string)
  {
    forall i :: 0 <= i < |s| ==> IsDigit(s[i])
  }

  function DigitChar(d: nat): (c: char)
    requires d < 10
    ensures IsDigit(c) && c as int - '0' as int == d
  {
    "0123456789"[d]
  }

  /** The decimal digits of `n` without leading zeros, as Java prints a non-negative number. */
  function NatToString(n: nat): (s: string)
    ensures |s| >= 1 && AllDigits(s)
    ensures s[0] == '0' ==> n == 0
  {
    if n < 10 then [DigitChar(n)] else NatToString(n / 10) + [DigitChar(n % 10)]
  }

  /** Java's decimal form of an `int`: a minus sign before the magnitude when negative. */
  function IntToString(i: int): (s: string)
    ensures |s| >= 1
  {
    if i < 0 then "-" + NatToString(-i) else NatToString(i)
  }

  /** `ip[0] & 0xFF` and so on, joined by dots. */
  function IpToString(ip: Address): (s: string)
    ensures ':' !in s
  {
    OctetText(ip[0]);
    OctetText(ip[1]);
    OctetText(ip[2]);
    OctetText(ip[3]);
    NatToString(ip[0]) + "." + NatToString(ip[1]) + "." + NatToString(ip[2]) + "." + NatToString(ip[3])
  }

  // ---------------------------------------------------------------------
  // Reading the text form back: the inverse that shows `ToString` loses nothing.

  function ParseNat(s: string): nat
    requires AllDigits(s)
  {
    if s == [] then 0 else ParseNat(s[..|s| - 1]) * 10 + (s[|s| - 1] as int - '0' as int)
  }

  lemma {:induction false} ParseNatToString(n: nat)
    ensures ParseNat(NatToString(n)) == n
  {
    if n >= 10 {
      var s := NatToString(n);
      assert s[..|s| - 1] == NatToString(n / 10);
      ParseNatToString(n / 10);
    }
  }

  function ParseInt(s: string): Option<int>
  {
    if |s| > 1 && s[0] == '-' && AllDigits(s[1..]) then
      var magnitude: int := ParseNat(s[1..]);
      Some(-magnitude)
    else if |s| > 0 && AllDigits(s) then Some(ParseNat(s))
    else None
  }

  lemma ParseIntToString(i: int)
    ensures ParseInt(IntToString(i)) == Some(i)
  {
    var s := IntToString(i);
    if i < 0 {
      var m := NatToString(-i);
      assert s == "-" + m;
      assert s[0] == '-' && s[1..] == m;
      ParseNatToString(-i);
    } else {
      assert s == NatToString(i);
      assert s[0] != '-';
      ParseNatToString(i);
    }
  }

  /** The text before and after the first `c` in `s`, if there is one. */
  function Split(s: string, c: char): Option<(string, string)>
  {
    if s == [] then None
    else if s[0] == c then Some(([], s[1..]))
    else match Split(s[1..], c)
      case None => None
      case Some(r) => Some(([s[0]] + r.0, r.1))
  }

  lemma {:induction false} SplitAtFirst(a: string, c: char, b: string)
    requires c !in a
    ensures Split(a + [c] + b, c) == Some((a, b))
  {
    if a != [] {
      assert (a + [c] + b)[0] == a[0] != c;
      assert (a + [c] + b)[1..] == a[1..] + [c] + b;
      SplitAtFirst(a[1..], c, b);
      assert [a[0]] + a[1..] == a;
    } else {
      assert (a + [c] + b)[1..] == b;
    }
  }

  lemma DigitsHaveNoSeparator(s: string, c: char)
    requires AllDigits(s) && !IsDigit(c)
    ensures c !in s
  {
  }

  function ParseOctet(s: string): Option<byte>
  {
    if |s| > 0 && AllDigits(s) && ParseNat(s) < 256 then Some(ParseNat(s)) else None
  }

  /** Reads `[a.b.c.d:port]` back into an identifier. */
  function ParseIdentifier(s: string): Option<Identifier>
  {
    if |s| < 2 || s[0] != '[' || s[|s| - 1] != ']' then None
    else ParseDotted(s[1..|s| - 1])
  }

  /** Reads `a.b.c.d:port`. */
  function ParseDotted(s: string): Option<Identifier>
  {
    match Split(s, '.')
    case None => None
    case Some(p0) =>
      match Split(p0.1, '.')
      case None => None
      case Some(p1) =>
        match Split(p1.1, '.')
        case None => None
        case Some(p2) =>
          match Split(p2.1, ':')
          case None => None
          case Some(p3) => Assemble(ParseOctet(p0.0), ParseOctet(p1.0), ParseOctet(p2.0), ParseOctet(p3.0), ParseInt(p3.1))
  }

  function Assemble(o0: Option<byte>, o1: Option<byte>, o2: Option<byte>, o3: Option<byte>, port: Option<int>): Option<Identifier>
  {
    if o0.Some? && o1.Some? && o2.Some? && o3.Some? && port.Some? && -TWO_31 <= port.value < TWO_31
    then Some(Identifier([o0.value, o1.value, o2.value, o3.value], port.value))
    else None
  }

  /** `toString` can be read back, so different identifiers print differently. */
  lemma ParseToString(id: Identifier)
    ensures ParseIdentifier(id.ToString()) == Some(id)
  {
    var a := id.address;
    var d0, d1, d2, d3 := NatToString(a[0]), NatToString(a[1]), NatToString(a[2]), NatToString(a[3]);
    var p := IntToString(id.port);
    var inner := d0 + "." + (d1 + "." + (d2 + "." + (d3 + ":" + p)));
    var s := id.ToString();
    assert s == "[" + inner + "]";
    assert s[1..|s| - 1] == inner;
    ParseDottedText(id);
  }

  lemma ParseDottedText(id: Identifier)
    ensures
      var a := id.address;
      ParseDotted(NatToString(a[0]) + "." + (NatToString(a[1]) + "." + (NatToString(a[2]) + "." + (NatToString(a[3]) + ":" + IntToString(id.port))))) == Some(id)
  {
    var a := id.address;
    OctetText(a[0]);
    OctetText(a[1]);
    OctetText(a[2]);
    OctetText(a[3]);
    ParseIntToString(id.port);
    ParseDottedParts(NatToString(a[0]), NatToString(a[1]), NatToString(a[2]), NatToString(a[3]), IntToString(id.port),
                     a[0], a[1], a[2], a[3], id.port);
    assert [a[0], a[1], a[2], a[3]] == a;
  }

  lemma ParseDottedParts(d0: string, d1: string, d2: string, d3: string, p: string,
                         o0: byte, o1: byte, o2: byte, o3: byte, port: int32)
    requires '.' !in d0 && '.' !in d1 && '.' !in d2 && ':' !in d3
    requires ParseOctet(d0) == Some(o0) && ParseOctet(d1) == Some(o1)
    requires ParseOctet(d2) == Some(o2) && ParseOctet(d3) == Some(o3)
    requires ParseInt(p) == Some(port)
    ensures ParseDotted(d0 + "." + (d1 + "." + (d2 + "." + (d3 + ":" + p)))) == Some(Identifier([o0, o1, o2, o3], port))
  {
    var r3 := d3 + ":" + p;
    var r2 := d2 + "." + r3;
    var r1 := d1 + "." + r2;
    SplitAtFirst(d0, '.', r1);
    SplitAtFirst(d1, '.', r2);
    SplitAtFirst(d2, '.', r3);
    SplitAtFirst(d3, ':', p);
  }

  lemma OctetText(o: byte)
    ensures '.' !in NatToString(o) && ':' !in NatToString(o)
    ensures ParseOctet(NatToString(o)) == Some(o)
  {
    DigitsHaveNoSeparator(NatToString(o), '.');
    DigitsHaveNoSeparator(NatToString(o), ':');
    ParseNatToString(o);
  }

  lemma ToStringInjective(a: Identifier, b: Identifier)
    requires a.ToString() == b.ToString()
    ensures a == b
  {
    ParseToString(a);
    ParseToString(b);
  }
}
