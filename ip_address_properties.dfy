/**
 * What IPAddressHelper.IsInRange decides: an interval of 2^(W - length) values from the
 * network's own value, W the width of the address's family. The network is not reduced
 * to its prefix first, so for a network with host bits set the interval is not the
 * CIDR block of section 3.1 of RFC 4632; `InPrefix` is that block.
 */
module IPAddressProperties {
  import opened Platform
  import opened IPAddressHelpers

  /** The bit width of an address of the family. */
  function Width(family: AddressFamily): nat {
    WidthBytes(family) * 8
  }

  /** For a prefix length within the width the range holds exactly 2^(W - length) values, from the network's value on. */
  lemma CoversInterval(address: IPAddress, network: IPAddress, length: int32)
    requires 0 <= length as int <= Width(address.family)
    ensures Covers(address, network, length) <==>
      UnsignedBigEndian(network.bytes) <= UnsignedBigEndian(address.bytes)
        < UnsignedBigEndian(network.bytes) + Pow2(Width(address.family) - length as int)
  {
  }

  /** A prefix as long as the width, or longer, covers the network's own value only. */
  lemma CoversFullLength(address: IPAddress, network: IPAddress, length: int32)
    requires length as int >= Width(address.family)
    ensures Covers(address, network, length) <==> UnsignedBigEndian(address.bytes) == UnsignedBigEndian(network.bytes)
  {
  }

  /** The width comes from the address: the network's family plays no part. */
  lemma CoversIgnoresNetworkFamily(address: IPAddress, bytes: seq<byte>, length: int32)
    ensures Covers(address, IPAddress(InterNetwork, bytes), length) == Covers(address, IPAddress(InterNetworkV6, bytes), length)
  {
  }

  function V4(a: byte, b: byte, c: byte, d: byte): IPAddress {
    IPAddress(InterNetwork, [a, b, c, d])
  }

  /** The network value of four bytes. */
  lemma V4Value(a: byte, b: byte, c: byte, d: byte)
    ensures UnsignedBigEndian(V4(a, b, c, d).bytes) == a as int * 0x100_0000 + b as int * 0x1_0000 + c as int * 0x100 + d as int
  {
    assert [a][..0] == [];
    assert UnsignedBigEndian([a]) == a as nat;
    assert [a, b][..1] == [a];
    assert UnsignedBigEndian([a, b]) == a as nat * 0x100 + b as nat;
    assert [a, b, c][..2] == [a, b];
    assert UnsignedBigEndian([a, b, c]) == (a as nat * 0x100 + b as nat) * 0x100 + c as nat;
    assert [a, b, c, d][..3] == [a, b, c];
  }

  /** 192.168.0.100 is in 192.168.0.1/24; 192.168.1.100 and 10.10.0.10 are not. */
  lemma RangeTest()
    ensures Covers(V4(192, 168, 0, 100), V4(192, 168, 0, 1), 24)
    ensures !Covers(V4(192, 168, 1, 100), V4(192, 168, 0, 1), 24)
    ensures !Covers(V4(10, 10, 0, 10), V4(192, 168, 0, 1), 24)
  {
    V4Value(192, 168, 0, 100);
    V4Value(192, 168, 0, 1);
    V4Value(192, 168, 1, 100);
    V4Value(10, 10, 0, 10);
    CoversInterval(V4(192, 168, 0, 100), V4(192, 168, 0, 1), 24);
    CoversInterval(V4(192, 168, 1, 100), V4(192, 168, 0, 1), 24);
    CoversInterval(V4(10, 10, 0, 10), V4(192, 168, 0, 1), 24);
    assert Pow2(8) == 256;
  }

  /** 192.0.2.129 is in 192.0.2.128/28; 192.0.2.65 is not. */
  lemma RangeTest2()
    ensures Covers(V4(192, 0, 2, 129), V4(192, 0, 2, 128), 28)
    ensures !Covers(V4(192, 0, 2, 65), V4(192, 0, 2, 128), 28)
  {
    V4Value(192, 0, 2, 129);
    V4Value(192, 0, 2, 128);
    V4Value(192, 0, 2, 65);
    CoversInterval(V4(192, 0, 2, 129), V4(192, 0, 2, 128), 28);
    CoversInterval(V4(192, 0, 2, 65), V4(192, 0, 2, 128), 28);
    assert Pow2(4) == 16;
  }

  /**
   * The network keeps its host bits: 192.168.0.1/24 covers 192.168.1.0, outside the block
   * 192.168.0.0/24, and misses 192.168.0.0, inside it.
   */
  lemma UnmaskedNetwork()
    ensures Covers(V4(192, 168, 1, 0), V4(192, 168, 0, 1), 24)
    ensures !Covers(V4(192, 168, 0, 0), V4(192, 168, 0, 1), 24)
  {
    V4Value(192, 168, 1, 0);
    V4Value(192, 168, 0, 1);
    V4Value(192, 168, 0, 0);
    CoversInterval(V4(192, 168, 1, 0), V4(192, 168, 0, 1), 24);
    CoversInterval(V4(192, 168, 0, 0), V4(192, 168, 0, 1), 24);
    assert Pow2(8) == 256;
  }

  /** The number of addresses in a block of the prefix length. */
  function BlockSize(family: AddressFamily, length: int32): (n: nat)
    requires 0 <= length as int <= Width(family)
    ensures n >= 1
  {
    Pow2(Width(family) - length as int)
  }

  /** The first address of the block of the network: its value with the host bits cleared. */
  function BlockBase(network: IPAddress, family: AddressFamily, length: int32): int
    requires 0 <= length as int <= Width(family)
  {
    UnsignedBigEndian(network.bytes) / BlockSize(family, length) * BlockSize(family, length)
  }

  /**
   * The CIDR block test: the first `length` bits of the address and the network agree,
   * that is, their values agree after the low W - length bits are dropped.
   */
  predicate InPrefix(address: IPAddress, network: IPAddress, length: int32)
    requires 0 <= length as int <= Width(address.family)
  {
    var d := BlockSize(address.family, length);
    UnsignedBigEndian(address.bytes) / d == UnsignedBigEndian(network.bytes) / d
  }

  /** Multiplying by a natural number keeps the order. */
  lemma MulLe(x: int, y: int, d: nat)
    requires x <= y
    ensures x * d <= y * d
  {
    assert y * d - x * d == (y - x) * d;
  }

  /** A multiple of `d` is its quotient times `d`. */
  lemma DivExact(n: nat, d: nat)
    requires d > 0 && n % d == 0
    ensures n / d * d == n
  {
  }

  /** The values whose quotient by `d` is `q` are those from q * d below (q + 1) * d. */
  lemma DivInterval(a: nat, q: nat, d: nat)
    requires d > 0
    ensures a / d == q <==> q * d <= a < q * d + d
  {
    var q' := a / d;
    assert a == q' * d + a % d;
    if q * d <= a < q * d + d {
      if q' < q {
        MulLe(q' + 1, q, d);
      } else if q' > q {
        MulLe(q + 1, q', d);
      }
    }
  }

  /** The block starts at the network's value with its host bits cleared and holds 2^(W - length) values. */
  lemma InPrefixInterval(address: IPAddress, network: IPAddress, length: int32)
    requires 0 <= length as int <= Width(address.family)
    ensures InPrefix(address, network, length) <==>
      BlockBase(network, address.family, length) <= UnsignedBigEndian(address.bytes)
        < BlockBase(network, address.family, length) + BlockSize(address.family, length)
  {
    var d := BlockSize(address.family, length);
    DivInterval(UnsignedBigEndian(address.bytes), UnsignedBigEndian(network.bytes) / d, d);
  }

  /** For a network given without host bits IsInRange is the block test. */
  lemma AlignedNetworkAgrees(address: IPAddress, network: IPAddress, length: int32)
    requires 0 <= length as int <= Width(address.family)
    requires UnsignedBigEndian(network.bytes) % BlockSize(address.family, length) == 0
    ensures Covers(address, network, length) <==> InPrefix(address, network, length)
  {
    DivExact(UnsignedBigEndian(network.bytes), BlockSize(address.family, length));
    InPrefixInterval(address, network, length);
    CoversInterval(address, network, length);
  }

  /** The block test on the example of UnmaskedNetwork: 192.168.0.0 is in 192.168.0.1/24, 192.168.1.0 is not. */
  lemma PrefixExample()
    ensures InPrefix(V4(192, 168, 0, 0), V4(192, 168, 0, 1), 24)
    ensures !InPrefix(V4(192, 168, 1, 0), V4(192, 168, 0, 1), 24)
  {
    V4Value(192, 168, 1, 0);
    V4Value(192, 168, 0, 1);
    V4Value(192, 168, 0, 0);
    assert Pow2(8) == 256;
  }
}
