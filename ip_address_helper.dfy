/**
 * IPAddressHelper: whether an address lies in the range of a network and a prefix
 * length, computed with BigInteger arithmetic on the address bytes: the range is the
 * network's value up to that value plus 2^(W - length) - 1, W the bit width of the
 * address's family.
 */
module IPAddressHelpers {
  import opened Platform

  /** 2^n */
  function Pow2(n: nat): (p: nat)
    ensures p >= 1
  {
    if n == 0 then 1 else 2 * Pow2(n - 1)
  }

  /** 256^n */
  function Pow256(n: nat): (p: nat)
    ensures p >= 1
  {
    if n == 0 then 1 else 256 * Pow256(n - 1)
  }

  /** The unsigned value of bytes read least significant first. */
  function UnsignedLittleEndian(bs: seq<byte>): (v: nat)
    ensures v < Pow256(|bs|)
  {
    if |bs| == 0 then 0 else bs[0] as nat + 256 * UnsignedLittleEndian(bs[1..])
  }

  /** new BigInteger(bytes): two's complement, least significant byte first. */
  function SignedLittleEndian(bs: seq<byte>): int {
    UnsignedLittleEndian(bs) - (if |bs| > 0 && bs[|bs| - 1] >= 0x80 then Pow256(|bs|) else 0)
  }

  /** The unsigned value of bytes read most significant first (network order). */
  function UnsignedBigEndian(bs: seq<byte>): nat {
    if |bs| == 0 then 0 else UnsignedBigEndian(bs[..|bs| - 1]) * 256 + bs[|bs| - 1] as nat
  }

  /** The bytes in the opposite order. */
  function Reversed(bs: seq<byte>): (r: seq<byte>)
    ensures |r| == |bs|
    ensures forall k :: 0 <= k < |bs| ==> r[k] == bs[|bs| - 1 - k]
  {
    if |bs| == 0 then [] else [bs[|bs| - 1]] + Reversed(bs[..|bs| - 1])
  }

  /** The address width in bytes that GetMask reports: 4 for IPv4, 16 otherwise. */
  function WidthBytes(family: AddressFamily): nat {
    if family == InterNetwork then 4 else 16
  }

  /** BigInteger `x << k`; a negative count shifts right, rounding toward negative infinity. */
  function ShiftLeft(x: int, k: int): int {
    if k >= 0 then x * Pow2(k) else x / Pow2(-k)
  }

  /** BigInteger `~x` */
  function BitNot(x: int): int {
    -x - 1
  }

  /** Every byte is 0xFF. */
  predicate AllOnes(bs: seq<byte>) {
    forall k :: 0 <= k < |bs| ==> bs[k] == 0xFF
  }

  /** All-0xFF bytes read as two's complement are -1, whatever their number. */
  lemma {:induction false} AllOnesIsMinusOne(bs: seq<byte>)
    requires |bs| > 0 && AllOnes(bs)
    ensures SignedLittleEndian(bs) == -1
  {
    AllOnesValue(bs);
  }

  lemma {:induction false} AllOnesValue(bs: seq<byte>)
    requires AllOnes(bs)
    ensures UnsignedLittleEndian(bs) == Pow256(|bs|) - 1
    decreases |bs|
  {
    if |bs| > 0 {
      assert AllOnes(bs[1..]) by {
        assert forall k :: 0 <= k < |bs| - 1 ==> bs[1..][k] == bs[k + 1];
      }
      AllOnesValue(bs[1..]);
    }
  }

  /** GetMask: the mask as a BigInteger and, in `length`, the address width in bytes. */
  method GetMask(family: AddressFamily) returns (mask: int, length: nat)
    ensures length == WidthBytes(family)
    ensures mask == -1
  {
    length := if family == InterNetwork then 4 else 16;
    var bytes := new byte[length];
    for i := 0 to length
      invariant forall j :: 0 <= j < i ==> bytes[j] == 0xFF
    {
      bytes[i] := 0xFF;
    }
    AllOnesIsMinusOne(bytes[..]);
    mask := SignedLittleEndian(bytes[..]);
  }

  /** Array.Reverse(data) */
  method Reverse(data: array<byte>)
    modifies data
    ensures data[..] == Reversed(old(data[..]))
  {
    var i, j := 0, data.Length - 1;
    while i < j
      invariant 0 <= i <= data.Length && j == data.Length - 1 - i
      invariant forall k :: 0 <= k < i ==> data[k] == old(data[data.Length - 1 - k]) && data[data.Length - 1 - k] == old(data[k])
      invariant forall k :: i <= k <= j ==> data[k] == old(data[k])
    {
      data[i], data[j] := data[j], data[i];
      i, j := i + 1, j - 1;
    }
  }

  /** Reading the reversed bytes least significant first is reading the bytes in network order. */
  lemma {:induction false} ReversedValue(bs: seq<byte>)
    ensures UnsignedLittleEndian(Reversed(bs)) == UnsignedBigEndian(bs)
    decreases |bs|
  {
    if |bs| > 0 {
      var r := Reversed(bs);
      assert r[1..] == Reversed(bs[..|bs| - 1]);
      ReversedValue(bs[..|bs| - 1]);
    }
  }

  /** A trailing zero byte does not change the unsigned value. */
  lemma {:induction false} ZeroPadValue(bs: seq<byte>)
    ensures UnsignedLittleEndian(bs + [0]) == UnsignedLittleEndian(bs)
    decreases |bs|
  {
    if |bs| == 0 {
      assert ([] + [0 as byte])[1..] == [];
    } else {
      assert (bs + [0])[1..] == bs[1..] + [0];
      ZeroPadValue(bs[1..]);
    }
  }

  /** ...and makes the two's complement value that unsigned value. */
  lemma ZeroPadSigned(bs: seq<byte>)
    ensures SignedLittleEndian(bs + [0]) == UnsignedLittleEndian(bs)
  {
    ZeroPadValue(bs);
  }

  /**
   * ToBigInteger, on its path without the unsigned big-endian constructor: `data` is
   * reversed in place, a zero byte appended and the result read as two's complement.
   * Either path gives the network-order unsigned value.
   */
  method ToBigInteger(data: array<byte>) returns (v: int)
    modifies data
    ensures data[..] == Reversed(old(data[..]))
    ensures v == UnsignedBigEndian(old(data[..]))
  {
    Reverse(data);
    var padded := data[..] + [0];
    ZeroPadSigned(data[..]);
    ReversedValue(old(data[..]));
    v := SignedLittleEndian(padded);
  }

  /** What `~(mask << (bytes * 8 - length))` adds to the network, the shift count in C# int arithmetic. */
  function Span(family: AddressFamily, length: int32): nat {
    var k := Wrap32(WidthBytes(family) * 8 - length as int) as int;
    if k >= 0 then Pow2(k) - 1 else 0
  }

  /**
   * The range IsInRange tests: network order values N of the network and A of the
   * address with N <= A <= N + Span, the width taken from the address's family.
   */
  predicate Covers(address: IPAddress, network: IPAddress, length: int32) {
    var n := UnsignedBigEndian(network.bytes);
    n <= UnsignedBigEndian(address.bytes) <= n + Span(address.family, length)
  }

  /** The inverse of a mask of all ones shifted by `k` is `k` low ones, and nothing for a right shift. */
  lemma MaskSpan(k: int)
    ensures BitNot(ShiftLeft(-1, k)) == if k >= 0 then Pow2(k) - 1 else 0
  {
    if k < 0 {
      var d: int := Pow2(-k);
      assert -1 == (-1) * d + (d - 1);
      assert (-1) / d == -1;
    }
  }

  /** A copy of the bytes in a new array, as GetAddressBytes returns. */
  method AddressBytes(address: IPAddress) returns (a: array<byte>)
    ensures fresh(a) && a[..] == address.bytes
  {
    a := new byte[|address.bytes|](k requires 0 <= k < |address.bytes| => address.bytes[k]);
  }

  /** IPAddressHelper.IsInRange */
  method IsInRange(address: IPAddress, network: IPAddress, length: int32) returns (r: bool)
    ensures r == Covers(address, network, length)
  {
    var mask, bytes := GetMask(address.family);
    var networkBytes := AddressBytes(network);
    var start := ToBigInteger(networkBytes);
    var shift := Wrap32(bytes * 8 - length as int) as int;
    MaskSpan(shift);
    var end := start + BitNot(ShiftLeft(mask, shift));
    assert end == UnsignedBigEndian(network.bytes) + Span(address.family, length);
    var addressBytes := AddressBytes(address);
    var value := ToBigInteger(addressBytes);
    assert value == UnsignedBigEndian(address.bytes);
    r := value >= start && value <= end;
  }
}
