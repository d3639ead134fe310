/**
 * The .NET types the core uses, and the behaviour of the .NET libraries it calls
 * but which are not modelled here: parsing and printing IP addresses, parsing a
 * URI, checking base64 and decoding UTF-8. Those four are the function fields of
 * `Library`, passed to every operation that needs them, so that every property
 * proved here holds whatever those libraries do, unless a lemma says otherwise.
 */
module Platform {
  import opened Wrappers

  newtype byte = b: int | 0 <= b < 0x100
  newtype ushort = u: int | 0 <= u < 0x1_0000
  newtype int32 = i: int | -0x8000_0000 <= i < 0x8000_0000

  /** C# `int` arithmetic: the 32-bit two's-complement wrap-around of `x`. */
  function Wrap32(x: int): (r: int32)
    ensures -0x8000_0000 <= x < 0x8000_0000 ==> r as int == x
    ensures (r as int - x) % 0x1_0000_0000 == 0
  {
    var m := (x + 0x8000_0000) % 0x1_0000_0000;
    (m - 0x8000_0000) as int32
  }

  /** System.Net.Sockets.AddressFamily, restricted to the two IP families. */
  datatype AddressFamily = InterNetwork | InterNetworkV6

  /** System.Net.IPAddress: its family and what GetAddressBytes() returns. */
  datatype IPAddress = IPAddress(family: AddressFamily, bytes: seq<byte>)

  /** The foreign library behaviour the core depends on. */
  datatype Library = Library(
    /** IPAddress.Parse: the address, or None where it throws FormatException */
    ipParse: string -> Option<IPAddress>,
    /** IPAddress.ToString */
    ipToString: IPAddress -> string,
    /** new Uri(s).Scheme: the scheme of an absolute URI, or None where it throws UriFormatException */
    uriScheme: string -> Option<string>,
    /** whether Convert.FromBase64String(s) returns without a FormatException */
    base64Decodes: string -> bool,
    /** Encoding.UTF8.GetString of exactly these bytes */
    utf8Decode: seq<byte> -> string
  )
}
