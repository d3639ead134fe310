/** SpfAddress: the address of an `ip4` or `ip6` mechanism, with its optional prefix length. */
module SpfAddresses {
  import opened Wrappers
  import opened Errors
  import opened Platform
  import opened Text

  datatype SpfAddress = SpfAddress(address: IPAddress, length: Option<int32>)

  /** The address text of an `ip4`/`ip6` value: everything before the first '/'. */
  function AddressText(value: string): (t: string)
    ensures '/' !in t
    ensures '/' !in value ==> t == value
  {
    var pos := IndexOf(value, '/');
    if pos == -1 then value else value[..pos]
  }

  /** The prefix-length text: everything after the first '/', if there is one. */
  function LengthText(value: string): (t: Option<string>)
    ensures t.None? <==> '/' !in value
    ensures t.Some? ==> value == AddressText(value) + "/" + t.value
  {
    var pos := IndexOf(value, '/');
    if pos == -1 then None
    else
      assert value == value[..pos] + "/" + value[pos + 1..];
      Some(value[pos + 1..])
  }

  /**
   * SpfAddress.Parse: the text before the first '/' must be an IP literal, and the text
   * after it, if any, must be a number int.Parse accepts; the length is not range-checked.
   * Either failure is the runtime exception of int.Parse or IPAddress.Parse, and the
   * length is parsed first.
   */
  function Parse(lib: Library, value: string): (r: Result<SpfAddress, Error>)
    ensures r.Success? <==>
      (lib.ipParse(AddressText(value)).Some?
       && (LengthText(value).Some? ==> ParseInt32(LengthText(value).value).Success?))
    ensures r.Success? ==> Some(r.value.address) == lib.ipParse(AddressText(value))
    ensures r.Success? ==> (r.value.length.None? <==> '/' !in value)
    ensures r.Failure? ==> r.error.RuntimeFailure?
  {
    var length :- match LengthText(value)
      case None => Success(None)
      case Some(t) =>
        match ParseInt32(t)
        case Success(n) => Success(Some(n))
        case Failure(cause) => Failure(RuntimeFailure(cause));
    match lib.ipParse(AddressText(value))
    case None => Failure(RuntimeFailure(Format))
    case Some(a) => Success(SpfAddress(a, length))
  }

  /** SpfAddress.ToString: the address text, then "/" and the length when there is one. */
  function ToString(lib: Library, a: SpfAddress): string {
    lib.ipToString(a.address) + (if a.length.Some? then "/" + ShowInt(a.length.value as int) else "")
  }

  /**
   * Printing then parsing gives the address back, whatever its length, when the
   * address library reads back the text it prints (and that text has no '/').
   */
  lemma ParseToString(lib: Library, a: SpfAddress)
    requires lib.ipParse(lib.ipToString(a.address)) == Some(a.address)
    requires '/' !in lib.ipToString(a.address)
    ensures Parse(lib, ToString(lib, a)) == Success(a)
  {
    var ip := lib.ipToString(a.address);
    var s := ToString(lib, a);
    if a.length.Some? {
      var t := ShowInt(a.length.value as int);
      IndexOfAfterFree(ip, "/" + t, '/');
      assert s == ip + ("/" + t);
      assert s[..|ip|] == ip;
      assert s[|ip| + 1..] == t;
      assert AddressText(s) == ip;
      assert LengthText(s) == Some(t);
      ParseShowInt32(a.length.value);
      assert ParseInt32(t) == Success(a.length.value);
      assert Parse(lib, s) == Success(SpfAddress(a.address, Some(a.length.value)));
    } else {
      assert s == ip;
    }
  }

  /** The text an address prints as, given its address text and its length text. */
  lemma ShowAddress(lib: Library, value: string, a: SpfAddress)
    requires a.length.Some? <==> '/' in value
    requires lib.ipToString(a.address) == AddressText(value)
    requires a.length.Some? ==> ShowInt(a.length.value as int) == LengthText(value).value
    ensures ToString(lib, a) == value
  {
    var ip := lib.ipToString(a.address);
    if a.length.Some? {
      var t := LengthText(value).value;
      assert value == ip + "/" + t;
      assert ToString(lib, a) == ip + "/" + t;
    } else {
      assert ToString(lib, a) == ip;
    }
  }

  /**
   * Parsing then printing gives the text back when it is canonical: the address library
   * prints the parsed address as it was written and the length has no sign, padding or
   * leading zeros (192.0.2.0/24, 192.0.2.0, 2001:db8::/32).
   */
  lemma ToStringParse(lib: Library, value: string, a: SpfAddress)
    requires Parse(lib, value) == Success(a)
    requires lib.ipToString(a.address) == AddressText(value)
    requires a.length.Some? ==> ShowInt(a.length.value as int) == LengthText(value).value
    ensures ToString(lib, a) == value
  {
    ShowAddress(lib, value, a);
  }

  /**
   * SpfAddress.Contains: with no prefix length, whether the argument is the stored address;
   * with one, the source throws NotImplementedException.
   */
  function Contains(a: SpfAddress, address: IPAddress): (r: Result<bool, Error>)
    ensures r.Success? <==> a.length.None?
    ensures r.Success? ==> (r.value <==> address == a.address)
    ensures r.Failure? ==> r.error == RuntimeFailure(NotImplemented)
  {
    if a.length.None? then Success(a.address == address) else Failure(RuntimeFailure(NotImplemented))
  }
}
