/**
 * MxValidator: the MX hosts of a domain whose address lookup yields an address printing
 * as 127.0.0.1 are reported as invalid.
 */
module MxValidators {
  import opened Wrappers
  import opened Platform
  import opened Resolvers

  const Loopback := "127.0.0.1"

  /** ipAddresses.Any(ip => ip.ToString() == "127.0.0.1") */
  predicate AnyLoopback(lib: Library, ips: seq<IPAddress>) {
    exists k :: 0 <= k < |ips| && lib.ipToString(ips[k]) == Loopback
  }

  /** The hosts whose addresses include the loopback one, in order and with repeats. */
  function InvalidHosts(lib: Library, address: string -> seq<IPAddress>, hosts: seq<string>): (r: seq<string>)
    ensures |r| <= |hosts|
  {
    if |hosts| == 0 then []
    else
      var last := hosts[|hosts| - 1];
      InvalidHosts(lib, address, hosts[..|hosts| - 1]) + (if AnyLoopback(lib, address(last)) then [last] else [])
  }

  /** A host is reported exactly when it is one of the hosts and one of its addresses prints as 127.0.0.1. */
  lemma {:induction false} InvalidHostsMembers(lib: Library, address: string -> seq<IPAddress>, hosts: seq<string>)
    ensures forall h :: h in InvalidHosts(lib, address, hosts) <==> h in hosts && AnyLoopback(lib, address(h))
    decreases |hosts|
  {
    if |hosts| > 0 {
      var init := hosts[..|hosts| - 1];
      InvalidHostsMembers(lib, address, init);
      assert hosts == init + [hosts[|hosts| - 1]];
      assert forall h :: h in hosts <==> h in init || h == hosts[|hosts| - 1];
    }
  }

  /** MxValidationResult, as a value. */
  datatype Validation = Validation(hasMxRecords: bool, invalidMxRecords: seq<string>)

  /**
   * ValidateMxRecords as a function of the lookups: no MX answer (null or empty) gives
   * no records and nothing invalid; otherwise every host is checked.
   */
  function Validate(lib: Library, resolver: Resolver, domain: string): (v: Validation)
    ensures v.hasMxRecords <==> resolver.mail(domain).Some? && |resolver.mail(domain).value| > 0
    ensures !v.hasMxRecords ==> v.invalidMxRecords == []
  {
    var mx := resolver.mail(domain);
    if mx.None? || |mx.value| == 0 then Validation(false, [])
    else Validation(true, InvalidHosts(lib, resolver.address, mx.value))
  }

  /** The names ValidateMxRecords looks up addresses for: every MX host, in order. */
  function AddressQueries(resolver: Resolver, domain: string): seq<string> {
    var mx := resolver.mail(domain);
    if mx.None? then [] else mx.value
  }

  /** MxValidator.MxValidationResult */
  class MxValidationResult {
    var hasMxRecords: bool
    var invalidMxRecords: seq<string>

    function Fields(): Validation
      reads this
    {
      Validation(hasMxRecords, invalidMxRecords)
    }

    constructor ()
      ensures Fields() == Validation(false, [])
    {
      hasMxRecords := false;
      invalidMxRecords := [];
    }
  }

  /** MxValidator: a resolver, and in `addressQueries` the address lookups made so far. */
  class MxValidator {
    const resolver: Resolver
    const lib: Library
    ghost var addressQueries: seq<string>

    constructor (resolver: Resolver, lib: Library)
      ensures this.resolver == resolver && this.lib == lib && addressQueries == []
    {
      this.resolver := resolver;
      this.lib := lib;
      addressQueries := [];
    }

    /** One pass of ValidateMxRecords's loop: look up the host's addresses and record the host when one prints as 127.0.0.1. */
    method CheckHost(result: MxValidationResult, host: string)
      modifies this, result
      ensures result.hasMxRecords == old(result.hasMxRecords)
      ensures result.invalidMxRecords == old(result.invalidMxRecords) + (if AnyLoopback(lib, resolver.address(host)) then [host] else [])
      ensures addressQueries == old(addressQueries) + [host]
    {
      var ipAddresses := resolver.address(host);
      addressQueries := addressQueries + [host];
      if AnyLoopback(lib, ipAddresses) {
        result.invalidMxRecords := result.invalidMxRecords + [host];
      }
    }

    /** MxValidator.ValidateMxRecords */
    method ValidateMxRecords(domain: string) returns (result: MxValidationResult)
      modifies this
      ensures fresh(result) && result.Fields() == Validate(lib, resolver, domain)
      ensures addressQueries == old(addressQueries) + AddressQueries(resolver, domain)
    {
      result := new MxValidationResult();
      var mxRecords := resolver.mail(domain);
      if mxRecords.None? || |mxRecords.value| == 0 {
        result.hasMxRecords := false;
        return result;
      }
      result.hasMxRecords := true;
      var hosts := mxRecords.value;
      for n := 0 to |hosts|
        invariant result.hasMxRecords
        invariant result.invalidMxRecords == InvalidHosts(lib, resolver.address, hosts[..n])
        invariant addressQueries == old(addressQueries) + hosts[..n]
      {
        InvalidHostsStep(lib, resolver.address, hosts, n);
        assert old(addressQueries) + hosts[..n + 1] == addressQueries + [hosts[n]] by {
          assert hosts[..n + 1] == hosts[..n] + [hosts[n]];
        }
        CheckHost(result, hosts[n]);
      }
      assert hosts[..|hosts|] == hosts;
    }
  }

  /** The check of one host more. */
  lemma InvalidHostsStep(lib: Library, address: string -> seq<IPAddress>, hosts: seq<string>, n: nat)
    requires n < |hosts|
    ensures InvalidHosts(lib, address, hosts[..n + 1])
         == InvalidHosts(lib, address, hosts[..n]) + (if AnyLoopback(lib, address(hosts[n])) then [hosts[n]] else [])
  {
    assert hosts[..n + 1][..n] == hosts[..n];
  }

  /** The check of a list of hosts is the checks of its parts, one after the other. */
  lemma {:induction false} InvalidHostsAppend(lib: Library, address: string -> seq<IPAddress>, xs: seq<string>, ys: seq<string>)
    ensures InvalidHosts(lib, address, xs + ys) == InvalidHosts(lib, address, xs) + InvalidHosts(lib, address, ys)
    decreases |ys|
  {
    if |ys| == 0 {
      assert xs + ys == xs;
    } else {
      var ys' := ys[..|ys| - 1];
      assert (xs + ys)[..|xs + ys| - 1] == xs + ys';
      InvalidHostsAppend(lib, address, xs, ys');
    }
  }

  /** One host is reported exactly when one of its addresses prints as 127.0.0.1. */
  lemma InvalidHostsOne(lib: Library, address: string -> seq<IPAddress>, h: string)
    ensures InvalidHosts(lib, address, [h]) == if AnyLoopback(lib, address(h)) then [h] else []
  {
    assert [h][..0] == [];
  }

  /** Hosts none of whose addresses print as 127.0.0.1 give nothing invalid. */
  lemma AllValid(lib: Library, resolver: Resolver, domain: string)
    requires resolver.mail(domain).Some?
    requires forall k :: 0 <= k < |resolver.mail(domain).value| ==> !AnyLoopback(lib, resolver.address(resolver.mail(domain).value[k]))
    ensures Validate(lib, resolver, domain).invalidMxRecords == []
  {
    NoneInvalid(lib, resolver.address, resolver.mail(domain).value);
  }

  lemma {:induction false} NoneInvalid(lib: Library, address: string -> seq<IPAddress>, hosts: seq<string>)
    requires forall k :: 0 <= k < |hosts| ==> !AnyLoopback(lib, address(hosts[k]))
    ensures InvalidHosts(lib, address, hosts) == []
    decreases |hosts|
  {
    if |hosts| > 0 {
      NoneInvalid(lib, address, hosts[..|hosts| - 1]);
    }
  }

  /** Only the exact text counts: an address printing otherwise (127.0.0.2, ::1) does not make a host invalid. */
  lemma OnlyExactLoopback(lib: Library, ip: IPAddress)
    requires lib.ipToString(ip) != Loopback
    ensures !AnyLoopback(lib, [ip])
  {
  }

  /** Two hosts with private addresses: MX records found, nothing invalid. */
  lemma ValidMxTest(lib: Library, resolver: Resolver, ip1: IPAddress, ip2: IPAddress)
    requires resolver.mail("businessmonitor.nl") == Some(["mail1.businessmonitor.nl", "mail2.businessmonitor.nl"])
    requires resolver.address("mail1.businessmonitor.nl") == [ip1] && lib.ipToString(ip1) == "192.168.1.1"
    requires resolver.address("mail2.businessmonitor.nl") == [ip2] && lib.ipToString(ip2) == "192.168.1.2"
    ensures Validate(lib, resolver, "businessmonitor.nl") == Validation(true, [])
  {
    AllValid(lib, resolver, "businessmonitor.nl");
  }

  /** One host resolving to 127.0.0.1: MX records found, that host invalid. */
  lemma InvalidMxTest(lib: Library, resolver: Resolver, ip: IPAddress)
    requires resolver.mail("geen.nl") == Some(["bogus.dmrmail.nl"])
    requires resolver.address("bogus.dmrmail.nl") == [ip] && lib.ipToString(ip) == Loopback
    ensures Validate(lib, resolver, "geen.nl") == Validation(true, ["bogus.dmrmail.nl"])
  {
    InvalidHostsOne(lib, resolver.address, "bogus.dmrmail.nl");
    assert AnyLoopback(lib, [ip]) by {
      assert lib.ipToString([ip][0]) == Loopback;
    }
  }

  /** An empty MX answer: no records, nothing invalid, no address lookups. */
  lemma NoMxTest(lib: Library, resolver: Resolver)
    requires resolver.mail("nonexistentdomain.nl") == Some([])
    ensures Validate(lib, resolver, "nonexistentdomain.nl") == Validation(false, [])
    ensures AddressQueries(resolver, "nonexistentdomain.nl") == []
  {
  }
}
