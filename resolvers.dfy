/**
 * The DNS lookups the checks depend on. IResolver itself declares only the TXT lookup;
 * the MX validator and the DNS-over-HTTPS resolvers also use the address and mail
 * lookups, so a resolver is modelled as the three lookups as functions.
 */
module Resolvers {
  import opened Wrappers
  import opened Platform

  datatype Resolver = Resolver(
    /** GetTextRecords: the TXT strings published for a name */
    text: string -> seq<string>,
    /** GetAddressRecords: the A records of a name */
    address: string -> seq<IPAddress>,
    /** GetMailRecords: the MX host names of a name, or None where the resolver returns null */
    mail: string -> Option<seq<string>>
  )
}

/** The in-memory resolver the tests use: a list of records, searched by exact name. */
module DummyResolvers {
  import opened Wrappers
  import opened Platform
  import opened Resolvers

  /** One stored record (DummyResolver.Record with its DnsType). */
  datatype Record =
    | TextRecord(domain: string, value: string)
    | AddressRecord(domain: string, address: IPAddress)
    | MailRecord(domain: string, value: string)

  /** The values of the TXT records stored for `domain`, in insertion order. */
  function TextValues(records: seq<Record>, domain: string): (r: seq<string>)
    ensures |r| <= |records|
    ensures forall v :: v in r <==> TextRecord(domain, v) in records
  {
    if |records| == 0 then []
    else
      var rest := TextValues(records[1..], domain);
      assert forall x :: x in records <==> x == records[0] || x in records[1..];
      match records[0]
      case TextRecord(d, v) => if d == domain then [v] + rest else rest
      case _ => rest
  }

  /** The addresses of the A records stored for `domain`, in insertion order. */
  function AddressValues(records: seq<Record>, domain: string): (r: seq<IPAddress>)
    ensures |r| <= |records|
    ensures forall a :: a in r <==> AddressRecord(domain, a) in records
  {
    if |records| == 0 then []
    else
      var rest := AddressValues(records[1..], domain);
      assert forall x :: x in records <==> x == records[0] || x in records[1..];
      match records[0]
      case AddressRecord(d, a) => if d == domain then [a] + rest else rest
      case _ => rest
  }

  /** The values of the MX records stored for `domain`, in insertion order. */
  function MailValues(records: seq<Record>, domain: string): (r: seq<string>)
    ensures |r| <= |records|
    ensures forall v :: v in r <==> MailRecord(domain, v) in records
  {
    if |records| == 0 then []
    else
      var rest := MailValues(records[1..], domain);
      assert forall x :: x in records <==> x == records[0] || x in records[1..];
      match records[0]
      case MailRecord(d, v) => if d == domain then [v] + rest else rest
      case _ => rest
  }

  /**
   * Appending one record extends the TXT answer for its own name by its value and
   * leaves the TXT answer for every other name and kind as it was.
   */
  lemma {:induction false} AppendText(records: seq<Record>, x: Record, domain: string)
    ensures TextValues(records + [x], domain)
      == TextValues(records, domain) + (if x.TextRecord? && x.domain == domain then [x.value] else [])
  {
    if |records| == 0 {
      assert records + [x] == [x];
    } else {
      assert (records + [x])[0] == records[0];
      assert (records + [x])[1..] == records[1..] + [x];
      AppendText(records[1..], x, domain);
    }
  }

  /** The same for the A answers. */
  lemma {:induction false} AppendAddress(records: seq<Record>, x: Record, domain: string)
    ensures AddressValues(records + [x], domain)
      == AddressValues(records, domain) + (if x.AddressRecord? && x.domain == domain then [x.address] else [])
  {
    if |records| == 0 {
      assert records + [x] == [x];
    } else {
      assert (records + [x])[0] == records[0];
      assert (records + [x])[1..] == records[1..] + [x];
      AppendAddress(records[1..], x, domain);
    }
  }

  /** The same for the MX answers. */
  lemma {:induction false} AppendMail(records: seq<Record>, x: Record, domain: string)
    ensures MailValues(records + [x], domain)
      == MailValues(records, domain) + (if x.MailRecord? && x.domain == domain then [x.value] else [])
  {
    if |records| == 0 {
      assert records + [x] == [x];
    } else {
      assert (records + [x])[0] == records[0];
      assert (records + [x])[1..] == records[1..] + [x];
      AppendMail(records[1..], x, domain);
    }
  }

  /** DummyResolver: `_records` and the Add and Get methods over it. */
  class DummyResolver {
    var records: seq<Record>

    /** new DummyResolver(): no records, so every query is answered with nothing. */
    constructor ()
      ensures records == []
      ensures forall d :: GetTextRecords(d) == [] && GetAddressRecords(d) == [] && GetMailRecords(d) == []
    {
      records := [];
    }

    /** new DummyResolver(domain, value): a fresh resolver followed by AddText(domain, value). */
    constructor WithText(domain: string, value: string)
      ensures records == [TextRecord(domain, value)]
    {
      records := [TextRecord(domain, value)];
    }

    /** new DummyResolver(domain, address): a fresh resolver followed by AddAddress(domain, address). */
    constructor WithAddress(domain: string, address: IPAddress)
      ensures records == [AddressRecord(domain, address)]
    {
      records := [AddressRecord(domain, address)];
    }

    method AddText(domain: string, value: string)
      modifies this
      ensures records == old(records) + [TextRecord(domain, value)]
      ensures GetTextRecords(domain) == old(GetTextRecords(domain)) + [value]
      ensures forall d :: d != domain ==> GetTextRecords(d) == old(GetTextRecords(d))
      ensures forall d :: GetAddressRecords(d) == old(GetAddressRecords(d)) && GetMailRecords(d) == old(GetMailRecords(d))
    {
      AppendAll(records, TextRecord(domain, value));
      records := records + [TextRecord(domain, value)];
    }

    method AddAddress(domain: string, address: IPAddress)
      modifies this
      ensures records == old(records) + [AddressRecord(domain, address)]
      ensures GetAddressRecords(domain) == old(GetAddressRecords(domain)) + [address]
      ensures forall d :: d != domain ==> GetAddressRecords(d) == old(GetAddressRecords(d))
      ensures forall d :: GetTextRecords(d) == old(GetTextRecords(d)) && GetMailRecords(d) == old(GetMailRecords(d))
    {
      AppendAll(records, AddressRecord(domain, address));
      records := records + [AddressRecord(domain, address)];
    }

    method AddMail(domain: string, value: string)
      modifies this
      ensures records == old(records) + [MailRecord(domain, value)]
      ensures GetMailRecords(domain) == old(GetMailRecords(domain)) + [value]
      ensures forall d :: d != domain ==> GetMailRecords(d) == old(GetMailRecords(d))
      ensures forall d :: GetTextRecords(d) == old(GetTextRecords(d)) && GetAddressRecords(d) == old(GetAddressRecords(d))
    {
      AppendAll(records, MailRecord(domain, value));
      records := records + [MailRecord(domain, value)];
    }

    /** The values of the TXT records whose name is exactly `domain`. */
    function GetTextRecords(domain: string): (r: seq<string>)
      reads this
      ensures forall v :: v in r <==> TextRecord(domain, v) in records
    {
      TextValues(records, domain)
    }

    /** The addresses of the A records whose name is exactly `domain`. */
    function GetAddressRecords(domain: string): (r: seq<IPAddress>)
      reads this
      ensures forall a :: a in r <==> AddressRecord(domain, a) in records
    {
      AddressValues(records, domain)
    }

    /** The values of the MX records whose name is exactly `domain`; never null. */
    function GetMailRecords(domain: string): (r: seq<string>)
      reads this
      ensures forall v :: v in r <==> MailRecord(domain, v) in records
    {
      MailValues(records, domain)
    }

    /** This resolver's current records, as the lookups a check is given. */
    function AsResolver(): (r: Resolver)
      reads this
      ensures forall d :: r.text(d) == GetTextRecords(d) && r.address(d) == GetAddressRecords(d)
      ensures forall d :: r.mail(d) == Some(GetMailRecords(d))
    {
      var rs := records;
      Resolver(d => TextValues(rs, d), d => AddressValues(rs, d), d => Some(MailValues(rs, d)))
    }
  }

  /** AppendText, AppendAddress and AppendMail for every name at once. */
  lemma AppendAll(records: seq<Record>, x: Record)
    ensures forall d ::
      TextValues(records + [x], d)
        == TextValues(records, d) + (if x.TextRecord? && x.domain == d then [x.value] else [])
    ensures forall d ::
      AddressValues(records + [x], d)
        == AddressValues(records, d) + (if x.AddressRecord? && x.domain == d then [x.address] else [])
    ensures forall d ::
      MailValues(records + [x], d)
        == MailValues(records, d) + (if x.MailRecord? && x.domain == d then [x.value] else [])
  {
    forall d {
      AppendText(records, x, d);
    }
    forall d {
      AppendAddress(records, x, d);
    }
    forall d {
      AppendMail(records, x, d);
    }
  }
}
