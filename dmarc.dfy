/**
 * DMARC policy records (section 6.3 of RFC 7489): the record with its defaults, the tag
 * parser, and the lookup of `_dmarc.domain`. Of the tags only the alignment modes
 * adkim and aspf are interpreted; every other tag leaves its default in place.
 */
module Dmarc {
  import opened Wrappers
  import opened Errors
  import opened Text
  import opened TagLists
  import opened Resolvers

  datatype AlignmentMode = Relaxed | Strict

  /** ReceiverPolicy; its first member, None, is the zero value. */
  datatype ReceiverPolicy = NoPolicy | Quarantine | Reject

  /**
   * FailureOptions, a [Flags] enum (None = 0, All = 1, Any = 2, DkimFailure = 4,
   * SpfFailure = 8), as its four flags; None is all four unset. The fo= letters 0, 1, d
   * and s set All, Any, DkimFailure and SpfFailure.
   */
  datatype FailureOptions = FailureOptions(all: bool, any: bool, dkimFailure: bool, spfFailure: bool)

  /** FailureOptions.All */
  const AllOptions := FailureOptions(true, false, false, false)

  /** The properties of a DmarcRecord, as a value. */
  datatype DmarcFields = DmarcFields(
    dkimMode: AlignmentMode,
    spfMode: AlignmentMode,
    failureOptions: FailureOptions,
    policy: ReceiverPolicy,
    percentageTag: int,
    reportFormat: seq<string>,
    reportInterval: nat,
    aggregatedReportAddresses: seq<string>,
    forensicReportAddresses: seq<string>,
    subdomainPolicy: ReceiverPolicy)

  /** The record the DmarcRecord constructor makes; SubdomainPolicy keeps its zero value. */
  const DefaultDmarc := DmarcFields(Relaxed, Relaxed, AllOptions, NoPolicy, 100, ["afrf"], 86400, [], [], NoPolicy)

  const NoVersionMessage := "Not a valid DMARC record, does not contain a version"
  const AlignmentMessage := "Invalid alignment mode, must be relaxed or strict"
  const MissingRecordMessage := "Domain does not contain a DMARC record"

  /** DmarcRecord: its properties, which only the parser writes. */
  class DmarcRecord {
    var dkimMode: AlignmentMode
    var spfMode: AlignmentMode
    var failureOptions: FailureOptions
    var policy: ReceiverPolicy
    var percentageTag: int
    var reportFormat: seq<string>
    var reportInterval: nat
    var aggregatedReportAddresses: seq<string>
    var forensicReportAddresses: seq<string>
    var subdomainPolicy: ReceiverPolicy

    function Fields(): DmarcFields
      reads this
    {
      DmarcFields(dkimMode, spfMode, failureOptions, policy, percentageTag, reportFormat, reportInterval,
                  aggregatedReportAddresses, forensicReportAddresses, subdomainPolicy)
    }

    constructor ()
      ensures Fields() == DefaultDmarc
    {
      dkimMode := Relaxed;
      spfMode := Relaxed;
      failureOptions := AllOptions;
      policy := NoPolicy;
      percentageTag := 100;
      reportFormat := ["afrf"];
      reportInterval := 86400;
      aggregatedReportAddresses := [];
      forensicReportAddresses := [];
      subdomainPolicy := NoPolicy;
    }
  }

  /** The letter of an alignment mode in adkim= and aspf=. */
  function ModeLetter(m: AlignmentMode): string {
    match m
    case Relaxed => "r"
    case Strict => "s"
  }

  /** GetAlignmentMode: "r" is relaxed, "s" is strict, anything else is an error. */
  function GetAlignmentMode(value: string): (r: Result<AlignmentMode, Error>)
    ensures r.Success? <==> value == "r" || value == "s"
    ensures r.Success? ==> ModeLetter(r.value) == value
    ensures r.Failure? ==> r.error == DmarcInvalid(AlignmentMessage)
  {
    if value != "r" && value != "s" then Failure(DmarcInvalid(AlignmentMessage))
    else Success(if value == "r" then Relaxed else Strict)
  }

  /** The switch of ParseDmarcRecord on a trimmed tag and value. */
  function UpdateDmarc(f: DmarcFields, tag: string, val: string): (r: Result<DmarcFields, Error>)
    ensures r.Failure? <==> (tag == "adkim" || tag == "aspf") && val != "r" && val != "s"
    ensures r.Failure? ==> r.error == DmarcInvalid(AlignmentMessage)
  {
    if tag == "adkim" then
      var m :- GetAlignmentMode(val);
      Success(f.(dkimMode := m))
    else if tag == "aspf" then
      var m :- GetAlignmentMode(val);
      Success(f.(spfMode := m))
    else Success(f)
  }

  /** One part of the tag list: a part without '=' fails in Substring(0, -1). */
  function ApplyDmarcTag(f: DmarcFields, p: Option<Tag>): (r: Result<DmarcFields, Error>)
    ensures p.None? ==> r == Failure(RuntimeFailure(ArgumentOutOfRange))
    ensures p.Some? ==> (r.Failure? <==> (p.value.name == "adkim" || p.value.name == "aspf")
                                         && p.value.value != "r" && p.value.value != "s")
    ensures p.Some? && r.Failure? ==> r.error == DmarcInvalid(AlignmentMessage)
  {
    if p.None? then Failure(RuntimeFailure(ArgumentOutOfRange)) else UpdateDmarc(f, p.value.name, p.value.value)
  }

  /** The step of ParseDmarcRecord's loop. */
  function DmarcStep(): (DmarcFields, Option<Tag>) -> Result<DmarcFields, Error> {
    (f, p) => ApplyDmarcTag(f, p)
  }

  /** ParseDmarcRecord as a function: the version gate, then the tag list from the defaults. */
  function ParseDmarc(value: string): (r: Result<DmarcFields, Error>)
    ensures !StartsWith(value, "v=DMARC1") ==> r == Failure(DmarcInvalid(NoVersionMessage))
  {
    if !StartsWith(value, "v=DMARC1") then Failure(DmarcInvalid(NoVersionMessage))
    else ApplyTags(DmarcStep(), DefaultDmarc, PartsOf(value))
  }

  /** The switch of ParseDmarcRecord's loop, writing into `record`. */
  method UpdateDmarcRecord(record: DmarcRecord, tag: string, val: string) returns (o: Outcome<Error>)
    modifies record
    ensures UpdateDmarc(old(record.Fields()), tag, val) == if o.Passed? then Success(record.Fields()) else Failure(o.error)
  {
    if tag == "adkim" {
      var mode := GetAlignmentMode(val);
      if mode.Failure? {
        return Failed(mode.error);
      }
      record.dkimMode := mode.value;
    } else if tag == "aspf" {
      var mode := GetAlignmentMode(val);
      if mode.Failure? {
        return Failed(mode.error);
      }
      record.spfMode := mode.value;
    }
    return Passed;
  }

  /** The loop of ParseDmarcRecord over the parts after the version, writing into `record`. */
  method ApplyDmarcTags(record: DmarcRecord, tags: seq<string>) returns (o: Outcome<Error>)
    modifies record
    ensures ApplyTags(DmarcStep(), old(record.Fields()), CutTags(tags))
         == if o.Passed? then Success(record.Fields()) else Failure(o.error)
  {
    ghost var parts := CutTags(tags);
    var n := 0;
    while n < |tags|
      invariant 0 <= n <= |tags|
      invariant ApplyTags(DmarcStep(), old(record.Fields()), parts) == ApplyTags(DmarcStep(), record.Fields(), parts[n..])
    {
      ghost var before := record.Fields();
      DmarcTagStep(before, parts, n);
      var t := tags[n];
      var i := IndexOf(t, '=');
      if i == -1 {
        assert parts[n] == None;
        return Failed(RuntimeFailure(ArgumentOutOfRange));
      }
      assert parts[n] == Some(Tag(Trim(t[..i]), Trim(t[i + 1..])));
      var o := UpdateDmarcRecord(record, Trim(t[..i]), Trim(t[i + 1..]));
      if o.Failed? {
        assert ApplyTags(DmarcStep(), before, parts[n..]) == Failure(o.error);
        return o;
      }
      n := n + 1;
    }
    assert parts[n..] == [];
    return Passed;
  }

  /** ApplyTags with the DMARC step, one part further. */
  lemma DmarcTagStep(f: DmarcFields, parts: seq<Option<Tag>>, n: nat)
    requires n < |parts|
    ensures var r := ApplyDmarcTag(f, parts[n]);
      ApplyTags(DmarcStep(), f, parts[n..]) == if r.Failure? then Failure(r.error) else ApplyTags(DmarcStep(), r.value, parts[n + 1..])
  {
    ApplyTagsStep(DmarcStep(), f, parts, n);
    assert DmarcStep()(f, parts[n]) == ApplyDmarcTag(f, parts[n]);
  }

  /** DmarcCheck.ParseDmarcRecord */
  method ParseDmarcRecord(value: string) returns (r: Result<DmarcRecord, Error>)
    ensures r.Success? ==> fresh(r.value) && ParseDmarc(value) == Success(r.value.Fields())
    ensures r.Failure? ==> ParseDmarc(value) == Failure(r.error)
  {
    if !StartsWith(value, "v=DMARC1") {
      return Failure(DmarcInvalid(NoVersionMessage));
    }
    var record := new DmarcRecord();
    var o := ApplyDmarcTags(record, Split(value, ';')[1..]);
    if o.Failed? {
      return Failure(o.error);
    }
    return Success(record);
  }

  /** The TXT name GetDmarcRecord queries. */
  function DmarcName(domain: string): string {
    "_dmarc." + domain
  }

  /**
   * GetDmarcRecord as a function of the TXT lookup: the first record of `_dmarc.domain`
   * that starts with "v=DMARC1", parsed. Finding none is an invalid-record error.
   */
  function GetDmarc(txt: string -> seq<string>, domain: string): (r: Result<DmarcFields, Error>)
    ensures FirstWithPrefix(txt(DmarcName(domain)), "v=DMARC1").None? ==> r == Failure(DmarcInvalid(MissingRecordMessage))
    ensures forall k :: 0 <= k < |txt(DmarcName(domain))| && StartsWith(txt(DmarcName(domain))[k], "v=DMARC1")
                        && (forall j :: 0 <= j < k ==> !StartsWith(txt(DmarcName(domain))[j], "v=DMARC1")) ==>
      r == ParseDmarc(txt(DmarcName(domain))[k])
  {
    var record := FirstWithPrefix(txt(DmarcName(domain)), "v=DMARC1");
    if record.None? then Failure(DmarcInvalid(MissingRecordMessage)) else ParseDmarc(record.value)
  }

  /** DmarcCheck: a resolver, which it only reads. */
  class DmarcCheck {
    const resolver: Resolver

    constructor (resolver: Resolver)
      ensures this.resolver == resolver
    {
      this.resolver := resolver;
    }

    /** DmarcCheck.GetDmarcRecord */
    method GetDmarcRecord(domain: string) returns (r: Result<DmarcRecord, Error>)
      ensures r.Success? ==> fresh(r.value) && GetDmarc(resolver.text, domain) == Success(r.value.Fields())
      ensures r.Failure? ==> GetDmarc(resolver.text, domain) == Failure(r.error)
    {
      var name := "_dmarc." + domain;
      var records := resolver.text(name);
      var record := FirstWithPrefix(records, "v=DMARC1");
      if record.None? {
        return Failure(DmarcInvalid(MissingRecordMessage));
      }
      r := ParseDmarcRecord(record.value);
    }
  }
}
