/**
 * BIMI assertion records (the IETF draft "Brand Indicators for Message Identification"):
 * the record with its defaults, the tag parser, and the lookup of
 * `selector._bimi.domain`. Of the tags only a= (the authority evidence location) and
 * l= (the brand indicator location) are interpreted.
 */
module Bimi {
  import opened Wrappers
  import opened Errors
  import opened Platform
  import opened Text
  import opened TagLists
  import opened Resolvers

  /** AvatarPreference; the record only ever holds its default, Bimi. */
  datatype AvatarPreference = Bimi | Personal

  /** The properties of a BimiRecord, as a value; `location` is None while no l= tag was seen. */
  datatype BimiFields = BimiFields(evidence: string, location: Option<string>, avatarPreference: AvatarPreference)

  /** The record the BimiRecord constructor makes. */
  const DefaultBimi := BimiFields("", None, Bimi)

  const NoVersionMessage := "Not a valid BIMI record, does not contain a version"
  const MissingLocationMessage := "BIMI record is missing a required location tag"

  /** The names ValidateUri gives the a= and l= values in its messages. */
  const EvidenceType := "evidence location"
  const LocationType := "location"

  function NotUriMessage(kind: string): string {
    "BIMI record " + kind + " is not a well-formed URI"
  }

  function NotHttpsMessage(kind: string): string {
    "BIMI record " + kind + " is invalid, transport must be HTTPS"
  }

  /** BimiRecord: its properties, which only the parser writes. */
  class BimiRecord {
    var evidence: string
    var location: Option<string>
    var avatarPreference: AvatarPreference

    function Fields(): BimiFields
      reads this
    {
      BimiFields(evidence, location, avatarPreference)
    }

    constructor ()
      ensures Fields() == DefaultBimi
    {
      evidence := "";
      location := None;
      avatarPreference := Bimi;
    }
  }

  /** `value` passes ValidateUri: it is empty, or an absolute URI whose scheme is https. */
  predicate UriOk(lib: Library, value: string) {
    value == "" || lib.uriScheme(value) == Some("https")
  }

  /** ValidateUri: the error names `kind`, and says whether the URI is malformed or not https. */
  function ValidateUri(lib: Library, value: string, kind: string): (o: Outcome<Error>)
    ensures o.Passed? <==> UriOk(lib, value)
    ensures o.Failed? && lib.uriScheme(value).None? ==> o.error == BimiInvalid(NotUriMessage(kind))
    ensures o.Failed? && lib.uriScheme(value).Some? ==> o.error == BimiInvalid(NotHttpsMessage(kind))
  {
    if value == "" then Passed
    else
      match lib.uriScheme(value)
      case None => Failed(BimiInvalid(NotUriMessage(kind)))
      case Some(scheme) => if scheme != "https" then Failed(BimiInvalid(NotHttpsMessage(kind))) else Passed
  }

  /** The switch of ParseBimiRecord on a trimmed tag and value. */
  function UpdateBimi(lib: Library, f: BimiFields, tag: string, val: string): (r: Result<BimiFields, Error>)
    ensures r.Failure? <==> (tag == "a" || tag == "l") && !UriOk(lib, val)
    ensures r.Failure? ==> r.error.BimiInvalid?
  {
    if tag == "a" then
      match ValidateUri(lib, val, EvidenceType)
      case Failed(e) => Failure(e)
      case Passed => Success(f.(evidence := val))
    else if tag == "l" then
      match ValidateUri(lib, val, LocationType)
      case Failed(e) => Failure(e)
      case Passed => Success(f.(location := Some(val)))
    else Success(f)
  }

  /** One part of the tag list: a part without '=' is skipped. */
  function ApplyBimiTag(lib: Library, f: BimiFields, p: Option<Tag>): (r: Result<BimiFields, Error>)
    ensures r.Failure? <==> p.Some? && (p.value.name == "a" || p.value.name == "l") && !UriOk(lib, p.value.value)
  {
    if p.None? then Success(f) else UpdateBimi(lib, f, p.value.name, p.value.value)
  }

  /** The step of ParseBimiRecord's loop. */
  function BimiStep(lib: Library): (BimiFields, Option<Tag>) -> Result<BimiFields, Error> {
    (f, p) => ApplyBimiTag(lib, f, p)
  }

  /**
   * ParseBimiRecord as a function: the version gate, the tag list from the defaults,
   * and the check that an l= tag was seen.
   */
  function ParseBimi(lib: Library, value: string): (r: Result<BimiFields, Error>)
    ensures !StartsWith(value, "v=BIMI1") ==> r == Failure(BimiInvalid(NoVersionMessage))
    ensures r.Success? ==> r.value.location.Some?
  {
    if !StartsWith(value, "v=BIMI1") then Failure(BimiInvalid(NoVersionMessage))
    else
      var f :- ApplyTags(BimiStep(lib), DefaultBimi, PartsOf(value));
      if f.location.None? then Failure(BimiInvalid(MissingLocationMessage)) else Success(f)
  }

  /** The switch of ParseBimiRecord's loop, writing into `record`. */
  method UpdateBimiRecord(lib: Library, record: BimiRecord, tag: string, val: string) returns (o: Outcome<Error>)
    modifies record
    ensures UpdateBimi(lib, old(record.Fields()), tag, val) == if o.Passed? then Success(record.Fields()) else Failure(o.error)
  {
    if tag == "a" {
      var valid := ValidateUri(lib, val, EvidenceType);
      if valid.Failed? {
        return valid;
      }
      record.evidence := val;
    } else if tag == "l" {
      var valid := ValidateUri(lib, val, LocationType);
      if valid.Failed? {
        return valid;
      }
      record.location := Some(val);
    }
    return Passed;
  }

  /** The loop of ParseBimiRecord over the parts after the version, writing into `record`. */
  method ApplyBimiTags(lib: Library, record: BimiRecord, tags: seq<string>) returns (o: Outcome<Error>)
    modifies record
    ensures ApplyTags(BimiStep(lib), old(record.Fields()), CutTags(tags))
         == if o.Passed? then Success(record.Fields()) else Failure(o.error)
  {
    ghost var parts := CutTags(tags);
    var n := 0;
    while n < |tags|
      invariant 0 <= n <= |tags|
      invariant ApplyTags(BimiStep(lib), old(record.Fields()), parts) == ApplyTags(BimiStep(lib), record.Fields(), parts[n..])
    {
      ghost var before := record.Fields();
      BimiTagStep(lib, before, parts, n);
      var t := tags[n];
      var i := IndexOf(t, '=');
      if i != -1 {
        assert parts[n] == Some(Tag(Trim(t[..i]), Trim(t[i + 1..])));
        var o := UpdateBimiRecord(lib, record, Trim(t[..i]), Trim(t[i + 1..]));
        if o.Failed? {
          assert ApplyTags(BimiStep(lib), before, parts[n..]) == Failure(o.error);
          return o;
        }
      }
      n := n + 1;
    }
    assert parts[n..] == [];
    return Passed;
  }

  /** ApplyTags with the BIMI step, one part further. */
  lemma BimiTagStep(lib: Library, f: BimiFields, parts: seq<Option<Tag>>, n: nat)
    requires n < |parts|
    ensures var r := ApplyBimiTag(lib, f, parts[n]);
      ApplyTags(BimiStep(lib), f, parts[n..]) == if r.Failure? then Failure(r.error) else ApplyTags(BimiStep(lib), r.value, parts[n + 1..])
  {
    ApplyTagsStep(BimiStep(lib), f, parts, n);
    assert BimiStep(lib)(f, parts[n]) == ApplyBimiTag(lib, f, parts[n]);
  }

  /** BimiCheck.ParseBimiRecord */
  method ParseBimiRecord(lib: Library, value: string) returns (r: Result<BimiRecord, Error>)
    ensures r.Success? ==> fresh(r.value) && ParseBimi(lib, value) == Success(r.value.Fields())
    ensures r.Failure? ==> ParseBimi(lib, value) == Failure(r.error)
  {
    if !StartsWith(value, "v=BIMI1") {
      return Failure(BimiInvalid(NoVersionMessage));
    }
    var record := new BimiRecord();
    var o := ApplyBimiTags(lib, record, Split(value, ';')[1..]);
    BimiTags(lib, value);
    if o.Failed? {
      return Failure(o.error);
    }
    if record.location.None? {
      return Failure(BimiInvalid(MissingLocationMessage));
    }
    return Success(record);
  }

  /** ParseBimi past the version gate, in terms of the tag loop's outcome. */
  lemma BimiTags(lib: Library, value: string)
    requires StartsWith(value, "v=BIMI1")
    ensures var a := ApplyTags(BimiStep(lib), DefaultBimi, CutTags(Split(value, ';')[1..]));
      ParseBimi(lib, value) == if a.Failure? then Failure(a.error)
                               else if a.value.location.None? then Failure(BimiInvalid(MissingLocationMessage))
                               else Success(a.value)
  {
  }

  /** The TXT name GetBimiRecord queries. */
  function BimiName(domain: string, selector: string): string {
    selector + "._bimi." + domain
  }

  function NotFoundMessage(selector: string): string {
    "No BIMI record found for selector '" + selector + "' on domain"
  }

  /**
   * GetBimiRecord as a function of the TXT lookup: the first record of
   * `selector._bimi.domain` that starts with "v=BIMI1", parsed.
   */
  function GetBimi(txt: string -> seq<string>, lib: Library, domain: string, selector: string): (r: Result<BimiFields, Error>)
    ensures FirstWithPrefix(txt(BimiName(domain, selector)), "v=BIMI1").None? ==> r == Failure(BimiNotFound(NotFoundMessage(selector)))
    ensures forall k :: 0 <= k < |txt(BimiName(domain, selector))| && StartsWith(txt(BimiName(domain, selector))[k], "v=BIMI1")
                        && (forall j :: 0 <= j < k ==> !StartsWith(txt(BimiName(domain, selector))[j], "v=BIMI1")) ==>
      r == ParseBimi(lib, txt(BimiName(domain, selector))[k])
  {
    var record := FirstWithPrefix(txt(BimiName(domain, selector)), "v=BIMI1");
    if record.None? then Failure(BimiNotFound(NotFoundMessage(selector)))
    else ParseBimi(lib, record.value)
  }

  /** BimiCheck: a resolver, which it only reads. */
  class BimiCheck {
    const resolver: Resolver
    const lib: Library

    constructor (resolver: Resolver, lib: Library)
      ensures this.resolver == resolver && this.lib == lib
    {
      this.resolver := resolver;
      this.lib := lib;
    }

    /** BimiCheck.GetBimiRecord, whose selector is "default" unless given. */
    method GetBimiRecord(domain: string, selector: string := "default") returns (r: Result<BimiRecord, Error>)
      ensures r.Success? ==> fresh(r.value) && GetBimi(resolver.text, lib, domain, selector) == Success(r.value.Fields())
      ensures r.Failure? ==> GetBimi(resolver.text, lib, domain, selector) == Failure(r.error)
    {
      var name := selector + "._bimi." + domain;
      var records := resolver.text(name);
      var record := FirstWithPrefix(records, "v=BIMI1");
      if record.None? {
        return Failure(BimiNotFound(NotFoundMessage(selector)));
      }
      r := ParseBimiRecord(lib, record.value);
    }
  }
}
