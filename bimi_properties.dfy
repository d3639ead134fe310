/** What ParseBimiRecord and GetBimiRecord promise, stated over the tag list. */
module BimiProperties {
  import opened Wrappers
  import opened Errors
  import opened Platform
  import opened Text
  import opened TagLists
  import opened Bimi
  import opened DummyResolvers

  /** The message kind ValidateUri is given for a tag: "evidence location" for a=, "location" for l=. */
  function KindOf(name: string): string {
    if name == "a" then EvidenceType else LocationType
  }

  /** A part the parser accepts: no '=', a tag other than a= and l=, or a value ValidateUri accepts. */
  predicate PartOk(lib: Library, p: Option<Tag>) {
    p.None? || (p.value.name != "a" && p.value.name != "l") || UriOk(lib, p.value.value)
  }

  /** The error ValidateUri raises for a value of the given kind that it does not accept. */
  function UriError(lib: Library, value: string, kind: string): Error {
    BimiInvalid(if lib.uriScheme(value).None? then NotUriMessage(kind) else NotHttpsMessage(kind))
  }

  /** The error a part that is not accepted raises. */
  function PartError(lib: Library, p: Option<Tag>): Error {
    if p.None? then BimiInvalid(MissingLocationMessage) else UriError(lib, p.value.value, KindOf(p.value.name))
  }

  /** Every a= and l= part holds a value ValidateUri accepts. */
  predicate UrisValid(lib: Library, parts: seq<Option<Tag>>) {
    forall k :: 0 <= k < |parts| ==> PartOk(lib, parts[k])
  }

  /** The fields a tag list leaves in a record `f`: the evidence of its last a= and the location of its last l=. */
  function BimiAfter(f: BimiFields, parts: seq<Option<Tag>>): BimiFields {
    var l := LastValue(parts, "l");
    f.(evidence := OrElse(LastValue(parts, "a"), f.evidence), location := if l.Some? then l else f.location)
  }

  /** One part's step accepts it exactly when PartOk does, and fails with PartError. */
  lemma BimiStepOutcome(lib: Library, f: BimiFields, p: Option<Tag>)
    ensures BimiStep(lib)(f, p).Success? <==> PartOk(lib, p)
    ensures BimiStep(lib)(f, p).Failure? ==> BimiStep(lib)(f, p).error == PartError(lib, p)
  {
    assert BimiStep(lib)(f, p) == ApplyBimiTag(lib, f, p);
  }

  /** A tag list fails exactly at its first a= or l= part with a bad URI, with that part's error. */
  lemma BimiTagsOutcome(lib: Library, f: BimiFields, parts: seq<Option<Tag>>)
    ensures ApplyTags(BimiStep(lib), f, parts).Success? <==> UrisValid(lib, parts)
    ensures ApplyTags(BimiStep(lib), f, parts).Failure? ==>
      exists k :: 0 <= k < |parts| && !PartOk(lib, parts[k]) && (forall j :: 0 <= j < k ==> PartOk(lib, parts[j]))
                  && ApplyTags(BimiStep(lib), f, parts).error == PartError(lib, parts[k])
  {
    var ok := (p: Option<Tag>) => PartOk(lib, p);
    var err := (p: Option<Tag>) => PartError(lib, p);
    forall g: BimiFields, p: Option<Tag>
      ensures BimiStep(lib)(g, p).Success? <==> ok(p)
      ensures BimiStep(lib)(g, p).Failure? ==> BimiStep(lib)(g, p).error == err(p)
    {
      BimiStepOutcome(lib, g, p);
    }
    ApplyTagsOutcome(BimiStep(lib), ok, err, f, parts);
  }

  /** What one accepted part does to the fields. */
  lemma BimiTagFields(lib: Library, f: BimiFields, p: Option<Tag>)
    requires ApplyBimiTag(lib, f, p).Success?
    ensures BimiAfter(f, [p]) == ApplyBimiTag(lib, f, p).value
  {
    LastValueOne(p, "a");
    LastValueOne(p, "l");
  }

  /** BimiAfter one part, then the rest, is BimiAfter the whole list. */
  lemma BimiAfterCons(f: BimiFields, p: Option<Tag>, rest: seq<Option<Tag>>)
    ensures BimiAfter(BimiAfter(f, [p]), rest) == BimiAfter(f, [p] + rest)
  {
    LastValueOne(p, "a");
    LastValueOne(p, "l");
    LastValueCons(p, rest, "a");
    LastValueCons(p, rest, "l");
  }

  /**
   * A tag list that parses sets the evidence from its last a= part and the location from
   * its last l= part, and leaves every other field as it was.
   */
  lemma {:induction false} BimiTagsFields(lib: Library, f: BimiFields, parts: seq<Option<Tag>>)
    requires ApplyTags(BimiStep(lib), f, parts).Success?
    ensures ApplyTags(BimiStep(lib), f, parts).value == BimiAfter(f, parts)
    decreases |parts|
  {
    if |parts| > 0 {
      var r := ApplyBimiTag(lib, f, parts[0]);
      assert BimiStep(lib)(f, parts[0]) == r;
      BimiTagFields(lib, f, parts[0]);
      BimiTagsFields(lib, r.value, parts[1..]);
      BimiAfterCons(f, parts[0], parts[1..]);
      assert [parts[0]] + parts[1..] == parts;
    }
  }

  /**
   * ParseBimiRecord accepts a record exactly when it starts with "v=BIMI1", every a= and l=
   * value is empty or an https URI, and there is an l= tag; the record then holds the last
   * a= value as evidence ("" without one), the last l= value as location, and avatar
   * preference Bimi.
   */
  lemma ParseBimiMeaning(lib: Library, value: string)
    ensures var r := ParseBimi(lib, value);
      var parts := PartsOf(value);
      (r.Success? <==> StartsWith(value, "v=BIMI1") && UrisValid(lib, parts) && LastValue(parts, "l").Some?)
      && (r.Success? ==> r.value == BimiFields(OrElse(LastValue(parts, "a"), ""), LastValue(parts, "l"), Bimi))
  {
    if StartsWith(value, "v=BIMI1") {
      var parts := PartsOf(value);
      BimiTagsOutcome(lib, DefaultBimi, parts);
      if UrisValid(lib, parts) {
        BimiTagsFields(lib, DefaultBimi, parts);
      }
    }
  }

  /**
   * The errors ParseBimiRecord raises: the missing version; the URI error of the first a=
   * or l= part it does not accept, naming that part's kind; or the missing location.
   */
  lemma ParseBimiErrors(lib: Library, value: string)
    ensures var r := ParseBimi(lib, value);
      var parts := PartsOf(value);
      r.Failure? ==>
        (!StartsWith(value, "v=BIMI1") && r.error == BimiInvalid(NoVersionMessage))
        || (StartsWith(value, "v=BIMI1")
            && exists k :: 0 <= k < |parts| && !PartOk(lib, parts[k]) && (forall j :: 0 <= j < k ==> PartOk(lib, parts[j]))
                           && r.error == UriError(lib, parts[k].value.value, KindOf(parts[k].value.name)))
        || (StartsWith(value, "v=BIMI1") && UrisValid(lib, parts) && LastValue(parts, "l").None?
            && r.error == BimiInvalid(MissingLocationMessage))
  {
    if StartsWith(value, "v=BIMI1") {
      var parts := PartsOf(value);
      BimiTags(lib, value);
      BimiTagsOutcome(lib, DefaultBimi, parts);
      var a := ApplyTags(BimiStep(lib), DefaultBimi, parts);
      if a.Failure? {
        var k :| 0 <= k < |parts| && !PartOk(lib, parts[k]) && (forall j :: 0 <= j < k ==> PartOk(lib, parts[j]))
                 && a.error == PartError(lib, parts[k]);
        assert ParseBimi(lib, value).error == UriError(lib, parts[k].value.value, KindOf(parts[k].value.name));
      } else {
        BimiTagsFields(lib, DefaultBimi, parts);
      }
    }
  }

  /** Every error ParseBimiRecord raises is a BimiInvalidException. */
  lemma ParseBimiInvalidOnly(lib: Library, value: string)
    requires ParseBimi(lib, value).Failure?
    ensures ParseBimi(lib, value).error.BimiInvalid?
  {
    ParseBimiErrors(lib, value);
  }

  /** The version tag holds no ';'. */
  lemma VersionPart()
    ensures ';' !in "v=BIMI1"
  {
    assert "v=BIMI1" == ['v', '=', 'B', 'I', 'M', 'I', '1'];
  }

  /** "v=BIMI1" alone has no l= tag. */
  lemma VersionOnlyRecord(lib: Library)
    ensures ParseBimi(lib, "v=BIMI1") == Failure(BimiInvalid(MissingLocationMessage))
  {
    VersionPart();
    TagRecordParts("v=BIMI1", []);
    assert TagRecord("v=BIMI1", []) == "v=BIMI1" by {
      assert ["v=BIMI1"] + TagParts([]) == ["v=BIMI1"];
    }
  }

  /** The BIMI tag list <name>=<v> on the defaults, for a= or l=. */
  lemma UriTags(lib: Library, name: string, v: string)
    requires name == "a" || name == "l"
    ensures ApplyTags(BimiStep(lib), DefaultBimi, [Some(Tag(name, v))])
      == if !UriOk(lib, v) then Failure(UriError(lib, v, KindOf(name)))
         else if name == "a" then Success(DefaultBimi.(evidence := v))
         else Success(DefaultBimi.(location := Some(v)))
  {
    var ps := [Some(Tag(name, v))];
    assert ps[1..] == [];
    BimiStepOutcome(lib, DefaultBimi, ps[0]);
    if UriOk(lib, v) {
      var f1 := if name == "a" then DefaultBimi.(evidence := v) else DefaultBimi.(location := Some(v));
      assert BimiStep(lib)(DefaultBimi, ps[0]) == Success(f1);
      assert ApplyTags(BimiStep(lib), f1, ps[1..]) == Success(f1);
    }
  }

  /**
   * "v=BIMI1; l=<location>": that location with no evidence when the location is empty or
   * an https URI; the not-well-formed or not-HTTPS error otherwise.
   */
  lemma LocationOnlyRecord(lib: Library, location: string)
    requires Plain(Tag("l", location))
    ensures ParseBimi(lib, TagRecord("v=BIMI1", [Tag("l", location)]))
      == if UriOk(lib, location) then Success(DefaultBimi.(location := Some(location)))
         else Failure(UriError(lib, location, LocationType))
  {
    VersionPart();
    OneTagRecord("v=BIMI1", Tag("l", location));
    UriTags(lib, "l", location);
  }

  /** "v=BIMI1; l=", as the repository's tests write it: accepted, with an empty location. */
  lemma EmptyLocationRecord(lib: Library)
    ensures ParseBimi(lib, TagRecord("v=BIMI1", [Tag("l", "")])) == Success(DefaultBimi.(location := Some("")))
  {
    assert Plain(Tag("l", ""));
    LocationOnlyRecord(lib, "");
  }

  /** "v=BIMI1; a=<evidence>": a record without an l= tag fails even with good evidence. */
  lemma EvidenceOnlyRecord(lib: Library, evidence: string)
    requires Plain(Tag("a", evidence))
    ensures ParseBimi(lib, TagRecord("v=BIMI1", [Tag("a", evidence)]))
      == Failure(if UriOk(lib, evidence) then BimiInvalid(MissingLocationMessage) else UriError(lib, evidence, EvidenceType))
  {
    VersionPart();
    OneTagRecord("v=BIMI1", Tag("a", evidence));
    UriTags(lib, "a", evidence);
  }

  /** The BIMI tag list l=<location>; a=<evidence> on the defaults, both URIs accepted. */
  lemma LocationAndEvidenceTags(lib: Library, location: string, evidence: string)
    requires UriOk(lib, location) && UriOk(lib, evidence)
    ensures ApplyTags(BimiStep(lib), DefaultBimi, [Some(Tag("l", location)), Some(Tag("a", evidence))])
      == Success(BimiFields(evidence, Some(location), Bimi))
  {
    var ps := [Some(Tag("l", location)), Some(Tag("a", evidence))];
    var f1 := DefaultBimi.(location := Some(location));
    var f2 := f1.(evidence := evidence);
    assert BimiStep(lib)(DefaultBimi, ps[0]) == Success(f1);
    assert BimiStep(lib)(f1, ps[1]) == Success(f2);
    assert ps[1..][1..] == [];
    assert ApplyTags(BimiStep(lib), f2, ps[1..][1..]) == Success(f2);
    assert ApplyTags(BimiStep(lib), f1, ps[1..]) == Success(f2);
  }

  /** "v=BIMI1; l=<location>; a=<evidence>" with two https URIs: both are kept. */
  lemma LocationAndEvidenceRecord(lib: Library, location: string, evidence: string)
    requires Plain(Tag("l", location)) && Plain(Tag("a", evidence))
    requires UriOk(lib, location) && UriOk(lib, evidence)
    ensures ParseBimi(lib, TagRecord("v=BIMI1", [Tag("l", location), Tag("a", evidence)]))
      == Success(BimiFields(evidence, Some(location), Bimi))
  {
    VersionPart();
    TwoTagRecord("v=BIMI1", Tag("l", location), Tag("a", evidence));
    LocationAndEvidenceTags(lib, location, evidence);
  }

  /**
   * GetBimiRecord with the default selector against a resolver holding one TXT record at
   * `default._bimi.domain`: the record parsed when it starts with "v=BIMI1", and the
   * not-found error for any other selector.
   */
  lemma BimiLookup(lib: Library, domain: string, other: string, value: string)
    requires StartsWith(value, "v=BIMI1")
    requires BimiName(domain, other) != BimiName(domain, "default")
    ensures var txt := (d: string) => TextValues([TextRecord(BimiName(domain, "default"), value)], d);
      GetBimi(txt, lib, domain, "default") == ParseBimi(lib, value)
      && GetBimi(txt, lib, domain, other) == Failure(BimiNotFound(NotFoundMessage(other)))
  {
    var rs := [TextRecord(BimiName(domain, "default"), value)];
    assert rs[1..] == [];
    assert TextValues(rs, BimiName(domain, "default")) == [value];
    assert TextValues(rs, BimiName(domain, other)) == [];
  }
}
