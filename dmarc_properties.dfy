/** What ParseDmarcRecord and GetDmarcRecord promise, stated over the tag list. */
module DmarcProperties {
  import opened Wrappers
  import opened Errors
  import opened Text
  import opened TagLists
  import opened Dmarc
  import opened DummyResolvers

  /** A part the parser accepts: it has an '=', and an adkim= or aspf= value is r or s. */
  predicate PartOk(p: Option<Tag>) {
    p.Some? && ((p.value.name == "adkim" || p.value.name == "aspf") ==> p.value.value == "r" || p.value.value == "s")
  }

  /** The error a part that is not accepted raises. */
  function PartError(p: Option<Tag>): Error {
    if p.None? then RuntimeFailure(ArgumentOutOfRange) else DmarcInvalid(AlignmentMessage)
  }

  /** The alignment mode the last part tagged `name` sets, or `m` when there is none. */
  function ModeAfter(parts: seq<Option<Tag>>, name: string, m: AlignmentMode): AlignmentMode {
    var v := LastValue(parts, name);
    if v.None? then m else if v.value == "r" then Relaxed else Strict
  }

  /** The fields a tag list leaves in a record `f`: the two modes of its last adkim= and aspf=, the rest as it was. */
  function DmarcAfter(f: DmarcFields, parts: seq<Option<Tag>>): DmarcFields {
    f.(dkimMode := ModeAfter(parts, "adkim", f.dkimMode), spfMode := ModeAfter(parts, "aspf", f.spfMode))
  }

  /** A tag list fails exactly at its first part the parser does not accept, with that part's error. */
  lemma DmarcTagsOutcome(f: DmarcFields, parts: seq<Option<Tag>>)
    ensures ApplyTags(DmarcStep(), f, parts).Success? <==> forall k :: 0 <= k < |parts| ==> PartOk(parts[k])
    ensures ApplyTags(DmarcStep(), f, parts).Failure? ==>
      exists k :: 0 <= k < |parts| && !PartOk(parts[k]) && (forall j :: 0 <= j < k ==> PartOk(parts[j]))
                  && ApplyTags(DmarcStep(), f, parts).error == PartError(parts[k])
  {
    assert forall g, p :: DmarcStep()(g, p) == ApplyDmarcTag(g, p);
    ApplyTagsOutcome(DmarcStep(), PartOk, PartError, f, parts);
  }

  /** What one accepted part does to the modes. */
  lemma DmarcTagFields(f: DmarcFields, p: Option<Tag>)
    requires ApplyDmarcTag(f, p).Success?
    ensures DmarcAfter(f, [p]) == ApplyDmarcTag(f, p).value
  {
    LastValueOne(p, "adkim");
    LastValueOne(p, "aspf");
  }

  /** DmarcAfter one part, then the rest, is DmarcAfter the whole list. */
  lemma DmarcAfterCons(f: DmarcFields, p: Option<Tag>, rest: seq<Option<Tag>>)
    ensures DmarcAfter(DmarcAfter(f, [p]), rest) == DmarcAfter(f, [p] + rest)
  {
    LastValueOne(p, "adkim");
    LastValueOne(p, "aspf");
    LastValueCons(p, rest, "adkim");
    LastValueCons(p, rest, "aspf");
  }

  /**
   * A tag list that parses sets each mode from the last part with its tag, and leaves
   * every other field as it was.
   */
  lemma {:induction false} DmarcTagsFields(f: DmarcFields, parts: seq<Option<Tag>>)
    requires ApplyTags(DmarcStep(), f, parts).Success?
    ensures ApplyTags(DmarcStep(), f, parts).value == DmarcAfter(f, parts)
    decreases |parts|
  {
    if |parts| > 0 {
      var r := ApplyDmarcTag(f, parts[0]);
      assert DmarcStep()(f, parts[0]) == r;
      DmarcTagFields(f, parts[0]);
      DmarcTagsFields(r.value, parts[1..]);
      DmarcAfterCons(f, parts[0], parts[1..]);
      assert [parts[0]] + parts[1..] == parts;
    }
  }

  /**
   * ParseDmarcRecord accepts a record exactly when it starts with "v=DMARC1" and every
   * part after the first has an '=' and an r or s alignment value; the record then holds
   * the defaults with the modes of the last adkim= and aspf= tags.
   */
  lemma ParseDmarcMeaning(value: string)
    ensures var r := ParseDmarc(value);
      var parts := PartsOf(value);
      (r.Success? <==> StartsWith(value, "v=DMARC1") && forall k :: 0 <= k < |parts| ==> PartOk(parts[k]))
      && (r.Success? ==> r.value == DmarcAfter(DefaultDmarc, parts))
  {
    if StartsWith(value, "v=DMARC1") {
      DmarcTagsOutcome(DefaultDmarc, PartsOf(value));
      if ParseDmarc(value).Success? {
        DmarcTagsFields(DefaultDmarc, PartsOf(value));
      }
    }
  }

  /**
   * The errors ParseDmarcRecord raises: the missing version, or the error of the first
   * part it does not accept (a runtime error for a part without '=', the alignment
   * error for a bad mode).
   */
  lemma ParseDmarcErrors(value: string)
    ensures var r := ParseDmarc(value);
      var parts := PartsOf(value);
      r.Failure? ==>
        (!StartsWith(value, "v=DMARC1") && r.error == DmarcInvalid(NoVersionMessage))
        || (StartsWith(value, "v=DMARC1")
            && exists k :: 0 <= k < |parts| && !PartOk(parts[k]) && (forall j :: 0 <= j < k ==> PartOk(parts[j]))
                           && r.error == PartError(parts[k]))
  {
    if StartsWith(value, "v=DMARC1") {
      DmarcTagsOutcome(DefaultDmarc, PartsOf(value));
    }
  }

  /** Of a parsed record only the two alignment modes can differ from the defaults. */
  lemma OnlyModesChange(value: string)
    requires ParseDmarc(value).Success?
    ensures ParseDmarc(value).value.(dkimMode := Relaxed, spfMode := Relaxed) == DefaultDmarc
  {
    ParseDmarcMeaning(value);
  }

  /** The letter of each mode is read back as that mode. */
  lemma AlignmentRoundTrip(m: AlignmentMode)
    ensures GetAlignmentMode(ModeLetter(m)) == Success(m)
  {
  }

  /** A record ending in ';' has an empty last part, which fails in Substring(0, -1). */
  lemma TrailingSemicolon(value: string)
    requires StartsWith(value, "v=DMARC1")
    ensures ParseDmarc(value + ";").Failure?
  {
    var v := value + ";";
    assert v[..8] == value[..8];
    SplitTrailing(value, ';');
    var tags := TagsOf(v);
    assert tags[|tags| - 1] == "";
    var parts := PartsOf(v);
    assert !PartOk(parts[|parts| - 1]);
    ParseDmarcMeaning(v);
  }

  /** The version tag holds no ';'. */
  lemma VersionPart()
    ensures ';' !in "v=DMARC1"
  {
    assert "v=DMARC1" == ['v', '=', 'D', 'M', 'A', 'R', 'C', '1'];
  }

  /** "v=DMARC1" alone: every field at its default, FailureOptions All among them. */
  lemma VersionOnlyRecord()
    ensures ParseDmarc("v=DMARC1") == Success(DefaultDmarc)
  {
    VersionPart();
    TagRecordParts("v=DMARC1", []);
    assert TagRecord("v=DMARC1", []) == "v=DMARC1" by {
      assert ["v=DMARC1"] + TagParts([]) == ["v=DMARC1"];
    }
  }

  /** The DMARC tag list p=reject; adkim=s; aspf=s on the defaults. */
  lemma StrictTags()
    ensures ApplyTags(DmarcStep(), DefaultDmarc, [Some(Tag("p", "reject")), Some(Tag("adkim", "s")), Some(Tag("aspf", "s"))])
      == Success(DefaultDmarc.(dkimMode := Strict, spfMode := Strict))
  {
    var ps := [Some(Tag("p", "reject")), Some(Tag("adkim", "s")), Some(Tag("aspf", "s"))];
    var f1 := DefaultDmarc.(dkimMode := Strict);
    var f2 := f1.(spfMode := Strict);
    assert DmarcStep()(DefaultDmarc, ps[0]) == Success(DefaultDmarc);
    assert DmarcStep()(DefaultDmarc, ps[1]) == Success(f1);
    assert DmarcStep()(f1, ps[2]) == Success(f2);
    assert ps[1..][1..][1..] == [];
    assert ApplyTags(DmarcStep(), f1, ps[1..][1..]) == Success(f2);
    assert ApplyTags(DmarcStep(), DefaultDmarc, ps[1..]) == Success(f2);
  }

  /**
   * "v=DMARC1; p=reject; adkim=s; aspf=s": both modes strict, and the policy still at
   * its default, since the parser does not interpret p=.
   */
  lemma StrictRecord()
    ensures ParseDmarc(TagRecord("v=DMARC1", [Tag("p", "reject"), Tag("adkim", "s"), Tag("aspf", "s")]))
      == Success(DefaultDmarc.(dkimMode := Strict, spfMode := Strict))
  {
    VersionPart();
    assert Plain(Tag("p", "reject")) && Plain(Tag("adkim", "s")) && Plain(Tag("aspf", "s"));
    ThreeTagRecord("v=DMARC1", Tag("p", "reject"), Tag("adkim", "s"), Tag("aspf", "s"));
    StrictTags();
  }

  /** The DMARC tag list adkim=s; aspf=x on the defaults. */
  lemma BadAlignmentTags()
    ensures ApplyTags(DmarcStep(), DefaultDmarc, [Some(Tag("adkim", "s")), Some(Tag("aspf", "x"))])
      == Failure(DmarcInvalid(AlignmentMessage))
  {
    var ps := [Some(Tag("adkim", "s")), Some(Tag("aspf", "x"))];
    var f1 := DefaultDmarc.(dkimMode := Strict);
    assert DmarcStep()(DefaultDmarc, ps[0]) == Success(f1);
    assert DmarcStep()(f1, ps[1]) == Failure(DmarcInvalid(AlignmentMessage));
    assert ApplyTags(DmarcStep(), f1, ps[1..]) == Failure(DmarcInvalid(AlignmentMessage));
  }

  /** "v=DMARC1; adkim=s; aspf=x": the alignment error. */
  lemma BadAlignmentRecord()
    ensures ParseDmarc(TagRecord("v=DMARC1", [Tag("adkim", "s"), Tag("aspf", "x")]))
      == Failure(DmarcInvalid(AlignmentMessage))
  {
    VersionPart();
    assert Plain(Tag("adkim", "s")) && Plain(Tag("aspf", "x"));
    TwoTagRecord("v=DMARC1", Tag("adkim", "s"), Tag("aspf", "x"));
    BadAlignmentTags();
  }

  /** The DMARC tag list <name>=<v> on the defaults, for a name other than adkim and aspf. */
  lemma UncheckedTags(name: string, v: string)
    requires name != "adkim" && name != "aspf"
    ensures ApplyTags(DmarcStep(), DefaultDmarc, [Some(Tag(name, v))]) == Success(DefaultDmarc)
  {
    var ps := [Some(Tag(name, v))];
    assert UpdateDmarc(DefaultDmarc, name, v) == Success(DefaultDmarc);
    assert DmarcStep()(DefaultDmarc, ps[0]) == Success(DefaultDmarc);
    assert ps[1..] == [];
  }

  /**
   * A record with one tag other than adkim and aspf, such as pct=10000, p=aaaa or fo=1:d,
   * is accepted with every field at its default: the value is never looked at.
   */
  lemma UncheckedTagRecord(name: string, v: string)
    requires name != "adkim" && name != "aspf" && Plain(Tag(name, v))
    ensures ParseDmarc(TagRecord("v=DMARC1", [Tag(name, v)])) == Success(DefaultDmarc)
  {
    VersionPart();
    OneTagRecord("v=DMARC1", Tag(name, v));
    UncheckedTags(name, v);
  }

  /** The DMARC tag list adkim=s; p=reject on the defaults. */
  lemma ModeThenPolicyTags()
    ensures ApplyTags(DmarcStep(), DefaultDmarc, [Some(Tag("adkim", "s")), Some(Tag("p", "reject"))])
      == Success(DefaultDmarc.(dkimMode := Strict))
  {
    var ps := [Some(Tag("adkim", "s")), Some(Tag("p", "reject"))];
    var f1 := DefaultDmarc.(dkimMode := Strict);
    assert DmarcStep()(DefaultDmarc, ps[0]) == Success(f1);
    assert DmarcStep()(f1, ps[1]) == Success(f1);
    assert ps[1..][1..] == [];
    assert ApplyTags(DmarcStep(), f1, ps[1..]) == Success(f1);
  }

  /** "v=DMARC1; adkim=s; p=reject": accepted, though p= is not the first tag. */
  lemma ModeThenPolicyRecord()
    ensures ParseDmarc(TagRecord("v=DMARC1", [Tag("adkim", "s"), Tag("p", "reject")]))
      == Success(DefaultDmarc.(dkimMode := Strict))
  {
    VersionPart();
    assert Plain(Tag("adkim", "s")) && Plain(Tag("p", "reject"));
    TwoTagRecord("v=DMARC1", Tag("adkim", "s"), Tag("p", "reject"));
    ModeThenPolicyTags();
  }

  /**
   * GetDmarcRecord against a resolver holding one TXT record at `_dmarc.domain`: the record
   * parsed when it starts with "v=DMARC1", and the invalid-record error for any other domain.
   */
  lemma DmarcLookup(domain: string, other: string, value: string)
    requires StartsWith(value, "v=DMARC1")
    requires DmarcName(other) != DmarcName(domain)
    ensures var txt := (d: string) => TextValues([TextRecord(DmarcName(domain), value)], d);
      GetDmarc(txt, domain) == ParseDmarc(value)
      && GetDmarc(txt, other) == Failure(DmarcInvalid(MissingRecordMessage))
  {
    var rs := [TextRecord(DmarcName(domain), value)];
    assert rs[1..] == [];
    assert TextValues(rs, DmarcName(domain)) == [value];
    assert TextValues(rs, DmarcName(other)) == [];
  }
}
