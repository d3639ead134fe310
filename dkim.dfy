/**
 * DKIM key records (section 3.6.1 of RFC 6376): the record with its defaults, the tag
 * parser, and the lookup of `selector._domainkey.domain`.
 */
module Dkim {
  import opened Wrappers
  import opened Errors
  import opened Platform
  import opened Text
  import opened TagLists
  import opened Resolvers

  /** DkimFlags, a [Flags] enum: the `y` (testing) and `s` (same domain) flags of the t= tag. */
  datatype DkimFlags = DkimFlags(testing: bool, sameDomain: bool)

  /** DkimFlags.None */
  const NoFlags := DkimFlags(false, false)

  /** The properties of a DkimRecord, as a value; `publicKey` is None while no p= tag was seen. */
  datatype DkimFields = DkimFields(
    algorithms: seq<string>,
    keyType: string,
    notes: string,
    publicKey: Option<string>,
    serviceType: seq<string>,
    flags: DkimFlags)

  /** The record the DkimRecord constructor makes. */
  const DefaultDkim := DkimFields([], "rsa", "", None, [], NoFlags)

  const NoVersionMessage := "Not a valid DKIM record, does not contain a version"
  const Base64Message := "DKIM record public key must contain valid base64"
  const MissingKeyMessage := "DKIM record is missing a required public key"

  /** DkimRecord: its properties, which only the parser writes. */
  class DkimRecord {
    var algorithms: seq<string>
    var keyType: string
    var notes: string
    var publicKey: Option<string>
    var serviceType: seq<string>
    var flags: DkimFlags

    function Fields(): DkimFields
      reads this
    {
      DkimFields(algorithms, keyType, notes, publicKey, serviceType, flags)
    }

    constructor ()
      ensures Fields() == DefaultDkim
    {
      algorithms := [];
      keyType := "rsa";
      notes := "";
      publicKey := None;
      serviceType := [];
      flags := NoFlags;
    }
  }

  /** `value` passes ValidateBase64: it is empty, or Convert.FromBase64String accepts it. */
  predicate Base64Ok(lib: Library, value: string) {
    value == "" || lib.base64Decodes(value)
  }

  /** ValidateBase64 */
  function ValidateBase64(lib: Library, value: string): (o: Outcome<Error>)
    ensures o.Passed? <==> Base64Ok(lib, value)
    ensures o.Failed? ==> o.error == DkimInvalid(Base64Message)
  {
    if value == "" || lib.base64Decodes(value) then Passed else Failed(DkimInvalid(Base64Message))
  }

  /** The flags after `Flags |=` for each of the colon-separated `flags`: y sets Testing, s sets SameDomain. */
  function AddFlags(flags: DkimFlags, fs: seq<string>): (r: DkimFlags)
    ensures r.testing <==> flags.testing || "y" in fs
    ensures r.sameDomain <==> flags.sameDomain || "s" in fs
    decreases |fs|
  {
    if |fs| == 0 then flags
    else
      assert forall x :: x in fs <==> x == fs[0] || x in fs[1..];
      AddFlags(DkimFlags(flags.testing || fs[0] == "y", flags.sameDomain || fs[0] == "s"), fs[1..])
  }

  /** The switch of ParseDkimRecord on a trimmed tag and value. */
  function UpdateDkim(lib: Library, f: DkimFields, tag: string, val: string): (r: Result<DkimFields, Error>)
    ensures r.Failure? <==> tag == "p" && !Base64Ok(lib, val)
    ensures r.Failure? ==> r.error == DkimInvalid(Base64Message)
  {
    if tag == "h" then Success(f.(algorithms := Split(val, ':')))
    else if tag == "k" then Success(f.(keyType := val))
    else if tag == "n" then Success(f.(notes := val))
    else if tag == "p" then
      match ValidateBase64(lib, val)
      case Failed(e) => Failure(e)
      case Passed => Success(f.(publicKey := Some(val)))
    else if tag == "s" then Success(f.(serviceType := Split(val, ':')))
    else if tag == "t" then Success(f.(flags := AddFlags(f.flags, Split(val, ':'))))
    else Success(f)
  }

  /** One part of the tag list: a part without '=' is skipped. */
  function ApplyDkimTag(lib: Library, f: DkimFields, p: Option<Tag>): (r: Result<DkimFields, Error>)
    ensures r.Failure? <==> IsTag(p, "p") && !Base64Ok(lib, p.value.value)
    ensures r.Failure? ==> r.error == DkimInvalid(Base64Message)
  {
    if p.None? then Success(f) else UpdateDkim(lib, f, p.value.name, p.value.value)
  }

  /** The step of ParseDkimRecord's loop. */
  function DkimStep(lib: Library): (DkimFields, Option<Tag>) -> Result<DkimFields, Error> {
    (f, p) => ApplyDkimTag(lib, f, p)
  }

  /**
   * ParseDkimRecord as a function: the version gate, the tag list from the defaults,
   * and the check that a p= tag was seen.
   */
  function ParseDkim(lib: Library, value: string): (r: Result<DkimFields, Error>)
    ensures !StartsWith(value, "v=DKIM1") ==> r == Failure(DkimInvalid(NoVersionMessage))
    ensures r.Success? ==> r.value.publicKey.Some?
  {
    if !StartsWith(value, "v=DKIM1") then Failure(DkimInvalid(NoVersionMessage))
    else
      var f :- ApplyTags(DkimStep(lib), DefaultDkim, PartsOf(value));
      if f.publicKey.None? then Failure(DkimInvalid(MissingKeyMessage)) else Success(f)
  }

  /** The inner loop of the t= case: `Flags |=` for each flag. */
  method SetFlags(record: DkimRecord, flags: seq<string>)
    modifies record
    ensures record.Fields() == old(record.Fields()).(flags := AddFlags(old(record.flags), flags))
  {
    var j := 0;
    while j < |flags|
      invariant 0 <= j <= |flags|
      invariant AddFlags(old(record.flags), flags) == AddFlags(record.flags, flags[j..])
      invariant record.Fields() == old(record.Fields()).(flags := record.flags)
    {
      assert flags[j..][0] == flags[j] && flags[j..][1..] == flags[j + 1..];
      if flags[j] == "y" {
        record.flags := record.flags.(testing := true);
      }
      if flags[j] == "s" {
        record.flags := record.flags.(sameDomain := true);
      }
      j := j + 1;
    }
  }

  /** The switch of ParseDkimRecord's loop, writing into `record`. */
  method UpdateDkimRecord(lib: Library, record: DkimRecord, tag: string, val: string) returns (o: Outcome<Error>)
    modifies record
    ensures UpdateDkim(lib, old(record.Fields()), tag, val) == if o.Passed? then Success(record.Fields()) else Failure(o.error)
  {
    if tag == "h" {
      record.algorithms := Split(val, ':');
    } else if tag == "k" {
      record.keyType := val;
    } else if tag == "n" {
      record.notes := val;
    } else if tag == "p" {
      var valid := ValidateBase64(lib, val);
      if valid.Failed? {
        return valid;
      }
      record.publicKey := Some(val);
    } else if tag == "s" {
      record.serviceType := Split(val, ':');
    } else if tag == "t" {
      SetFlags(record, Split(val, ':'));
    }
    return Passed;
  }

  /** The loop of ParseDkimRecord over the parts after the version, writing into `record`. */
  method ApplyDkimTags(lib: Library, record: DkimRecord, tags: seq<string>) returns (o: Outcome<Error>)
    modifies record
    ensures ApplyTags(DkimStep(lib), old(record.Fields()), CutTags(tags))
         == if o.Passed? then Success(record.Fields()) else Failure(o.error)
  {
    ghost var parts := CutTags(tags);
    var n := 0;
    while n < |tags|
      invariant 0 <= n <= |tags|
      invariant ApplyTags(DkimStep(lib), old(record.Fields()), parts) == ApplyTags(DkimStep(lib), record.Fields(), parts[n..])
    {
      ghost var before := record.Fields();
      ApplyTagsStep(DkimStep(lib), before, parts, n);
      assert DkimStep(lib)(before, parts[n]) == ApplyDkimTag(lib, before, parts[n]);
      var t := tags[n];
      var i := IndexOf(t, '=');
      if i != -1 {
        assert parts[n] == Some(Tag(Trim(t[..i]), Trim(t[i + 1..])));
        var o := UpdateDkimRecord(lib, record, Trim(t[..i]), Trim(t[i + 1..]));
        if o.Failed? {
          assert ApplyTags(DkimStep(lib), before, parts[n..]) == Failure(o.error);
          return o;
        }
      }
      n := n + 1;
    }
    assert parts[n..] == [];
    return Passed;
  }

  /** DkimCheck.ParseDkimRecord */
  method ParseDkimRecord(lib: Library, value: string) returns (r: Result<DkimRecord, Error>)
    ensures r.Success? ==> fresh(r.value) && ParseDkim(lib, value) == Success(r.value.Fields())
    ensures r.Failure? ==> ParseDkim(lib, value) == Failure(r.error)
  {
    if !StartsWith(value, "v=DKIM1") {
      return Failure(DkimInvalid(NoVersionMessage));
    }
    var record := new DkimRecord();
    var o := ApplyDkimTags(lib, record, Split(value, ';')[1..]);
    DkimTags(lib, value);
    if o.Failed? {
      return Failure(o.error);
    }
    if record.publicKey.None? {
      return Failure(DkimInvalid(MissingKeyMessage));
    }
    return Success(record);
  }

  /** ParseDkim past the version gate, in terms of the tag loop's outcome. */
  lemma DkimTags(lib: Library, value: string)
    requires StartsWith(value, "v=DKIM1")
    ensures var a := ApplyTags(DkimStep(lib), DefaultDkim, CutTags(Split(value, ';')[1..]));
      ParseDkim(lib, value) == if a.Failure? then Failure(a.error)
                               else if a.value.publicKey.None? then Failure(DkimInvalid(MissingKeyMessage))
                               else Success(a.value)
  {
  }

  /** The TXT name GetDkimRecord queries. */
  function DkimName(domain: string, selector: string): string {
    selector + "._domainkey." + domain
  }

  /**
   * GetDkimRecord as a function of the TXT lookup: the first record of
   * `selector._domainkey.domain` that starts with "v=DKIM1", parsed.
   */
  function GetDkim(txt: string -> seq<string>, lib: Library, domain: string, selector: string): (r: Result<DkimFields, Error>)
    ensures FirstWithPrefix(txt(DkimName(domain, selector)), "v=DKIM1").None? ==>
      r == Failure(DkimNotFound("No DKIM record found for selector '" + selector + "' on domain"))
    ensures forall k :: 0 <= k < |txt(DkimName(domain, selector))| && StartsWith(txt(DkimName(domain, selector))[k], "v=DKIM1")
                        && (forall j :: 0 <= j < k ==> !StartsWith(txt(DkimName(domain, selector))[j], "v=DKIM1")) ==>
      r == ParseDkim(lib, txt(DkimName(domain, selector))[k])
  {
    var record := FirstWithPrefix(txt(DkimName(domain, selector)), "v=DKIM1");
    if record.None? then Failure(DkimNotFound("No DKIM record found for selector '" + selector + "' on domain"))
    else ParseDkim(lib, record.value)
  }

  /** DkimCheck: a resolver, which it only reads. */
  class DkimCheck {
    const resolver: Resolver
    const lib: Library

    constructor (resolver: Resolver, lib: Library)
      ensures this.resolver == resolver && this.lib == lib
    {
      this.resolver := resolver;
      this.lib := lib;
    }

    /** DkimCheck.GetDkimRecord */
    method GetDkimRecord(domain: string, selector: string) returns (r: Result<DkimRecord, Error>)
      ensures r.Success? ==> fresh(r.value) && GetDkim(resolver.text, lib, domain, selector) == Success(r.value.Fields())
      ensures r.Failure? ==> GetDkim(resolver.text, lib, domain, selector) == Failure(r.error)
    {
      var name := selector + "._domainkey." + domain;
      var records := resolver.text(name);
      var record := FirstWithPrefix(records, "v=DKIM1");
      if record.None? {
        return Failure(DkimNotFound("No DKIM record found for selector '" + selector + "' on domain"));
      }
      r := ParseDkimRecord(lib, record.value);
    }
  }
}
