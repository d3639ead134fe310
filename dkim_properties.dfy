/** What ParseDkimRecord and GetDkimRecord promise, stated over the tag list. */
module DkimProperties {
  import opened Wrappers
  import opened Errors
  import opened Platform
  import opened Text
  import opened TagLists
  import opened Dkim
  import opened DummyResolvers

  /** The part is a t= tag that lists the flag `c` among its colon-separated flags. */
  predicate ListsFlag(p: Option<Tag>, c: string) {
    IsTag(p, "t") && c in Split(p.value.value, ':')
  }

  /** Some t= part lists the flag `c`. */
  ghost predicate FlagListed(parts: seq<Option<Tag>>, c: string) {
    exists k :: 0 <= k < |parts| && ListsFlag(parts[k], c)
  }

  /** Every p= part holds a value ValidateBase64 accepts. */
  predicate KeysValid(lib: Library, parts: seq<Option<Tag>>) {
    forall k :: 0 <= k < |parts| && IsTag(parts[k], "p") ==> Base64Ok(lib, parts[k].value.value)
  }

  /** The fields a tag list leaves in a record `f`: each the value of the last part with its tag. */
  ghost function FieldsAfter(f: DkimFields, parts: seq<Option<Tag>>): DkimFields {
    var h, p, s := LastValue(parts, "h"), LastValue(parts, "p"), LastValue(parts, "s");
    DkimFields(
      if h.Some? then Split(h.value, ':') else f.algorithms,
      OrElse(LastValue(parts, "k"), f.keyType),
      OrElse(LastValue(parts, "n"), f.notes),
      if p.Some? then p else f.publicKey,
      if s.Some? then Split(s.value, ':') else f.serviceType,
      DkimFlags(f.flags.testing || FlagListed(parts, "y"), f.flags.sameDomain || FlagListed(parts, "s")))
  }

  /** What one part does to each field. */
  lemma DkimTagFields(lib: Library, f: DkimFields, p: Option<Tag>)
    requires ApplyDkimTag(lib, f, p).Success?
    ensures FieldsAfter(f, [p]) == ApplyDkimTag(lib, f, p).value
  {
    LastValueOne(p, "h");
    LastValueOne(p, "k");
    LastValueOne(p, "n");
    LastValueOne(p, "p");
    LastValueOne(p, "s");
    assert [p][0] == p;
    assert FlagListed([p], "y") <==> ListsFlag(p, "y");
    assert FlagListed([p], "s") <==> ListsFlag(p, "s");
  }

  /** A tag list fails exactly at a p= part whose value is not base64, and then with that error. */
  lemma {:induction false} DkimTagsOutcome(lib: Library, f: DkimFields, parts: seq<Option<Tag>>)
    ensures ApplyTags(DkimStep(lib), f, parts).Success? <==> KeysValid(lib, parts)
    ensures ApplyTags(DkimStep(lib), f, parts).Failure? ==> ApplyTags(DkimStep(lib), f, parts).error == DkimInvalid(Base64Message)
    decreases |parts|
  {
    if |parts| > 0 {
      assert forall k :: 1 <= k < |parts| ==> parts[1..][k - 1] == parts[k];
      var r := ApplyDkimTag(lib, f, parts[0]);
      assert DkimStep(lib)(f, parts[0]) == r;
      if r.Success? {
        DkimTagsOutcome(lib, r.value, parts[1..]);
        assert KeysValid(lib, parts) <==> KeysValid(lib, parts[1..]);
      }
    }
  }

  /** A flag is listed in a list that starts with one more part when it is listed in that part or in the rest. */
  lemma FlagListedCons(p: Option<Tag>, rest: seq<Option<Tag>>, c: string)
    ensures FlagListed([p] + rest, c) <==> FlagListed([p], c) || FlagListed(rest, c)
  {
    var parts := [p] + rest;
    assert parts[0] == p && [p][0] == p;
    if FlagListed(rest, c) {
      var k :| 0 <= k < |rest| && ListsFlag(rest[k], c);
      assert parts[k + 1] == rest[k];
    }
    if FlagListed(parts, c) {
      var k :| 0 <= k < |parts| && ListsFlag(parts[k], c);
      if k > 0 {
        assert rest[k - 1] == parts[k];
      }
    }
  }

  /** FieldsAfter one part, then the rest, is FieldsAfter the whole list. */
  lemma FieldsAfterCons(f: DkimFields, p: Option<Tag>, rest: seq<Option<Tag>>)
    ensures FieldsAfter(FieldsAfter(f, [p]), rest) == FieldsAfter(f, [p] + rest)
  {
    FlagListedCons(p, rest, "y");
    FlagListedCons(p, rest, "s");
    LastValueCons(p, [], "h");
    LastValueCons(p, [], "k");
    LastValueCons(p, [], "n");
    LastValueCons(p, [], "p");
    LastValueCons(p, [], "s");
    assert [p] + [] == [p];
    LastValueCons(p, rest, "h");
    LastValueCons(p, rest, "k");
    LastValueCons(p, rest, "n");
    LastValueCons(p, rest, "p");
    LastValueCons(p, rest, "s");
  }

  /**
   * A tag list that parses leaves in every field the value of the last part with that
   * field's tag (h and s split on ':'), or the field as it was when there is none; the
   * flags named in any t= part are set, and no flag is ever cleared.
   */
  lemma {:induction false} DkimTagsFields(lib: Library, f: DkimFields, parts: seq<Option<Tag>>)
    requires ApplyTags(DkimStep(lib), f, parts).Success?
    ensures ApplyTags(DkimStep(lib), f, parts).value == FieldsAfter(f, parts)
    decreases |parts|
  {
    if |parts| == 0 {
      assert !FlagListed(parts, "y") && !FlagListed(parts, "s");
    } else {
      var r := ApplyDkimTag(lib, f, parts[0]);
      assert DkimStep(lib)(f, parts[0]) == r;
      DkimTagFields(lib, f, parts[0]);
      DkimTagsFields(lib, r.value, parts[1..]);
      FieldsAfterCons(f, parts[0], parts[1..]);
      assert [parts[0]] + parts[1..] == parts;
    }
  }

  /**
   * ParseDkimRecord accepts a record exactly when it starts with "v=DKIM1", every p= value
   * is empty or base64, and there is a p= tag; the record then holds the defaults
   * overwritten by the last occurrence of each tag, with the flags of every t= tag.
   */
  lemma ParseDkimMeaning(lib: Library, value: string)
    ensures var r := ParseDkim(lib, value);
      var parts := PartsOf(value);
      (r.Success? <==> StartsWith(value, "v=DKIM1") && KeysValid(lib, parts) && LastValue(parts, "p").Some?)
      && (r.Success? ==> r.value == FieldsAfter(DefaultDkim, parts))
  {
    if StartsWith(value, "v=DKIM1") {
      var parts := PartsOf(value);
      DkimTagsOutcome(lib, DefaultDkim, parts);
      if KeysValid(lib, parts) {
        DkimTagsFields(lib, DefaultDkim, parts);
      }
    }
  }

  /** The three errors ParseDkimRecord raises, and when. */
  lemma ParseDkimErrors(lib: Library, value: string)
    ensures var r := ParseDkim(lib, value);
      var parts := PartsOf(value);
      r.Failure? ==>
        (!StartsWith(value, "v=DKIM1") && r.error == DkimInvalid(NoVersionMessage))
        || (StartsWith(value, "v=DKIM1") && !KeysValid(lib, parts) && r.error == DkimInvalid(Base64Message))
        || (StartsWith(value, "v=DKIM1") && KeysValid(lib, parts) && LastValue(parts, "p").None?
            && r.error == DkimInvalid(MissingKeyMessage))
  {
    if StartsWith(value, "v=DKIM1") {
      var parts := PartsOf(value);
      DkimTagsOutcome(lib, DefaultDkim, parts);
      if KeysValid(lib, parts) {
        DkimTagsFields(lib, DefaultDkim, parts);
      }
    }
  }

  /** The version tag holds no ';', so a record starting with it keeps it as its first part. */
  lemma VersionPart()
    ensures ';' !in "v=DKIM1"
  {
    assert "v=DKIM1" == ['v', '=', 'D', 'K', 'I', 'M', '1'];
  }

  /** The DKIM tag list p=<key>; n=<notes> on the defaults. */
  lemma KeyAndNotesTags(lib: Library, key: string, notes: string)
    requires Base64Ok(lib, key)
    ensures ApplyTags(DkimStep(lib), DefaultDkim, [Some(Tag("p", key)), Some(Tag("n", notes))])
      == Success(DefaultDkim.(publicKey := Some(key), notes := notes))
  {
    var ps := [Some(Tag("p", key)), Some(Tag("n", notes))];
    var f1 := DefaultDkim.(publicKey := Some(key));
    assert DkimStep(lib)(DefaultDkim, ps[0]) == Success(f1);
    assert DkimStep(lib)(f1, ps[1]) == Success(f1.(notes := notes));
    assert ps[1..][1..] == [];
    assert ApplyTags(DkimStep(lib), f1, ps[1..]) == Success(f1.(notes := notes));
  }

  /**
   * The record of the repository's parse and lookup tests, "v=DKIM1; p=<key>; n=<notes>",
   * with a key that is base64 (or empty) and notes, neither holding ';' or surrounding
   * white space: that key and those notes, key type "rsa", no algorithms and no flags.
   */
  lemma KeyAndNotesRecord(lib: Library, key: string, notes: string)
    requires ';' !in key && ';' !in notes && Trimmed(key) && Trimmed(notes)
    requires Base64Ok(lib, key)
    ensures ParseDkim(lib, TagRecord("v=DKIM1", [Tag("p", key), Tag("n", notes)]))
      == Success(DefaultDkim.(publicKey := Some(key), notes := notes))
  {
    VersionPart();
    assert Plain(Tag("p", key)) && Plain(Tag("n", notes));
    TwoTagRecord("v=DKIM1", Tag("p", key), Tag("n", notes));
    KeyAndNotesTags(lib, key, notes);
  }

  /** The DKIM tag list p=<key> on the defaults. */
  lemma KeyOnlyTags(lib: Library, key: string)
    ensures ApplyTags(DkimStep(lib), DefaultDkim, [Some(Tag("p", key))])
      == if Base64Ok(lib, key) then Success(DefaultDkim.(publicKey := Some(key)))
         else Failure(DkimInvalid(Base64Message))
  {
    var ps := [Some(Tag("p", key))];
    var f1 := DefaultDkim.(publicKey := Some(key));
    assert ps[1..] == [];
    if Base64Ok(lib, key) {
      assert DkimStep(lib)(DefaultDkim, ps[0]) == Success(f1);
      assert ApplyTags(DkimStep(lib), f1, ps[1..]) == Success(f1);
    } else {
      assert DkimStep(lib)(DefaultDkim, ps[0]) == Failure(DkimInvalid(Base64Message));
    }
  }

  /**
   * "v=DKIM1; p=<key>" alone: the key with every other field at its default and no
   * flags when the key is empty (a revoked key) or base64, and the base64 error otherwise.
   */
  lemma KeyOnlyRecord(lib: Library, key: string)
    requires ';' !in key && Trimmed(key)
    ensures ParseDkim(lib, TagRecord("v=DKIM1", [Tag("p", key)]))
      == if Base64Ok(lib, key) then Success(DefaultDkim.(publicKey := Some(key)))
         else Failure(DkimInvalid(Base64Message))
  {
    VersionPart();
    assert Plain(Tag("p", key));
    OneTagRecord("v=DKIM1", Tag("p", key));
    KeyOnlyTags(lib, key);
  }

  /** The DKIM tag list n=<notes> on the defaults. */
  lemma NotesOnlyTags(lib: Library, notes: string)
    ensures ApplyTags(DkimStep(lib), DefaultDkim, [Some(Tag("n", notes))]) == Success(DefaultDkim.(notes := notes))
  {
    var ps := [Some(Tag("n", notes))];
    var f1 := DefaultDkim.(notes := notes);
    assert ps[1..] == [];
    assert DkimStep(lib)(DefaultDkim, ps[0]) == Success(f1);
    assert ApplyTags(DkimStep(lib), f1, ps[1..]) == Success(f1);
  }

  /** "v=DKIM1; n=<notes>": well-formed tags but no p= tag, so the missing-key error. */
  lemma NotesOnlyRecord(lib: Library, notes: string)
    requires ';' !in notes && Trimmed(notes)
    ensures ParseDkim(lib, TagRecord("v=DKIM1", [Tag("n", notes)])) == Failure(DkimInvalid(MissingKeyMessage))
  {
    VersionPart();
    assert Plain(Tag("n", notes));
    OneTagRecord("v=DKIM1", Tag("n", notes));
    NotesOnlyTags(lib, notes);
  }

  /** The flags of t=y:s. */
  lemma TestingSameDomain()
    ensures Split("y:s", ':') == ["y", "s"]
  {
    assert Join(["y", "s"], ':') == "y:s";
    SplitJoin(["y", "s"], ':');
  }

  /** The DKIM tag list p=<key>; t=y:s on the defaults. */
  lemma KeyAndFlagsTags(lib: Library, key: string)
    requires Base64Ok(lib, key)
    ensures ApplyTags(DkimStep(lib), DefaultDkim, [Some(Tag("p", key)), Some(Tag("t", "y:s"))])
      == Success(DefaultDkim.(publicKey := Some(key), flags := DkimFlags(true, true)))
  {
    TestingSameDomain();
    var ps := [Some(Tag("p", key)), Some(Tag("t", "y:s"))];
    var f1 := DefaultDkim.(publicKey := Some(key));
    var f2 := f1.(flags := DkimFlags(true, true));
    assert DkimStep(lib)(DefaultDkim, ps[0]) == Success(f1);
    assert DkimStep(lib)(f1, ps[1]) == Success(f2);
    assert ps[1..][1..] == [];
    assert ApplyTags(DkimStep(lib), f1, ps[1..]) == Success(f2);
  }

  /** "v=DKIM1; p=<key>; t=y:s" with a valid key sets both the testing and the same-domain flag. */
  lemma KeyAndFlagsRecord(lib: Library, key: string)
    requires ';' !in key && Trimmed(key) && Base64Ok(lib, key)
    ensures ParseDkim(lib, TagRecord("v=DKIM1", [Tag("p", key), Tag("t", "y:s")]))
      == Success(DefaultDkim.(publicKey := Some(key), flags := DkimFlags(true, true)))
  {
    VersionPart();
    assert Trimmed("y:s") && ';' !in "y:s";
    assert Plain(Tag("p", key)) && Plain(Tag("t", "y:s"));
    TwoTagRecord("v=DKIM1", Tag("p", key), Tag("t", "y:s"));
    KeyAndFlagsTags(lib, key);
  }

  /**
   * GetDkimRecord against a resolver holding one TXT record at `selector._domainkey.domain`:
   * the record parsed when it starts with "v=DKIM1", and the not-found error for any other
   * selector.
   */
  lemma DkimLookup(lib: Library, domain: string, selector: string, other: string, value: string)
    requires StartsWith(value, "v=DKIM1")
    requires DkimName(domain, other) != DkimName(domain, selector)
    ensures var txt := (d: string) => TextValues([TextRecord(DkimName(domain, selector), value)], d);
      GetDkim(txt, lib, domain, selector) == ParseDkim(lib, value)
      && GetDkim(txt, lib, domain, other)
         == Failure(DkimNotFound("No DKIM record found for selector '" + other + "' on domain"))
  {
    var rs := [TextRecord(DkimName(domain, selector), value)];
    assert rs[1..] == [];
    assert TextValues(rs, DkimName(domain, selector)) == [value];
    assert TextValues(rs, DkimName(domain, other)) == [];
  }
}
