/**
 * The tag=value lists of DKIM key records (section 3.2 of RFC 6376), DMARC records
 * (section 6.3 of RFC 7489) and BIMI records, as the parsers here cut them: the text is
 * split on ';', the first part (the version) is skipped, and each part is cut at its
 * first '=' into a trimmed tag and a trimmed value.
 */
module TagLists {
  import opened Wrappers
  import opened Text

  /** A part cut at its first '=': the trimmed text before it and the trimmed text after it. */
  datatype Tag = Tag(name: string, value: string)

  /** value.Split(';').Skip(1) */
  function TagsOf(value: string): (tags: seq<string>)
    ensures |tags| == |Split(value, ';')| - 1
    ensures forall k :: 0 <= k < |tags| ==> ';' !in tags[k]
  {
    Split(value, ';')[1..]
  }

  /**
   * t.IndexOf('='), then t.Substring(0, i).Trim() and t.Substring(i + 1).Trim();
   * None for a part without '='.
   */
  function CutTag(t: string): (r: Option<Tag>)
    ensures r.None? <==> '=' !in t
  {
    var i := IndexOf(t, '=');
    if i == -1 then None else Some(Tag(Trim(t[..i]), Trim(t[i + 1..])))
  }

  /** Every part of a tag list, cut. */
  function CutTags(tags: seq<string>): (parts: seq<Option<Tag>>)
    ensures |parts| == |tags|
    ensures forall k :: 0 <= k < |tags| ==> parts[k] == CutTag(tags[k])
  {
    if |tags| == 0 then [] else [CutTag(tags[0])] + CutTags(tags[1..])
  }

  /** The cut parts of the tag list of `value`. */
  function PartsOf(value: string): seq<Option<Tag>> {
    CutTags(TagsOf(value))
  }

  /** The part is a tag named `name`. */
  predicate IsTag(p: Option<Tag>, name: string) {
    p.Some? && p.value.name == name
  }

  /**
   * The value of the last part tagged `name`, or None when no part is: the value a
   * parser that overwrites a field at every such tag leaves behind.
   */
  function LastValue(parts: seq<Option<Tag>>, name: string): (r: Option<string>)
    ensures r.None? <==> forall k :: 0 <= k < |parts| ==> !IsTag(parts[k], name)
    ensures r.Some? ==> exists k :: 0 <= k < |parts| && parts[k] == Some(Tag(name, r.value))
                                    && forall j :: k < j < |parts| ==> !IsTag(parts[j], name)
  {
    if |parts| == 0 then None
    else
      var rest := LastValue(parts[1..], name);
      assert forall k :: 1 <= k < |parts| ==> parts[1..][k - 1] == parts[k];
      if rest.Some? then
        var k' :| 0 <= k' < |parts[1..]| && parts[1..][k'] == Some(Tag(name, rest.value))
                  && forall j :: k' < j < |parts[1..]| ==> !IsTag(parts[1..][j], name);
        assert forall j :: k' + 1 < j < |parts| ==> parts[j] == parts[1..][j - 1];
        rest
      else if IsTag(parts[0], name) then Some(parts[0].value.value)
      else None
  }

  /** LastValue of a list that starts with one more part. */
  lemma LastValueCons(p: Option<Tag>, parts: seq<Option<Tag>>, name: string)
    ensures LastValue([p] + parts, name)
      == if LastValue(parts, name).Some? then LastValue(parts, name)
         else if IsTag(p, name) then Some(p.value.value) else None
  {
    assert ([p] + parts)[1..] == parts;
  }

  /** LastValue of a single part. */
  lemma LastValueOne(p: Option<Tag>, name: string)
    ensures LastValue([p], name) == if IsTag(p, name) then Some(p.value.value) else None
  {
    assert [p][1..] == [];
  }

  /** The value of an Option, or a default for None. */
  function OrElse<T>(o: Option<T>, default: T): (r: T)
    ensures o.Some? ==> r == o.value
    ensures o.None? ==> r == default
  {
    if o.Some? then o.value else default
  }

  /**
   * The foreach loop of a tag parser: `step` applied to every cut part in order, from
   * the record `f`, stopping at the first error.
   */
  function ApplyTags<F, E>(step: (F, Option<Tag>) -> Result<F, E>, f: F, parts: seq<Option<Tag>>): Result<F, E> {
    if |parts| == 0 then Success(f)
    else
      var g :- step(f, parts[0]);
      ApplyTags(step, g, parts[1..])
  }

  /** ApplyTags one part further. */
  lemma ApplyTagsStep<F, E>(step: (F, Option<Tag>) -> Result<F, E>, f: F, parts: seq<Option<Tag>>, n: nat)
    requires n < |parts|
    ensures step(f, parts[n]).Failure? ==> ApplyTags(step, f, parts[n..]) == Failure(step(f, parts[n]).error)
    ensures step(f, parts[n]).Success? ==> ApplyTags(step, f, parts[n..]) == ApplyTags(step, step(f, parts[n]).value, parts[n + 1..])
  {
    assert parts[n..][0] == parts[n] && parts[n..][1..] == parts[n + 1..];
  }

  /**
   * A step whose success and error depend on the part alone: the loop succeeds exactly
   * when every part is accepted, and otherwise fails with the error of the first part
   * that is not.
   */
  lemma {:induction false} ApplyTagsOutcome<F, E>(step: (F, Option<Tag>) -> Result<F, E>, ok: Option<Tag> -> bool,
                                                 err: Option<Tag> -> E, f: F, parts: seq<Option<Tag>>)
    requires forall g: F, p: Option<Tag> :: step(g, p).Success? <==> ok(p)
    requires forall g: F, p: Option<Tag> :: step(g, p).Failure? ==> step(g, p).error == err(p)
    ensures ApplyTags(step, f, parts).Success? <==> forall k :: 0 <= k < |parts| ==> ok(parts[k])
    ensures ApplyTags(step, f, parts).Failure? ==>
      exists k :: 0 <= k < |parts| && !ok(parts[k]) && (forall j :: 0 <= j < k ==> ok(parts[j]))
                  && ApplyTags(step, f, parts).error == err(parts[k])
    decreases |parts|
  {
    if |parts| > 0 {
      var rest := parts[1..];
      assert forall k :: 1 <= k < |parts| ==> rest[k - 1] == parts[k];
      var r := step(f, parts[0]);
      if r.Success? {
        ApplyTagsOutcome(step, ok, err, r.value, rest);
        if ApplyTags(step, r.value, rest).Failure? {
          var k :| 0 <= k < |rest| && !ok(rest[k]) && (forall j :: 0 <= j < k ==> ok(rest[j]))
                   && ApplyTags(step, r.value, rest).error == err(rest[k]);
          assert parts[k + 1] == rest[k];
          assert forall j :: 0 <= j < k + 1 ==> ok(parts[j]) by {
            forall j | 0 <= j < k + 1 ensures ok(parts[j]) {
              if j > 0 {
                assert parts[j] == rest[j - 1];
              }
            }
          }
        }
      }
    }
  }

  /**
   * A part written as the name, '=' and a value is cut at that '=' into the trimmed
   * name and the trimmed value, even when the value holds '=' itself (base64 padding).
   */
  lemma TagText(name: string, value: string)
    requires '=' !in name
    ensures CutTag(name + "=" + value) == Some(Tag(Trim(name), Trim(value)))
  {
    var t := name + "=" + value;
    assert t == name + ("=" + value);
    IndexOfAfterFree(name, "=" + value, '=');
    assert t[..|name|] == name;
    assert t[|name| + 1..] == value;
  }

  /** A tag whose name and value hold no ';', have no white space at their ends, and whose name holds no '='. */
  predicate Plain(t: Tag) {
    '=' !in t.name && ';' !in t.name && ';' !in t.value && Trimmed(t.name) && Trimmed(t.value)
  }

  /** A tag as a record writes it after its ';': a space, the name, '=' and the value. */
  function TagPart(t: Tag): string {
    " " + t.name + "=" + t.value
  }

  /** Every tag written out. */
  function TagParts(tags: seq<Tag>): (ts: seq<string>)
    ensures |ts| == |tags|
    ensures forall k :: 0 <= k < |tags| ==> ts[k] == TagPart(tags[k])
  {
    if |tags| == 0 then [] else [TagPart(tags[0])] + TagParts(tags[1..])
  }

  /** The record made of a version and then the tags, after a ';' each. */
  function TagRecord(version: string, tags: seq<Tag>): string {
    Join([version] + TagParts(tags), ';')
  }

  /** A plain tag written out is cut back into itself, even when its value holds '='. */
  lemma TagPartCut(t: Tag)
    requires Plain(t)
    ensures ';' !in TagPart(t)
    ensures CutTag(TagPart(t)) == Some(t)
  {
    var pre := " " + t.name;
    assert '=' !in pre;
    TagText(pre, t.value);
    TrimmedTrim(t.value);
    TrimLeadingSpace(t.name);
  }

  /** The tags of a version followed by ';' and parts without ';' are those parts. */
  lemma TagsOfParts(version: string, parts: seq<string>)
    requires ';' !in version
    requires forall k :: 0 <= k < |parts| ==> ';' !in parts[k]
    ensures TagsOf(Join([version] + parts, ';')) == parts
  {
    SplitJoin([version] + parts, ';');
    assert ([version] + parts)[1..] == parts;
  }

  /** A record made of a version and parts without ';' starts with that version. */
  lemma JoinStartsWith(version: string, parts: seq<string>)
    ensures StartsWith(Join([version] + parts, ';'), version)
  {
    var v := Join([version] + parts, ';');
    if |parts| > 0 {
      assert ([version] + parts)[1..] == parts;
      assert v == version + [';'] + Join(parts, ';');
      assert v[..|version|] == version;
    } else {
      assert v == version;
    }
  }

  /**
   * A record written by TagRecord is recognised by its version and cut back into its
   * tags, in order.
   */
  lemma TagRecordParts(version: string, tags: seq<Tag>)
    requires ';' !in version
    requires forall k :: 0 <= k < |tags| ==> Plain(tags[k])
    ensures StartsWith(TagRecord(version, tags), version)
    ensures |PartsOf(TagRecord(version, tags))| == |tags|
    ensures forall k :: 0 <= k < |tags| ==> PartsOf(TagRecord(version, tags))[k] == Some(tags[k])
  {
    var ts := TagParts(tags);
    forall k | 0 <= k < |tags|
      ensures ';' !in ts[k] && CutTag(ts[k]) == Some(tags[k])
    {
      TagPartCut(tags[k]);
    }
    TagsOfParts(version, ts);
    JoinStartsWith(version, ts);
  }

  /** TagRecordParts for a record of one tag. */
  lemma OneTagRecord(version: string, t: Tag)
    requires ';' !in version && Plain(t)
    ensures StartsWith(TagRecord(version, [t]), version)
    ensures PartsOf(TagRecord(version, [t])) == [Some(t)]
  {
    TagRecordParts(version, [t]);
  }

  /** TagRecordParts for a record of two tags. */
  lemma TwoTagRecord(version: string, t: Tag, u: Tag)
    requires ';' !in version && Plain(t) && Plain(u)
    ensures StartsWith(TagRecord(version, [t, u]), version)
    ensures PartsOf(TagRecord(version, [t, u])) == [Some(t), Some(u)]
  {
    TagRecordParts(version, [t, u]);
  }

  /** TagRecordParts for a record of three tags. */
  lemma ThreeTagRecord(version: string, t: Tag, u: Tag, w: Tag)
    requires ';' !in version && Plain(t) && Plain(u) && Plain(w)
    ensures StartsWith(TagRecord(version, [t, u, w]), version)
    ensures PartsOf(TagRecord(version, [t, u, w])) == [Some(t), Some(u), Some(w)]
  {
    TagRecordParts(version, [t, u, w]);
  }
}
