/**
 * Properties of SPF record lookup: what the include walk changes in a record, where its
 * errors come from, how the shared counter stops a record that includes itself, and
 * the example records of the repository's tests.
 */
module SpfProperties {
  import opened Wrappers
  import opened Errors
  import opened Platform
  import opened Text
  import opened SpfAddresses
  import opened SpfDirectives
  import opened SpfChecking
  import opened DummyResolvers

  /** The include `d` became `e` by storing the record some lookup of its target gave. */
  ghost predicate Filled(txt: string -> seq<string>, parse: string -> Result<SpfRecord, Error>, d: SpfDirective, e: SpfDirective)
    requires HasTarget(d)
  {
    e.included.Some? && exists m: nat :: Resolve(txt, parse, d.includeDomain.value, m).result == Success(e.included.value)
  }

  /**
   * The directives of a successful include walk: those visited before it, then one per
   * directive in order, in which only `included` may differ, and every directive that is
   * not an include with a target kept as it was.
   */
  lemma {:induction false} IncludesKeep(txt: string -> seq<string>, parse: string -> Result<SpfRecord, Error>,
                                        done: seq<SpfDirective>, ds: seq<SpfDirective>, n: nat)
    requires ResolveIncludes(txt, parse, done, ds, n).result.Success?
    ensures var r := ResolveIncludes(txt, parse, done, ds, n).result.value;
      |r| == |done| + |ds| && r[..|done|] == done
    ensures var r := ResolveIncludes(txt, parse, done, ds, n).result.value;
      forall k :: 0 <= k < |ds| ==> r[|done| + k] == ds[k].(included := r[|done| + k].included)
    ensures var r := ResolveIncludes(txt, parse, done, ds, n).result.value;
      forall k :: 0 <= k < |ds| && !HasTarget(ds[k]) ==> r[|done| + k] == ds[k]
    decreases |ds|
  {
    if |ds| > 0 {
      var d := ds[0];
      var d': SpfDirective, m: nat;
      if HasTarget(d) {
        var sub := Resolve(txt, parse, d.includeDomain.value, n);
        d', m := d.(included := Some(sub.result.value)), sub.lookups + 1;
      } else {
        d', m := d, n;
      }
      assert ResolveIncludes(txt, parse, done, ds, n).result == ResolveIncludes(txt, parse, done + [d'], ds[1..], m).result;
      IncludesKeep(txt, parse, done + [d'], ds[1..], m);
      var r := ResolveIncludes(txt, parse, done, ds, n).result.value;
      assert r[..|done| + 1] == done + [d'];
      assert r[..|done|] == done && r[|done|] == d';
      forall k | 0 <= k < |ds| ensures r[|done| + k] == ds[k].(included := r[|done| + k].included) {
        if k > 0 { assert ds[1..][k - 1] == ds[k] && r[|done| + k] == r[|done + [d']| + (k - 1)]; }
      }
      forall k | 0 <= k < |ds| && !HasTarget(ds[k]) ensures r[|done| + k] == ds[k] {
        if k > 0 { assert ds[1..][k - 1] == ds[k] && r[|done| + k] == r[|done + [d']| + (k - 1)]; }
      }
    }
  }

  /**
   * In a successful include walk, every include with a target holds the record some
   * lookup of that target gave.
   */
  lemma {:induction false} IncludesFilled(txt: string -> seq<string>, parse: string -> Result<SpfRecord, Error>,
                                          done: seq<SpfDirective>, ds: seq<SpfDirective>, n: nat)
    requires ResolveIncludes(txt, parse, done, ds, n).result.Success?
    ensures var r := ResolveIncludes(txt, parse, done, ds, n).result.value;
      |r| == |done| + |ds| &&
      forall k :: 0 <= k < |ds| && HasTarget(ds[k]) ==> Filled(txt, parse, ds[k], r[|done| + k])
    decreases |ds|
  {
    IncludesKeep(txt, parse, done, ds, n);
    if |ds| > 0 {
      var d := ds[0];
      var d': SpfDirective, m: nat;
      if HasTarget(d) {
        var sub := Resolve(txt, parse, d.includeDomain.value, n);
        d', m := d.(included := Some(sub.result.value)), sub.lookups + 1;
      } else {
        d', m := d, n;
      }
      assert ResolveIncludes(txt, parse, done, ds, n).result == ResolveIncludes(txt, parse, done + [d'], ds[1..], m).result;
      IncludesFilled(txt, parse, done + [d'], ds[1..], m);
      IncludesKeep(txt, parse, done + [d'], ds[1..], m);
      var r := ResolveIncludes(txt, parse, done, ds, n).result.value;
      assert r[|done|] == d' by {
        assert r[..|done| + 1] == done + [d'];
      }
      forall k | 0 <= k < |ds| && HasTarget(ds[k]) ensures Filled(txt, parse, ds[k], r[|done| + k]) {
        if k > 0 {
          assert ds[1..][k - 1] == ds[k] && r[|done| + k] == r[|done + [d']| + (k - 1)];
        } else {
          assert Resolve(txt, parse, ds[0].includeDomain.value, n).result == Success(r[|done|].included.value);
        }
      }
    }
  }

  /**
   * GetSpfRecord changes only the `included` of the directives of the record it parsed:
   * it fills that of every include with a target and leaves every other directive as it
   * was parsed.
   */
  lemma ResolveAnnotates(txt: string -> seq<string>, parse: string -> Result<SpfRecord, Error>, domain: string, n: nat)
    requires Resolve(txt, parse, domain, n).result.Success?
    ensures var rec := Resolve(txt, parse, domain, n).result.value;
      var first := FirstWithPrefix(txt(domain), "v=spf1");
      first.Some? && parse(first.value).Success?
      && var ds := parse(first.value).value.directives;
      |rec.directives| == |ds|
      && (forall k :: 0 <= k < |ds| ==> rec.directives[k] == ds[k].(included := rec.directives[k].included))
      && (forall k :: 0 <= k < |ds| && !HasTarget(ds[k]) ==> rec.directives[k] == ds[k])
      && (forall k :: 0 <= k < |ds| && HasTarget(ds[k]) ==> Filled(txt, parse, ds[k], rec.directives[k]))
  {
    var first := FirstWithPrefix(txt(domain), "v=spf1");
    var ds := parse(first.value).value.directives;
    IncludesKeep(txt, parse, [], ds, n + 1);
    IncludesFilled(txt, parse, [], ds, n + 1);
    var r := ResolveIncludes(txt, parse, [], ds, n + 1).result.value;
    forall k | 0 <= k < |ds| ensures r[k] == r[0 + k] { }
  }

  /** ParseTerms keeps `included` empty when `acc` and every parsed term have it empty. */
  lemma {:induction false} ParseTermsFresh(parse: string -> Result<SpfDirective, Error>, acc: seq<SpfDirective>, terms: seq<string>)
    requires forall t :: parse(t).Success? ==> parse(t).value.included.None?
    requires forall d :: d in acc ==> d.included.None?
    requires ParseTerms(parse, acc, terms).Success?
    ensures forall d :: d in ParseTerms(parse, acc, terms).value ==> d.included.None?
    decreases |terms|
  {
    if |terms| > 0 {
      ParseTermsFresh(parse, acc + [parse(terms[0]).value], terms[1..]);
    }
  }

  /** A directive ParseDirective builds has no included record. */
  lemma TermParserFresh(lib: Library)
    ensures forall t :: TermParser(lib)(t).Success? ==> TermParser(lib)(t).value.included.None?
  {
  }

  /** Every directive ParseSpfRecord returns has no included record yet. */
  lemma ParsedIncludesNothing(lib: Library, value: string)
    requires ParseRecord(lib, value).Success?
    ensures forall d :: d in ParseRecord(lib, value).value.directives ==> d.included.None?
  {
    TermParserFresh(lib);
    ParseTermsFresh(TermParser(lib), [], Split(value, ' ')[1..]);
  }

  /**
   * A failed lookup fails with "Domain does not contain a SPF record", with the
   * exceeded-lookups error, or with the error of parsing some record: nested errors
   * are passed on unwrapped.
   */
  lemma {:induction false} ResolveErrors(txt: string -> seq<string>, parse: string -> Result<SpfRecord, Error>, domain: string, n: nat)
    ensures var l := Resolve(txt, parse, domain, n);
      l.result.Failure? ==>
        l.result.error == SpfInvalid("Domain does not contain a SPF record")
        || l.result.error == SpfInvalid(ExceedsMessage)
        || exists v :: parse(v) == Failure(l.result.error)
    decreases Budget(n + 1), 1, 0
  {
    var record := FirstWithPrefix(txt(domain), "v=spf1");
    if record.Some? && parse(record.value).Success? {
      IncludesErrors(txt, parse, [], parse(record.value).value.directives, n + 1);
    }
  }

  /** The errors of an include walk are those of the lookups it makes or the exceeded-lookups error. */
  lemma {:induction false} IncludesErrors(txt: string -> seq<string>, parse: string -> Result<SpfRecord, Error>,
                                          done: seq<SpfDirective>, ds: seq<SpfDirective>, n: nat)
    ensures var l := ResolveIncludes(txt, parse, done, ds, n);
      l.result.Failure? ==>
        l.result.error == SpfInvalid("Domain does not contain a SPF record")
        || l.result.error == SpfInvalid(ExceedsMessage)
        || exists v :: parse(v) == Failure(l.result.error)
    decreases Budget(n), 0, |ds|
  {
    if |ds| > 0 {
      var d := ds[0];
      if HasTarget(d) {
        if n < MaxLookups {
          var sub := Resolve(txt, parse, d.includeDomain.value, n);
          ResolveErrors(txt, parse, d.includeDomain.value, n);
          if sub.result.Success? {
            IncludesErrors(txt, parse, done + [d.(included := Some(sub.result.value))], ds[1..], sub.lookups + 1);
          }
        }
      } else {
        IncludesErrors(txt, parse, done + [d], ds[1..], n);
      }
    }
  }

  /**
   * Once the counter has reached MaxLookups, an include walk makes no query: it fails with
   * the exceeded-lookups error at the first include with a target, and keeps the
   * directives unchanged when there is none.
   */
  lemma {:induction false} ExhaustedRefusesIncludes(txt: string -> seq<string>, parse: string -> Result<SpfRecord, Error>,
                                                    done: seq<SpfDirective>, ds: seq<SpfDirective>, n: nat)
    requires n >= MaxLookups
    ensures var l := ResolveIncludes(txt, parse, done, ds, n);
      l.lookups == n && l.queries == []
      && ((exists k :: 0 <= k < |ds| && HasTarget(ds[k])) ==> l.result == Failure(SpfInvalid(ExceedsMessage)))
      && ((forall k :: 0 <= k < |ds| ==> !HasTarget(ds[k])) ==> l.result == Success(done + ds))
    decreases |ds|
  {
    if |ds| > 0 {
      if !HasTarget(ds[0]) {
        ExhaustedRefusesIncludes(txt, parse, done + [ds[0]], ds[1..], n);
        assert forall k :: 1 <= k < |ds| ==> ds[1..][k - 1] == ds[k];
        if exists k :: 0 <= k < |ds| && HasTarget(ds[k]) {
          var k :| 0 <= k < |ds| && HasTarget(ds[k]);
          assert HasTarget(ds[1..][k - 1]);
        }
        assert done + [ds[0]] + ds[1..] == done + ds;
      }
    } else {
      assert done + ds == done;
    }
  }

  /**
   * A domain whose SPF record includes the domain itself: from any counter the lookup
   * fails with the exceeded-lookups error, after querying that domain once per lookup
   * left (once when none is left) and leaving the counter at MaxLookups.
   */
  lemma {:induction false} SelfIncludeFails(txt: string -> seq<string>, parse: string -> Result<SpfRecord, Error>,
                                            domain: string, record: string, n: nat)
    requires FirstWithPrefix(txt(domain), "v=spf1") == Some(record)
    requires parse(record) == Success(SpfRecord([TermDirective(None, Include, Some(domain))]))
    ensures var l := Resolve(txt, parse, domain, n);
      l.result == Failure(SpfInvalid(ExceedsMessage))
      && l.lookups == (if n < MaxLookups then MaxLookups else n + 1)
      && |l.queries| == (if n < MaxLookups then MaxLookups - n else 1)
      && forall q :: q in l.queries ==> q == domain
    decreases Budget(n)
  {
    SelfIncludeUnfold(txt, parse, domain, record, n);
    var l := Resolve(txt, parse, domain, n);
    if n + 1 < MaxLookups {
      SelfIncludeFails(txt, parse, domain, record, n + 1);
      var sub := Resolve(txt, parse, domain, n + 1);
      assert l == Lookup(Failure(sub.result.error), sub.lookups, [domain] + sub.queries);
      assert |l.queries| == 1 + |sub.queries|;
      assert forall q :: q in l.queries ==> q == domain || q in sub.queries;
    } else {
      assert l == Lookup(Failure(SpfInvalid(ExceedsMessage)), n + 1, [domain]);
    }
  }

  /** A lookup of a domain whose record includes itself is one query followed by the lookup of the same domain one step on. */
  lemma SelfIncludeUnfold(txt: string -> seq<string>, parse: string -> Result<SpfRecord, Error>,
                          domain: string, record: string, n: nat)
    requires FirstWithPrefix(txt(domain), "v=spf1") == Some(record)
    requires parse(record) == Success(SpfRecord([TermDirective(None, Include, Some(domain))]))
    ensures var inc := TermDirective(None, Include, Some(domain));
      Resolve(txt, parse, domain, n)
        == if n + 1 >= MaxLookups then Lookup(Failure(SpfInvalid(ExceedsMessage)), n + 1, [domain])
           else
             var sub := Resolve(txt, parse, domain, n + 1);
             if sub.result.Failure? then Lookup(Failure(sub.result.error), sub.lookups, [domain] + sub.queries)
             else Lookup(Success(SpfRecord([inc.(included := Some(sub.result.value))])), sub.lookups + 1, [domain] + sub.queries)
  {
    var inc := TermDirective(None, Include, Some(domain));
    var parsed := parse(record);
    ResolveParsed(txt, parse, domain, n, record, parsed);
    assert parsed.value.directives == [inc] && HasTarget(inc) && inc.includeDomain.value == domain;
    OneInclude(txt, parse, inc, n + 1);
    if n + 1 >= MaxLookups {
      assert [domain] + [] == [domain];
    }
  }

  /** ResolveIncludes over a single include with a target. */
  lemma OneInclude(txt: string -> seq<string>, parse: string -> Result<SpfRecord, Error>, inc: SpfDirective, n: nat)
    requires HasTarget(inc)
    ensures var l := ResolveIncludes(txt, parse, [], [inc], n);
      var sub := Resolve(txt, parse, inc.includeDomain.value, n);
      l == if n >= MaxLookups then Lookup(Failure(SpfInvalid(ExceedsMessage)), n, [])
           else if sub.result.Failure? then Lookup(Failure(sub.result.error), sub.lookups, sub.queries)
           else Lookup(Success([inc.(included := Some(sub.result.value))]), sub.lookups + 1, sub.queries)
  {
    assert [inc][1..] == [];
    if n < MaxLookups {
      var sub := Resolve(txt, parse, inc.includeDomain.value, n);
      if sub.result.Success? {
        var inc' := inc.(included := Some(sub.result.value));
        assert [] + [inc'] == [inc'] && sub.queries + [] == sub.queries;
        assert ResolveIncludes(txt, parse, [inc'], [], sub.lookups + 1) == Lookup(Success([inc']), sub.lookups + 1, []);
      }
    }
  }

  /** ParseTerms on one term. */
  lemma ParseOneOfTerms(parse: string -> Result<SpfDirective, Error>, t: string)
    ensures ParseTerms(parse, [], [t]) == match parse(t) case Success(d) => Success([d]) case Failure(e) => Failure(e)
  {
    assert [t][1..] == [];
    if parse(t).Success? {
      assert [] + [parse(t).value] == [parse(t).value];
    }
  }

  /** The terms after the version of "v=spf1 " + term: that term alone. */
  lemma OneTermAfterVersion(term: string)
    requires ' ' !in term
    ensures Split("v=spf1 " + term, ' ')[1..] == [term]
  {
    assert "v=spf1" == ['v', '=', 's', 'p', 'f', '1'];
    assert "v=spf1 " + term == "v=spf1" + [' '] + term;
    SplitPair("v=spf1", term, ' ');
  }

  /** "include:" + domain parses to the include of that domain. */
  lemma IncludeTerm(lib: Library, domain: string)
    ensures TermParser(lib)("include:" + domain) == Success(TermDirective(None, Include, Some(domain)))
  {
    assert TermText(None, Include, Some(domain)) == "include:" + domain;
    ParseTermText(lib, None, Include, Some(domain));
  }

  /** A record with the version whose terms after it give `ds`. */
  lemma RecordOfTerms(parse: string -> Result<SpfDirective, Error>, value: string, r: Result<seq<SpfDirective>, Error>)
    requires StartsWith(value, "v=spf1") && ParseTerms(parse, [], Split(value, ' ')[1..]) == r
    ensures ParseRecordWith(parse, value) == if r.Success? then Success(SpfRecord(r.value)) else Failure(r.error)
  {
  }

  /** "v=spf1 include:" + domain parses to the one include of that domain. */
  lemma SelfIncludeRecord(lib: Library, domain: string)
    requires ' ' !in domain
    ensures ParseRecord(lib, "v=spf1 include:" + domain) == Success(SpfRecord([TermDirective(None, Include, Some(domain))]))
  {
    var term := "include:" + domain;
    IncludeRecordText(domain);
    IncludeTerm(lib, domain);
    OneTermAfterVersion(term);
    ParseOneOfTerms(TermParser(lib), term);
    RecordOfTerms(TermParser(lib), "v=spf1 " + term, Success([TermDirective(None, Include, Some(domain))]));
  }

  /** "v=spf1 include:" + domain is the version, a space, and the one term "include:" + domain. */
  lemma IncludeRecordText(domain: string)
    requires ' ' !in domain
    ensures "v=spf1 " + ("include:" + domain) == "v=spf1 include:" + domain
    ensures ' ' !in "include:" + domain
    ensures StartsWith("v=spf1 " + ("include:" + domain), "v=spf1")
  {
    var term := "include:" + domain;
    assert "v=spf1 " + "include:" == "v=spf1 include:";
    assert forall c :: c in term ==> c in "include:" || c in domain;
    assert ("v=spf1 " + term)[..6] == "v=spf1";
  }

  /** The message for a mechanism that is not one of the eight names. */
  function UnknownMechanismMessage(name: string): string {
    "Not a valid SPF record, '" + name + "' is not a valid mechanism"
  }

  /** A term naming an unknown mechanism after a qualifier does not parse. */
  lemma QualifiedUnknownTerm(lib: Library, name: string)
    requires name !in Mechanisms && |name| > 0 && name[..1] !in Qualifiers && ':' !in name
    ensures TermParser(lib)("-" + name) == Failure(SpfInvalid(UnknownMechanismMessage(name)))
  {
    assert TermQualifier("-" + name) == "-" && TermMechanism("-" + name) == name by {
      assert "-" + (name + "") == "-" + name;
      TermParts("-", name, None);
    }
  }

  /** A term naming an unknown mechanism with a value does not parse. */
  lemma UnknownTermWithValue(lib: Library, name: string)
    requires name !in Mechanisms && |name| > 0 && name[..1] !in Qualifiers && ':' !in name
    ensures TermParser(lib)(name + ":" + name) == Failure(SpfInvalid(UnknownMechanismMessage(name)))
  {
    assert TermQualifier(name + ":" + name) == "+" && TermMechanism(name + ":" + name) == name by {
      assert "" + (name + (":" + name)) == name + ":" + name;
      TermParts("", name, Some(name));
    }
  }

  /** A record without the version is rejected; so is the empty record of the repository's tests. */
  lemma NoVersionExample(lib: Library)
    ensures ParseRecord(lib, "") == Failure(SpfInvalid("Not a valid SPF record, does not contain a version"))
  {
  }

  /** A record whose only term is `term`, which does not parse, fails with that term's error. */
  lemma BadTermRecord(parse: string -> Result<SpfDirective, Error>, term: string, e: Error)
    requires ' ' !in term && parse(term) == Failure(e)
    ensures ParseRecordWith(parse, "v=spf1 " + term) == Failure(e)
  {
    assert ParseTerms(parse, [], Split("v=spf1 " + term, ' ')[1..]) == Failure(e) by {
      OneTermAfterVersion(term);
      ParseOneOfTerms(parse, term);
    }
    assert StartsWith("v=spf1 " + term, "v=spf1") by {
      assert ("v=spf1 " + term)[..6] == "v=spf1";
    }
    RecordOfTerms(parse, "v=spf1 " + term, Failure(e));
  }

  /**
   * Records whose one term names an unknown mechanism, such as "v=spf1 -boop" and
   * "v=spf1 boop:boop" of the repository's tests, are invalid.
   */
  lemma UnknownMechanismRecords(lib: Library, name: string)
    requires name !in Mechanisms && |name| > 0 && name[..1] !in Qualifiers && ':' !in name && ' ' !in name
    ensures ParseRecord(lib, "v=spf1 " + ("-" + name)) == Failure(SpfInvalid(UnknownMechanismMessage(name)))
    ensures ParseRecord(lib, "v=spf1 " + (name + ":" + name)) == Failure(SpfInvalid(UnknownMechanismMessage(name)))
  {
    QualifiedUnknownTerm(lib, name);
    UnknownTermWithValue(lib, name);
    BadTermRecord(TermParser(lib), "-" + name, SpfInvalid(UnknownMechanismMessage(name)));
    BadTermRecord(TermParser(lib), name + ":" + name, SpfInvalid(UnknownMechanismMessage(name)));
  }

  /** The name "boop" of the repository's tests is such a name. */
  lemma BoopIsUnknown()
    ensures "boop" !in Mechanisms && "boop"[..1] !in Qualifiers && ':' !in "boop" && ' ' !in "boop"
  {
    assert forall m :: m in Mechanisms ==> |m| != 4;
    assert "boop"[..1] == "b";
  }
}
