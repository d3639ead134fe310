/**
 * SpfCheck: parsing an SPF record into directives, and looking a record up with its
 * `include` targets resolved recursively under the limit of ten DNS lookups of
 * section 4.6.4 of RFC 7208.
 */
module SpfChecking {
  import opened Wrappers
  import opened Errors
  import opened Platform
  import opened Text
  import opened SpfAddresses
  import opened SpfDirectives
  import opened Resolvers

  /** The number of lookups one SpfCheck instance may make. */
  const MaxLookups: nat := 10

  const ExceedsMessage := "SPF record exceeds max lookups of 10"

  /**
   * The directives `parse` gives for `terms`, appended to `acc`, one per term; the first
   * term that does not parse decides the error. ParseSpfRecord uses it with
   * `t => ParseTerm(lib, t)`.
   */
  function ParseTerms(parse: string -> Result<SpfDirective, Error>, acc: seq<SpfDirective>, terms: seq<string>)
    : (r: Result<seq<SpfDirective>, Error>)
    ensures r.Success? ==> |r.value| == |acc| + |terms|
    decreases |terms|
  {
    if |terms| == 0 then Success(acc)
    else
      match parse(terms[0])
      case Failure(e) => Failure(e)
      case Success(d) => ParseTerms(parse, acc + [d], terms[1..])
  }

  /** ParseTerms keeps `acc` and adds the directive of every term, in the terms' order. */
  lemma {:induction false} ParseTermsInOrder(parse: string -> Result<SpfDirective, Error>, acc: seq<SpfDirective>, terms: seq<string>)
    requires ParseTerms(parse, acc, terms).Success?
    ensures var ds := ParseTerms(parse, acc, terms).value;
      ds[..|acc|] == acc && forall k :: 0 <= k < |terms| ==> parse(terms[k]) == Success(ds[|acc| + k])
    decreases |terms|
  {
    if |terms| > 0 {
      var d := parse(terms[0]).value;
      ParseTermsInOrder(parse, acc + [d], terms[1..]);
      var ds := ParseTerms(parse, acc, terms).value;
      assert ds[..|acc|] == (acc + [d])[..|acc|];
      forall k | 0 <= k < |terms| ensures parse(terms[k]) == Success(ds[|acc| + k]) {
        if k > 0 {
          assert terms[1..][k - 1] == terms[k];
        }
      }
    }
  }

  /** ParseTerms fails exactly when one of the terms does not parse, and then with that term's error. */
  lemma {:induction false} ParseTermsFailure(parse: string -> Result<SpfDirective, Error>, acc: seq<SpfDirective>, terms: seq<string>)
    ensures ParseTerms(parse, acc, terms).Failure? <==> exists k :: 0 <= k < |terms| && parse(terms[k]).Failure?
    ensures ParseTerms(parse, acc, terms).Failure? ==>
      exists k :: 0 <= k < |terms| && parse(terms[k]) == Failure(ParseTerms(parse, acc, terms).error)
    decreases |terms|
  {
    if |terms| > 0 && parse(terms[0]).Success? {
      var d := parse(terms[0]).value;
      ParseTermsFailure(parse, acc + [d], terms[1..]);
      assert forall k :: 1 <= k < |terms| ==> terms[1..][k - 1] == terms[k];
      if exists k :: 0 <= k < |terms| && parse(terms[k]).Failure? {
        var k :| 0 <= k < |terms| && parse(terms[k]).Failure?;
        assert terms[1..][k - 1] == terms[k];
      }
    }
  }

  /** The term parser ParseSpfRecord applies to each term. */
  function TermParser(lib: Library): string -> Result<SpfDirective, Error> {
    t => ParseTerm(lib, t)
  }

  /**
   * ParseSpfRecord as a function of the term parser: a record must start with "v=spf1";
   * the text up to the first space is dropped, and every other space-separated term
   * gives one directive.
   */
  function ParseRecordWith(parse: string -> Result<SpfDirective, Error>, value: string): (r: Result<SpfRecord, Error>)
    ensures !StartsWith(value, "v=spf1") ==> r == Failure(SpfInvalid("Not a valid SPF record, does not contain a version"))
    ensures r.Success? ==> StartsWith(value, "v=spf1") && |r.value.directives| == |Split(value, ' ')| - 1
  {
    if !StartsWith(value, "v=spf1") then Failure(SpfInvalid("Not a valid SPF record, does not contain a version"))
    else
      var ds :- ParseTerms(parse, [], Split(value, ' ')[1..]);
      Success(SpfRecord(ds))
  }

  /** ParseSpfRecord: ParseRecordWith the term parser of the library. */
  function ParseRecord(lib: Library, value: string): (r: Result<SpfRecord, Error>)
    ensures !StartsWith(value, "v=spf1") ==> r == Failure(SpfInvalid("Not a valid SPF record, does not contain a version"))
    ensures r.Success? ==> StartsWith(value, "v=spf1") && |r.value.directives| == |Split(value, ' ')| - 1
  {
    ParseRecordWith(TermParser(lib), value)
  }

  /** ParseTerms over the terms after the first: the k-th directive comes from term k + 1. */
  lemma TermsAfterFirst(parse: string -> Result<SpfDirective, Error>, terms: seq<string>)
    requires |terms| >= 1
    ensures var r := ParseTerms(parse, [], terms[1..]);
      (r.Success? <==> forall k :: 1 <= k < |terms| ==> parse(terms[k]).Success?)
      && (r.Success? ==> forall k :: 1 <= k < |terms| ==> parse(terms[k]) == Success(r.value[k - 1]))
      && (r.Failure? ==> exists k :: 1 <= k < |terms| && parse(terms[k]) == Failure(r.error))
  {
    var tail := terms[1..];
    ParseTermsFailure(parse, [], tail);
    assert forall k :: 1 <= k < |terms| ==> tail[k - 1] == terms[k];
    if ParseTerms(parse, [], tail).Success? {
      ParseTermsInOrder(parse, [], tail);
    } else {
      var k :| 0 <= k < |tail| && parse(tail[k]) == Failure(ParseTerms(parse, [], tail).error);
      assert parse(terms[k + 1]) == parse(tail[k]);
    }
  }

  /**
   * The directives of a parsed record are those of its space-separated terms after the
   * first, in order, empty terms included; the record fails to parse exactly when one
   * of those terms does, with that term's error, or when it does not start with "v=spf1".
   */
  lemma ParseRecordTerms(lib: Library, value: string)
    ensures var r := ParseRecord(lib, value);
      var terms := Split(value, ' ');
      (r.Success? <==> StartsWith(value, "v=spf1") && forall k :: 1 <= k < |terms| ==> ParseTerm(lib, terms[k]).Success?)
      && (r.Success? ==> forall k :: 1 <= k < |terms| ==> ParseTerm(lib, terms[k]) == Success(r.value.directives[k - 1]))
      && (r.Failure? && StartsWith(value, "v=spf1") ==>
            exists k :: 1 <= k < |terms| && ParseTerm(lib, terms[k]) == Failure(r.error))
  {
    if StartsWith(value, "v=spf1") {
      VersionedRecordTerms(lib, value);
    }
  }

  /** ParseRecordTerms for a record that starts with the version. */
  lemma VersionedRecordTerms(lib: Library, value: string)
    requires StartsWith(value, "v=spf1")
    ensures var r := ParseRecord(lib, value);
      var terms := Split(value, ' ');
      (r.Success? <==> forall k :: 1 <= k < |terms| ==> ParseTerm(lib, terms[k]).Success?)
      && (r.Success? ==> forall k :: 1 <= k < |terms| ==> ParseTerm(lib, terms[k]) == Success(r.value.directives[k - 1]))
      && (r.Failure? ==> exists k :: 1 <= k < |terms| && ParseTerm(lib, terms[k]) == Failure(r.error))
  {
    RecordOfTerms(lib, value);
    LibTermsAfterFirst(lib, Split(value, ' '), ParseRecord(lib, value));
  }

  /** A record that starts with the version is the outcome of parsing its terms after the first. */
  lemma RecordOfTerms(lib: Library, value: string)
    requires StartsWith(value, "v=spf1")
    ensures var sub := ParseTerms(TermParser(lib), [], Split(value, ' ')[1..]);
      ParseRecord(lib, value) == if sub.Success? then Success(SpfRecord(sub.value)) else Failure(sub.error)
  {
    var sub := ParseTerms(TermParser(lib), [], Split(value, ' ')[1..]);
    if sub.Success? {
      assert ParseRecord(lib, value) == Success(SpfRecord(sub.value));
    } else {
      assert ParseRecord(lib, value) == Failure(sub.error);
    }
  }

  /** TermsAfterFirst for the term parser of a library, the directives making up the record `r`. */
  lemma LibTermsAfterFirst(lib: Library, terms: seq<string>, r: Result<SpfRecord, Error>)
    requires |terms| >= 1
    requires var sub := ParseTerms(TermParser(lib), [], terms[1..]);
      r == if sub.Success? then Success(SpfRecord(sub.value)) else Failure(sub.error)
    ensures (r.Success? <==> forall k :: 1 <= k < |terms| ==> ParseTerm(lib, terms[k]).Success?)
      && (r.Success? ==> forall k :: 1 <= k < |terms| ==> ParseTerm(lib, terms[k]) == Success(r.value.directives[k - 1]))
      && (r.Failure? ==> exists k :: 1 <= k < |terms| && ParseTerm(lib, terms[k]) == Failure(r.error))
  {
    TermsAfterFirst(TermParser(lib), terms);
    assert forall k :: 1 <= k < |terms| ==> TermParser(lib)(terms[k]) == ParseTerm(lib, terms[k]);
  }

  /**
   * The body of ParseSpfRecord's loop for one term: the qualifier character is cut off
   * when there is one, then the mechanism before the first ':' and the value after it.
   */
  method ParseOneTerm(lib: Library, directive: string) returns (r: Result<SpfDirective, Error>)
    ensures r == ParseTerm(lib, directive)
  {
    if |directive| == 0 {
      return Failure(RuntimeFailure(ArgumentOutOfRange));
    }
    var body := directive;
    var qualifier := directive[..1];
    if qualifier in Qualifiers {
      body := directive[1..];
    } else {
      qualifier := "+";
    }
    assert qualifier == TermQualifier(directive) && body == TermBody(directive);
    var index := IndexOf(body, ':');
    var mechanism := body;
    var val := "";
    if index != -1 {
      val := body[index + 1..];
      mechanism := body[..index];
    }
    assert mechanism == TermMechanism(directive) && val == TermValue(directive);
    return ParseDirective(lib, qualifier, mechanism, val);
  }

  /** SpfCheck.ParseSpfRecord: the loop over the terms after the version. */
  method ParseSpfRecord(lib: Library, value: string) returns (r: Result<SpfRecord, Error>)
    ensures r == ParseRecord(lib, value)
  {
    if !StartsWith(value, "v=spf1") {
      return Failure(SpfInvalid("Not a valid SPF record, does not contain a version"));
    }
    var split := Split(value, ' ')[1..];
    var directives: seq<SpfDirective> := [];
    var n := 0;
    while n < |split|
      invariant 0 <= n <= |split|
      invariant ParseTerms(TermParser(lib), [], split) == ParseTerms(TermParser(lib), directives, split[n..])
    {
      assert split[n..][0] == split[n] && split[n..][1..] == split[n + 1..];
      var parsed := ParseOneTerm(lib, split[n]);
      assert TermParser(lib)(split[n]) == parsed;
      if parsed.Failure? {
        return Failure(parsed.error);
      }
      directives := directives + [parsed.value];
      n := n + 1;
    }
    return Success(SpfRecord(directives));
  }

  /** A lookup's outcome together with the lookup counter after it and the TXT queries it made. */
  datatype Lookup<T> = Lookup(result: Result<T, Error>, lookups: nat, queries: seq<string>)

  /** The lookups left before the counter reaches MaxLookups. */
  function Budget(n: nat): nat {
    if n < MaxLookups then MaxLookups - n else 0
  }

  /** An include directive with a target (GetSpfRecord skips an include whose target is null). */
  predicate HasTarget(d: SpfDirective) {
    d.mechanism == Include && d.includeDomain.Some?
  }

  /** The record parser GetSpfRecord uses: ParseSpfRecord. */
  function RecordParser(lib: Library): string -> Result<SpfRecord, Error> {
    v => ParseRecord(lib, v)
  }

  /**
   * GetSpfRecord(domain) made with the lookup counter at `n`: one TXT query for `domain`
   * (the counter goes up by one), the first record starting with "v=spf1" parsed, and its
   * includes resolved in order. It makes at most MaxLookups - n queries (one when the
   * counter is already spent), and on success the counter has gone up by one per query
   * and one per include filled.
   */
  function Resolve(txt: string -> seq<string>, parse: string -> Result<SpfRecord, Error>, domain: string, n: nat)
    : (l: Lookup<SpfRecord>)
    ensures l.lookups >= n + |l.queries| && |l.queries| >= 1 && l.queries[0] == domain
    ensures |l.queries| <= (if n < MaxLookups then MaxLookups - n else 1)
    ensures l.result.Success? ==> l.lookups == n + 2 * |l.queries| - 1
    decreases Budget(n + 1), 1, 0
  {
    var record := FirstWithPrefix(txt(domain), "v=spf1");
    if record.None? then Lookup(Failure(SpfInvalid("Domain does not contain a SPF record")), n + 1, [domain])
    else
      match parse(record.value)
      case Failure(e) => Lookup(Failure(e), n + 1, [domain])
      case Success(parsed) =>
        var sub := ResolveIncludes(txt, parse, [], parsed.directives, n + 1);
        Lookup(if sub.result.Success? then Success(SpfRecord(sub.result.value)) else Failure(sub.result.error),
               sub.lookups, [domain] + sub.queries)
  }

  /**
   * The loop of GetSpfRecord over the directives `ds` still to visit, after the visited
   * ones `done`, with the counter at `n`: each include with a target is refused once the
   * counter has reached MaxLookups, and otherwise looked up, after which the counter goes
   * up by one and the record found is stored in the directive. An error from a nested
   * lookup ends the loop as it is.
   */
  function ResolveIncludes(txt: string -> seq<string>, parse: string -> Result<SpfRecord, Error>, done: seq<SpfDirective>, ds: seq<SpfDirective>, n: nat)
    : (l: Lookup<seq<SpfDirective>>)
    ensures l.lookups >= n + |l.queries|
    ensures |l.queries| <= Budget(n)
    ensures l.result.Success? ==> l.lookups == n + 2 * |l.queries|
    decreases Budget(n), 0, |ds|
  {
    if |ds| == 0 then Lookup(Success(done), n, [])
    else
      var d := ds[0];
      if HasTarget(d) then
        if n >= MaxLookups then Lookup(Failure(SpfInvalid(ExceedsMessage)), n, [])
        else
          var sub := Resolve(txt, parse, d.includeDomain.value, n);
          if sub.result.Failure? then Lookup(Failure(sub.result.error), sub.lookups, sub.queries)
          else
            var rest := ResolveIncludes(txt, parse, done + [d.(included := Some(sub.result.value))], ds[1..], sub.lookups + 1);
            Lookup(rest.result, rest.lookups, sub.queries + rest.queries)
      else ResolveIncludes(txt, parse, done + [d], ds[1..], n)
  }

  /** A lookup with the queries `qs` made in front of its own. */
  function After<T>(qs: seq<string>, l: Lookup<T>): Lookup<T> {
    Lookup(l.result, l.lookups, qs + l.queries)
  }

  /** Resolve when the name has no SPF record. */
  lemma ResolveMissing(txt: string -> seq<string>, parse: string -> Result<SpfRecord, Error>, domain: string, n: nat)
    requires FirstWithPrefix(txt(domain), "v=spf1").None?
    ensures Resolve(txt, parse, domain, n) == Lookup(Failure(SpfInvalid("Domain does not contain a SPF record")), n + 1, [domain])
  {
  }

  /** Resolve when the record found does not parse. */
  lemma ResolveUnparsed(txt: string -> seq<string>, parse: string -> Result<SpfRecord, Error>, domain: string, n: nat,
                        record: string, e: Error)
    requires FirstWithPrefix(txt(domain), "v=spf1") == Some(record) && parse(record) == Failure(e)
    ensures Resolve(txt, parse, domain, n) == Lookup(Failure(e), n + 1, [domain])
  {
  }

  /** Resolve once the record parser has given its outcome for the record found. */
  lemma ResolveParsed(txt: string -> seq<string>, parse: string -> Result<SpfRecord, Error>, domain: string, n: nat,
                      record: string, parsed: Result<SpfRecord, Error>)
    requires FirstWithPrefix(txt(domain), "v=spf1") == Some(record) && parse(record) == parsed
    ensures var l := Resolve(txt, parse, domain, n);
      parsed.Failure? ==> l == Lookup(Failure(parsed.error), n + 1, [domain])
    ensures parsed.Success? ==>
      var l := Resolve(txt, parse, domain, n);
      var sub := ResolveIncludes(txt, parse, [], parsed.value.directives, n + 1);
      l == Lookup(if sub.result.Success? then Success(SpfRecord(sub.result.value)) else Failure(sub.result.error),
                    sub.lookups, [domain] + sub.queries)
  {
  }

  /**
   * Resolve once the directives of the parsed record are resolved to `ds` with the
   * counter at `m`, the names looked up being logged after `before` as `log`.
   */
  lemma ResolveResolved(txt: string -> seq<string>, parse: string -> Result<SpfRecord, Error>, domain: string, n: nat,
                        record: string, parsed: SpfRecord, ds: Result<seq<SpfDirective>, Error>, m: nat,
                        before: seq<string>, log: seq<string>)
    requires FirstWithPrefix(txt(domain), "v=spf1") == Some(record) && parse(record) == Success(parsed)
    requires var sub := ResolveIncludes(txt, parse, [], parsed.directives, n + 1);
      ds == sub.result && m == sub.lookups && log == (before + [domain]) + sub.queries
    ensures var l := Resolve(txt, parse, domain, n);
      l.result == (if ds.Success? then Success(SpfRecord(ds.value)) else Failure(ds.error)) &&
      l.lookups == m && log == before + l.queries
  {
    LogAppend(before, [domain], ResolveIncludes(txt, parse, [], parsed.directives, n + 1).queries);
  }

  /** Logging no names leaves the log as it is. */
  lemma LogNothing(log: seq<string>)
    ensures log + [] == log
  {
  }

  /** Names logged in two steps are logged as one step. */
  lemma LogAppend(log: seq<string>, a: seq<string>, b: seq<string>)
    ensures (log + a) + b == log + (a + b)
  {
  }

  /** Queries put in front twice are put in front at once. */
  lemma AfterAfter<T>(a: seq<string>, b: seq<string>, l: Lookup<T>)
    ensures After(a, After(b, l)) == After(a + b, l)
  {
    assert a + (b + l.queries) == (a + b) + l.queries;
  }

  /** ResolveIncludes at a directive that is not an include with a target. */
  lemma IncludesSkip(txt: string -> seq<string>, parse: string -> Result<SpfRecord, Error>, done: seq<SpfDirective>, ds: seq<SpfDirective>, n: nat)
    requires |ds| > 0 && !HasTarget(ds[0])
    ensures ResolveIncludes(txt, parse, done, ds, n) == ResolveIncludes(txt, parse, done + [ds[0]], ds[1..], n)
  {
  }

  /** ResolveIncludes at an include with a target once the counter is spent: refused without a query. */
  lemma IncludesRefused(txt: string -> seq<string>, parse: string -> Result<SpfRecord, Error>, done: seq<SpfDirective>, ds: seq<SpfDirective>, n: nat)
    requires |ds| > 0 && HasTarget(ds[0]) && n >= MaxLookups
    ensures ResolveIncludes(txt, parse, done, ds, n) == Lookup(Failure(SpfInvalid(ExceedsMessage)), n, [])
  {
  }

  /** ResolveIncludes at an include with a target whose lookup fails while the counter is not spent. */
  lemma IncludeFailed(txt: string -> seq<string>, parse: string -> Result<SpfRecord, Error>, done: seq<SpfDirective>, ds: seq<SpfDirective>, n: nat,
                      e: Error, m: nat, qs: seq<string>)
    requires |ds| > 0 && HasTarget(ds[0]) && n < MaxLookups
    requires var sub := Resolve(txt, parse, ds[0].includeDomain.value, n);
      sub.result == Failure(e) && m == sub.lookups && qs == sub.queries
    ensures ResolveIncludes(txt, parse, done, ds, n) == Lookup(Failure(e), m, qs)
  {
  }

  /**
   * ResolveIncludes at an include `d` with a target whose lookup gives `record` while the
   * counter is not spent: the record is stored, the counter goes up once more to `m` and
   * the nested lookup's queries `qs` come first.
   */
  lemma IncludeFilled(txt: string -> seq<string>, parse: string -> Result<SpfRecord, Error>, done: seq<SpfDirective>, ds: seq<SpfDirective>, n: nat,
                      d: SpfDirective, record: SpfRecord, m: nat, qs: seq<string>)
    requires |ds| > 0 && ds[0] == d && HasTarget(d) && n < MaxLookups
    requires var sub := Resolve(txt, parse, d.includeDomain.value, n);
      sub.result == Success(record) && m == sub.lookups + 1 && qs == sub.queries
    ensures ResolveIncludes(txt, parse, done, ds, n)
      == After(qs, ResolveIncludes(txt, parse, done + [d.(included := Some(record))], ds[1..], m))
  {
  }

  /**
   * SpfCheck: a resolver and the lookup counter `_lookups`, shared by every call on the
   * instance and never reset. The ghost `queried` logs the TXT names looked up, in order.
   */
  class SpfCheck {
    const resolver: Resolver
    const lib: Library
    var lookups: nat
    ghost var queried: seq<string>

    constructor (resolver: Resolver, lib: Library)
      ensures this.resolver == resolver && this.lib == lib
      ensures lookups == 0 && queried == []
    {
      this.resolver := resolver;
      this.lib := lib;
      lookups := 0;
      queried := [];
    }

    /**
     * SpfCheck.GetSpfRecord: Resolve at the instance's counter, which it leaves where
     * Resolve ends, having queried the names Resolve queries.
     */
    method GetSpfRecord(domain: string) returns (r: Result<SpfRecord, Error>)
      modifies this
      ensures var l := Resolve(resolver.text, RecordParser(lib), domain, old(lookups));
        r == l.result && lookups == l.lookups && queried == old(queried) + l.queries
      decreases Budget(lookups + 1), 3
    {
      ghost var n0, q0 := lookups, queried;
      var records := resolver.text(domain);
      queried := queried + [domain];
      lookups := lookups + 1;
      ghost var q1 := queried;
      var record := FirstWithPrefix(records, "v=spf1");
      if record.None? {
        ResolveMissing(resolver.text, RecordParser(lib), domain, n0);
        return Failure(SpfInvalid("Domain does not contain a SPF record"));
      }
      var parsed := ParseSpfRecord(lib, record.value);
      if parsed.Failure? {
        ResolveUnparsed(resolver.text, RecordParser(lib), domain, n0, record.value, parsed.error);
        return Failure(parsed.error);
      }
      assert lookups == n0 + 1 && queried == q1;
      var directives := ResolveDirectives(parsed.value.directives);
      ResolveResolved(resolver.text, RecordParser(lib), domain, n0, record.value, parsed.value,
                      directives, lookups, q0, queried);
      if directives.Failure? {
        return Failure(directives.error);
      }
      return Success(SpfRecord(directives.value));
    }

    /**
     * The foreach loop of GetSpfRecord over the parsed directives: ResolveIncludes from the
     * instance's counter, storing each included record in its directive.
     */
    method ResolveDirectives(ds: seq<SpfDirective>) returns (r: Result<seq<SpfDirective>, Error>)
      modifies this
      ensures var l := ResolveIncludes(resolver.text, RecordParser(lib), [], ds, old(lookups));
        r == l.result && lookups == l.lookups && queried == old(queried) + l.queries
      decreases Budget(lookups), 2
    {
      ghost var n1 := lookups;
      ghost var txt, parse := resolver.text, RecordParser(lib);
      ghost var made: seq<string> := [];
      var directives := ds;
      var i := 0;
      while i < |directives|
        invariant 0 <= i <= |directives| == |ds|
        invariant lookups >= n1
        invariant directives[i..] == ds[i..]
        invariant queried == old(queried) + made
        invariant ResolveIncludes(txt, parse, [], ds, n1) == After(made, ResolveIncludes(txt, parse, directives[..i], ds[i..], lookups))
        decreases |directives| - i
      {
        var directive := directives[i];
        ghost var before := ResolveIncludes(txt, parse, directives[..i], ds[i..], lookups);
        var visited, step := VisitDirective(directives[..i], ds[i..], directive);
        if visited.Failure? {
          assert before == Lookup(Failure(visited.error), lookups, step);
          LogAppend(old(queried), made, step);
          made := made + step;
          return Failure(visited.error);
        }
        ghost var next := ResolveIncludes(txt, parse, directives[..i] + [visited.value], ds[i + 1..], lookups);
        assert before == After(step, next) by {
          assert ds[i..][1..] == ds[i + 1..];
        }
        AfterAfter(made, step, next);
        LogAppend(old(queried), made, step);
        assert directives[..i] + [visited.value] == directives[i := visited.value][..i + 1];
        directives := directives[i := visited.value];
        made := made + step;
        i := i + 1;
      }
      assert directives[..i] == directives;
      return Success(directives);
    }

    /**
     * One pass of GetSpfRecord's loop, at the directive `d` that heads `rest`: an include
     * with a target is refused once the counter is spent, and otherwise looked up, after
     * which the counter goes up once more and the record is stored in the directive. The
     * names it queries are `made`.
     */
    method VisitDirective(ghost done: seq<SpfDirective>, ghost rest: seq<SpfDirective>, d: SpfDirective)
      returns (r: Result<SpfDirective, Error>, ghost made: seq<string>)
      requires |rest| > 0 && rest[0] == d
      modifies this
      ensures lookups >= old(lookups)
      ensures queried == old(queried) + made
      ensures r.Success? ==> r.value == d.(included := r.value.included) && (!HasTarget(d) ==> r.value == d)
      ensures r.Failure? ==>
        ResolveIncludes(resolver.text, RecordParser(lib), done, rest, old(lookups)) == Lookup(Failure(r.error), lookups, made)
      ensures r.Success? ==>
        ResolveIncludes(resolver.text, RecordParser(lib), done, rest, old(lookups))
          == After(made, ResolveIncludes(resolver.text, RecordParser(lib), done + [r.value], rest[1..], lookups))
      decreases Budget(lookups), 1
    {
      made := [];
      if d.mechanism == Include && d.includeDomain.Some? {
        if lookups >= MaxLookups {
          IncludesRefused(resolver.text, RecordParser(lib), done, rest, lookups);
          LogNothing(queried);
          return Failure(SpfInvalid(ExceedsMessage)), [];
        }
        ghost var n := lookups;
        ghost var l := Resolve(resolver.text, RecordParser(lib), d.includeDomain.value, n);
        var included := GetSpfRecord(d.includeDomain.value);
        made := l.queries;
        if included.Failure? {
          IncludeFailed(resolver.text, RecordParser(lib), done, rest, n, included.error, lookups, made);
          return Failure(included.error), made;
        }
        lookups := lookups + 1;
        IncludeFilled(resolver.text, RecordParser(lib), done, rest, n, d, included.value, lookups, made);
        return Success(d.(included := Some(included.value))), made;
      }
      IncludesSkip(resolver.text, RecordParser(lib), done, rest, lookups);
      assert After([], ResolveIncludes(resolver.text, RecordParser(lib), done + [d], rest[1..], lookups))
        == ResolveIncludes(resolver.text, RecordParser(lib), done + [d], rest[1..], lookups);
      LogNothing(queried);
      return Success(d), [];
    }
  }
}
