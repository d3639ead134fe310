/**
 * SPF records as values: the qualifiers of section 4.6.2 of RFC 7208, the eight
 * mechanisms the parser knows, the directive record and the record itself, and the
 * parsing of one space-separated term (section 4.6.1 of RFC 7208, without modifiers).
 */
module SpfDirectives {
  import opened Wrappers
  import opened Errors
  import opened Platform
  import opened Text
  import opened SpfAddresses

  /** SpfQualifier, in the order of the qualifier characters + - ~ ?. */
  datatype SpfQualifier = Pass | Fail | SoftFail | Neutral

  datatype SpfMechanism = A | MX | Ptr | IP4 | IP6 | Exists | All | Include

  /**
   * SpfDirective: a qualifier and a mechanism, the target of an `include`, the record
   * a lookup found for it, and the address of an `ip4` or `ip6` mechanism.
   */
  datatype SpfDirective = SpfDirective(
    qualifier: SpfQualifier,
    mechanism: SpfMechanism,
    includeDomain: Option<string>,
    included: Option<SpfRecord>,
    ip4: Option<SpfAddress>,
    ip6: Option<SpfAddress>)

  datatype SpfRecord = SpfRecord(directives: seq<SpfDirective>)

  /** The qualifier characters, in SpfQualifier order. */
  const Qualifiers: seq<string> := ["+", "-", "~", "?"]

  /** The mechanism names, in SpfMechanism order. */
  const Mechanisms: seq<string> := ["a", "mx", "ptr", "ip4", "ip6", "exists", "all", "include"]

  function QualifierChar(q: SpfQualifier): (s: string)
    ensures s in Qualifiers
  {
    match q
    case Pass => "+"
    case Fail => "-"
    case SoftFail => "~"
    case Neutral => "?"
  }

  /** (SpfQualifier)Array.IndexOf(Qualifiers, s) */
  function QualifierOf(s: string): (q: SpfQualifier)
    requires s in Qualifiers
    ensures QualifierChar(q) == s
  {
    if s == "+" then Pass else if s == "-" then Fail else if s == "~" then SoftFail else Neutral
  }

  function MechanismName(m: SpfMechanism): (s: string)
    ensures s in Mechanisms
  {
    match m
    case A => "a"
    case MX => "mx"
    case Ptr => "ptr"
    case IP4 => "ip4"
    case IP6 => "ip6"
    case Exists => "exists"
    case All => "all"
    case Include => "include"
  }

  /** Enum.Parse(typeof(SpfMechanism), s, true) on one of the exact lower-case names. */
  function MechanismOf(s: string): (m: SpfMechanism)
    requires s in Mechanisms
    ensures MechanismName(m) == s
  {
    if s == "a" then A else if s == "mx" then MX else if s == "ptr" then Ptr
    else if s == "ip4" then IP4 else if s == "ip6" then IP6 else if s == "exists" then Exists
    else if s == "all" then All else Include
  }

  /** new SpfDirective(qualifier, mechanism): every other property null. */
  function NewDirective(qualifier: SpfQualifier, mechanism: SpfMechanism): (d: SpfDirective)
    ensures d.qualifier == qualifier && d.mechanism == mechanism
    ensures d.includeDomain.None? && d.included.None? && d.ip4.None? && d.ip6.None?
  {
    SpfDirective(qualifier, mechanism, None, None, None, None)
  }

  /**
   * ParseDirective: the mechanism must be one of the eight names exactly; an include
   * keeps its value verbatim, an ip4/ip6 value is parsed as an address, and the value
   * of any other mechanism is dropped.
   */
  function ParseDirective(lib: Library, qualifier: string, mechanism: string, value: string): (r: Result<SpfDirective, Error>)
    requires qualifier in Qualifiers
    ensures mechanism !in Mechanisms ==>
      r == Failure(SpfInvalid("Not a valid SPF record, '" + mechanism + "' is not a valid mechanism"))
    ensures r.Failure? && mechanism in Mechanisms ==>
      (mechanism == "ip4" || mechanism == "ip6") && r.error.RuntimeFailure?
    ensures r.Success? ==> QualifierChar(r.value.qualifier) == qualifier && MechanismName(r.value.mechanism) == mechanism
    ensures r.Success? ==> r.value.included.None?
    ensures r.Success? ==> r.value.includeDomain == (if mechanism == "include" then Some(value) else None)
    ensures r.Success? ==> (r.value.ip4.Some? <==> mechanism == "ip4") && (r.value.ip6.Some? <==> mechanism == "ip6")
    ensures r.Success? && mechanism == "ip4" ==> Parse(lib, value) == Success(r.value.ip4.value)
    ensures r.Success? && mechanism == "ip6" ==> Parse(lib, value) == Success(r.value.ip6.value)
  {
    if mechanism !in Mechanisms then
      Failure(SpfInvalid("Not a valid SPF record, '" + mechanism + "' is not a valid mechanism"))
    else
      var d := NewDirective(QualifierOf(qualifier), MechanismOf(mechanism));
      match d.mechanism
      case Include => Success(d.(includeDomain := Some(value)))
      case IP4 =>
        var address :- Parse(lib, value);
        Success(d.(ip4 := Some(address)))
      case IP6 =>
        var address :- Parse(lib, value);
        Success(d.(ip6 := Some(address)))
      case _ => Success(d)
  }

  /** The qualifier of a term: its first character if that is one of + - ~ ?, else "+". */
  function TermQualifier(term: string): (q: string)
    requires |term| > 0
    ensures q in Qualifiers
  {
    if term[..1] in Qualifiers then term[..1] else "+"
  }

  /** The term without its qualifier character. */
  function TermBody(term: string): string
    requires |term| > 0
  {
    if term[..1] in Qualifiers then term[1..] else term
  }

  /** The mechanism text: the body up to its first ':'. */
  function TermMechanism(term: string): (m: string)
    requires |term| > 0
    ensures ':' !in m
  {
    var body := TermBody(term);
    var i := IndexOf(body, ':');
    if i == -1 then body else body[..i]
  }

  /** The value text: the body after its first ':', or "" when it has none. */
  function TermValue(term: string): string
    requires |term| > 0
  {
    var body := TermBody(term);
    var i := IndexOf(body, ':');
    if i == -1 then "" else body[i + 1..]
  }

  /**
   * The body of ParseSpfRecord's loop for one term: qualifier, mechanism and value are
   * cut out of the term and handed to ParseDirective. An empty term (from a doubled or
   * trailing space) fails in Substring(0, 1).
   */
  function ParseTerm(lib: Library, term: string): (r: Result<SpfDirective, Error>)
    ensures |term| == 0 ==> r == Failure(RuntimeFailure(ArgumentOutOfRange))
    ensures r.Success? ==> |term| > 0 && QualifierChar(r.value.qualifier) == TermQualifier(term)
                           && MechanismName(r.value.mechanism) == TermMechanism(term)
  {
    if |term| == 0 then Failure(RuntimeFailure(ArgumentOutOfRange))
    else ParseDirective(lib, TermQualifier(term), TermMechanism(term), TermValue(term))
  }

  /** The text of a term as section 4.6.1 of RFC 7208 writes it: [qualifier] name [":" value]. */
  function TermText(q: Option<SpfQualifier>, m: SpfMechanism, value: Option<string>): string {
    (if q.Some? then QualifierChar(q.value) else "") + (MechanismName(m) + (if value.Some? then ":" + value.value else ""))
  }

  /** The directive that parsing a well-formed term gives, when that does not depend on an address. */
  function TermDirective(q: Option<SpfQualifier>, m: SpfMechanism, value: Option<string>): SpfDirective {
    var d := NewDirective(if q.Some? then q.value else Pass, m);
    if m == Include then d.(includeDomain := Some(if value.Some? then value.value else "")) else d
  }

  /** No mechanism name is empty, starts with a qualifier character or contains ':'. */
  lemma MechanismNameShape(m: SpfMechanism)
    ensures |MechanismName(m)| > 0 && MechanismName(m)[..1] !in Qualifiers && ':' !in MechanismName(m)
  {
    var name := MechanismName(m);
    assert name[..1] == [name[0]];
    assert name[0] in "aimpe";
  }

  /** A qualifier character, or none, in front of a body that does not start with one. */
  lemma QualifiedBody(qc: string, body: string)
    requires qc == "" || qc in Qualifiers
    requires |body| > 0 && body[..1] !in Qualifiers
    ensures TermQualifier(qc + body) == (if qc == "" then "+" else qc) && TermBody(qc + body) == body
  {
    var term := qc + body;
    if qc == "" {
      assert term == body;
    } else {
      assert term[..1] == qc;
      assert term[1..] == body;
    }
  }

  /** A name without ':' followed by nothing or by ':' and a value. */
  lemma NamedBody(name: string, value: Option<string>)
    requires ':' !in name
    ensures var body := name + (if value.Some? then ":" + value.value else "");
      var i := IndexOf(body, ':');
      (if i == -1 then body else body[..i]) == name
      && (if i == -1 then "" else body[i + 1..]) == (if value.Some? then value.value else "")
  {
    var tail := if value.Some? then ":" + value.value else "";
    var body := name + tail;
    if value.Some? {
      IndexOfAfterFree(name, tail, ':');
      assert body[..|name|] == name;
      assert body[|name| + 1..] == value.value;
    } else {
      assert body == name;
    }
  }

  /** A qualifier character or none, a name, and nothing or ':' and a value, cut apart again. */
  lemma TermParts(qc: string, name: string, value: Option<string>)
    requires qc == "" || qc in Qualifiers
    requires |name| > 0 && name[..1] !in Qualifiers && ':' !in name
    ensures var term := qc + (name + (if value.Some? then ":" + value.value else ""));
      |term| > 0
      && TermQualifier(term) == (if qc == "" then "+" else qc)
      && TermMechanism(term) == name
      && TermValue(term) == (if value.Some? then value.value else "")
  {
    var body := name + (if value.Some? then ":" + value.value else "");
    assert body[..1] == name[..1];
    QualifiedBody(qc, body);
    NamedBody(name, value);
  }

  /** A term written by TermText is cut into its own qualifier, mechanism name and value. */
  lemma TermTextParts(q: Option<SpfQualifier>, m: SpfMechanism, value: Option<string>)
    ensures var term := TermText(q, m, value);
      |term| > 0
      && TermQualifier(term) == QualifierChar(if q.Some? then q.value else Pass)
      && TermMechanism(term) == MechanismName(m)
      && TermValue(term) == (if value.Some? then value.value else "")
  {
    MechanismNameShape(m);
    TermParts(if q.Some? then QualifierChar(q.value) else "", MechanismName(m), value);
  }

  /**
   * Parsing a term written as [qualifier] name [":" value] gives that qualifier (Pass when
   * there is none) and that mechanism; an include keeps its value, or "" when there is
   * none, and the value of a, mx, ptr, exists and all is dropped.
   */
  lemma ParseTermText(lib: Library, q: Option<SpfQualifier>, m: SpfMechanism, value: Option<string>)
    requires m != IP4 && m != IP6
    ensures ParseTerm(lib, TermText(q, m, value)) == Success(TermDirective(q, m, value))
  {
    TermTextParts(q, m, value);
    var qv := if q.Some? then q.value else Pass;
    QualifierRoundTrip(qv);
    MechanismRoundTrip(m);
    var v := if value.Some? then value.value else "";
    assert ParseTerm(lib, TermText(q, m, value)) == ParseDirective(lib, QualifierChar(qv), MechanismName(m), v);
    DirectiveOfNames(lib, qv, m, v);
  }

  /** ParseDirective on the names of a qualifier and of a mechanism other than ip4 and ip6. */
  lemma DirectiveOfNames(lib: Library, q: SpfQualifier, m: SpfMechanism, v: string)
    requires m != IP4 && m != IP6
    ensures ParseDirective(lib, QualifierChar(q), MechanismName(m), v)
         == Success(if m == Include then NewDirective(q, m).(includeDomain := Some(v)) else NewDirective(q, m))
  {
    QualifierRoundTrip(q);
    MechanismRoundTrip(m);
    var d := NewDirective(q, m);
    assert ParseDirective(lib, QualifierChar(q), MechanismName(m), v)
        == if m == Include then Success(d.(includeDomain := Some(v))) else Success(d);
  }

  /** The character of a qualifier reads back as that qualifier. */
  lemma QualifierRoundTrip(q: SpfQualifier)
    ensures QualifierOf(QualifierChar(q)) == q
  {
    match q
    case Pass =>
    case Fail =>
    case SoftFail =>
    case Neutral =>
  }

  /** The name of a mechanism reads back as that mechanism. */
  lemma MechanismRoundTrip(m: SpfMechanism)
    ensures MechanismOf(MechanismName(m)) == m
  {
    match m
    case A =>
    case MX =>
    case Ptr =>
    case IP4 =>
    case IP6 =>
    case Exists =>
    case All =>
    case Include =>
  }

  /** Parsing an ip4 or ip6 term parses its value, or "", as an address. */
  lemma ParseAddressTermText(lib: Library, q: Option<SpfQualifier>, m: SpfMechanism, value: Option<string>)
    requires m == IP4 || m == IP6
    ensures var r := ParseTerm(lib, TermText(q, m, value));
      var a := Parse(lib, if value.Some? then value.value else "");
      (r.Success? <==> a.Success?)
      && (r.Success? ==> r.value == if m == IP4 then TermDirective(q, m, value).(ip4 := Some(a.value))
                                 else TermDirective(q, m, value).(ip6 := Some(a.value)))
  {
    TermTextParts(q, m, value);
    var term := TermText(q, m, value);
    var v := if value.Some? then value.value else "";
    var qc := QualifierChar(if q.Some? then q.value else Pass);
    QualifierRoundTrip(if q.Some? then q.value else Pass);
    MechanismRoundTrip(m);
    assert ParseTerm(lib, term) == ParseDirective(lib, qc, MechanismName(m), v);
  }
}
