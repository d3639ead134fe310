/**
 * What the JSON resolver's post-processing promises: the type filter keeps the answers
 * of one type in their order, a TXT datum of several quoted character-strings is joined
 * into one text (the synchronous lookup) or keeps its separators (the asynchronous
 * one), and an MX datum gives its exchange host, which is what the wire codec's MX text
 * carries after the preference.
 */
module DoHProperties {
  import opened Wrappers
  import opened Errors
  import opened Platform
  import opened Text
  import opened DnsMessages
  import opened DnsProperties
  import opened DoHResolvers

  /** The filter distributes over concatenation: the answers of a type, in answer order. */
  lemma {:induction false} OfTypeAppend(xs: seq<Answer>, ys: seq<Answer>, rtype: int)
    ensures OfType(xs + ys, rtype) == OfType(xs, rtype) + OfType(ys, rtype)
    decreases |xs|
  {
    if |xs| == 0 {
      assert xs + ys == ys;
    } else {
      assert (xs + ys)[0] == xs[0];
      assert (xs + ys)[1..] == xs[1..] + ys;
      OfTypeAppend(xs[1..], ys, rtype);
    }
  }

  /** A single answer is kept exactly when it has the type. */
  lemma OfTypeOne(a: Answer, rtype: int)
    ensures OfType([a], rtype) == if a.rtype == rtype then [a] else []
  {
    assert [a][1..] == [];
  }

  lemma {:induction false} CleanTextsAppend(xs: seq<Answer>, ys: seq<Answer>)
    ensures CleanTexts(xs + ys) == CleanTexts(xs) + CleanTexts(ys)
    decreases |xs|
  {
    if |xs| == 0 {
      assert xs + ys == ys;
    } else {
      assert (xs + ys)[0] == xs[0];
      assert (xs + ys)[1..] == xs[1..] + ys;
      CleanTextsAppend(xs[1..], ys);
    }
  }

  /** The TXT texts of two answer lists one after the other are the texts of each, in order. */
  lemma TextRecordsAppend(xs: seq<Answer>, ys: seq<Answer>, status: int)
    ensures TextRecords(Rootobject(status, Some(xs + ys)))
         == TextRecords(Rootobject(status, Some(xs))) + TextRecords(Rootobject(status, Some(ys)))
  {
    OfTypeAppend(xs, ys, JsonTypeTXT);
    CleanTextsAppend(OfType(xs, JsonTypeTXT), OfType(ys, JsonTypeTXT));
  }

  /** The character-strings of a TXT datum without their outer quotes: separated by `" "`. */
  function Quoted(fragments: seq<string>): string
    requires |fragments| >= 1
  {
    if |fragments| == 1 then fragments[0] else fragments[0] + "\" \"" + Quoted(fragments[1..])
  }

  /** A TXT datum of several character-strings as the JSON reply writes it: each one quoted, separated by a space. */
  function TxtData(fragments: seq<string>): string
    requires |fragments| >= 1
  {
    "\"" + Quoted(fragments) + "\""
  }

  /** Character-strings that are not empty and hold no quote. */
  predicate PlainFragments(fragments: seq<string>) {
    |fragments| >= 1 && forall k :: 0 <= k < |fragments| ==> |fragments[k]| > 0 && '"' !in fragments[k]
  }

  /** The quoted text neither starts nor ends with a quote. */
  lemma {:induction false} QuotedEnds(fragments: seq<string>)
    requires PlainFragments(fragments)
    ensures |Quoted(fragments)| > 0
    ensures !IsQuote(Quoted(fragments)[0]) && !IsQuote(Quoted(fragments)[|Quoted(fragments)| - 1])
    decreases |fragments|
  {
    if |fragments| > 1 {
      var rest := fragments[1..];
      assert forall k :: 0 <= k < |rest| ==> rest[k] == fragments[k + 1];
      QuotedEnds(rest);
      var q := Quoted(fragments);
      assert q == fragments[0] + ("\" \"" + Quoted(rest));
      assert q[0] == fragments[0][0];
      assert q[|q| - 1] == Quoted(rest)[|Quoted(rest)| - 1];
      assert fragments[0][0] in fragments[0];
    } else {
      assert fragments[0][0] in fragments[0];
      assert fragments[0][|fragments[0]| - 1] in fragments[0];
    }
  }

  /** TrimStart drops one leading quote in front of a text that does not start with one. */
  lemma TrimStartOneQuote(t: string)
    requires |t| > 0 ==> !IsQuote(t[0])
    ensures TrimStartBy("\"" + t, IsQuote) == t
  {
    assert ("\"" + t)[1..] == t;
  }

  /** TrimEnd drops one trailing quote after a text that does not end with one. */
  lemma TrimEndOneQuote(t: string)
    requires |t| > 0 ==> !IsQuote(t[|t| - 1])
    ensures TrimEndBy(t + "\"", IsQuote) == t
  {
    assert (t + "\"")[..|t|] == t;
  }

  /** Trim('"') removes exactly the outer quotes. */
  lemma TrimOuterQuotes(fragments: seq<string>)
    requires PlainFragments(fragments)
    ensures TrimQuotes(TxtData(fragments)) == Quoted(fragments)
  {
    var q := Quoted(fragments);
    QuotedEnds(fragments);
    assert TxtData(fragments) == "\"" + (q + "\"");
    TrimStartOneQuote(q + "\"");
    TrimEndOneQuote(q);
  }

  /** The concatenation of quote-free texts holds no quote. */
  lemma {:induction false} ConcatNoQuote(fragments: seq<string>)
    requires forall k :: 0 <= k < |fragments| ==> '"' !in fragments[k]
    ensures '"' !in Concat(fragments)
    decreases |fragments|
  {
    if |fragments| > 0 {
      var rest := fragments[1..];
      assert forall k :: 0 <= k < |rest| ==> rest[k] == fragments[k + 1];
      ConcatNoQuote(rest);
    }
  }

  /** Deleting every `" "` joins the character-strings. */
  lemma {:induction false} RemoveSeparators(fragments: seq<string>)
    requires PlainFragments(fragments)
    ensures Replace(Quoted(fragments), "\" \"", "") == Concat(fragments)
    decreases |fragments|
  {
    var sep := "\" \"";
    if |fragments| == 1 {
      ReplaceAbsent(fragments[0], sep, "");
      assert Concat(fragments) == fragments[0] + Concat([]);
    } else {
      var rest := fragments[1..];
      assert forall k :: 0 <= k < |rest| ==> rest[k] == fragments[k + 1];
      var q := Quoted(rest);
      assert Quoted(fragments) == fragments[0] + (sep + q);
      ReplaceAfterFree(fragments[0], sep + q, sep, "");
      DropSeparator(q);
      RemoveSeparators(rest);
      assert Concat(fragments) == fragments[0] + Concat(rest);
    }
  }

  /** A leading `" "` is deleted and the rest replaced on its own. */
  lemma DropSeparator(q: string)
    ensures Replace("\" \"" + q, "\" \"", "") == Replace(q, "\" \"", "")
  {
    var sep := "\" \"";
    assert (sep + q)[..3] == sep && (sep + q)[3..] == q;
  }

  /**
   * GetTextRecords joins the character-strings of a TXT datum into the one text they
   * make (section 3.3.14 of RFC 1035, as DKIM keys longer than 255 octets are published).
   */
  lemma CleanTextJoins(fragments: seq<string>)
    requires PlainFragments(fragments)
    ensures CleanText(TxtData(fragments)) == Concat(fragments)
  {
    TrimOuterQuotes(fragments);
    RemoveSeparators(fragments);
    ConcatNoQuote(fragments);
    ReplaceAbsent(Concat(fragments), "\"\"", "");
  }

  /** A TXT datum of one character-string loses its quotes and nothing else. */
  lemma CleanTextSingle(text: string)
    requires |text| > 0 && '"' !in text
    ensures CleanText("\"" + text + "\"") == text
  {
    CleanTextJoins([text]);
    assert Concat([text]) == text + Concat([]);
  }

  /**
   * GetTextRecordsAsync does not join: a datum of two or more character-strings keeps
   * the `" "` between them, so the two lookups disagree on it.
   */
  lemma AsyncKeepsSeparators(fragments: seq<string>)
    requires PlainFragments(fragments) && |fragments| >= 2
    ensures TrimQuotes(TxtData(fragments)) == Quoted(fragments)
    ensures TrimQuotes(TxtData(fragments)) != CleanText(TxtData(fragments))
  {
    TrimOuterQuotes(fragments);
    CleanTextJoins(fragments);
    QuotedLength(fragments);
    ConcatLength(fragments);
  }

  /** The quoted text is three characters longer per separator than the pieces. */
  function Lengths(fragments: seq<string>): nat {
    if |fragments| == 0 then 0 else |fragments[0]| + Lengths(fragments[1..])
  }

  lemma {:induction false} QuotedLength(fragments: seq<string>)
    requires |fragments| >= 1
    ensures |Quoted(fragments)| == Lengths(fragments) + 3 * (|fragments| - 1)
    decreases |fragments|
  {
    if |fragments| > 1 {
      QuotedLength(fragments[1..]);
    } else {
      assert Lengths(fragments[1..]) == 0;
    }
  }

  lemma {:induction false} ConcatLength(fragments: seq<string>)
    ensures |Concat(fragments)| == Lengths(fragments)
    decreases |fragments|
  {
    if |fragments| > 0 {
      ConcatLength(fragments[1..]);
    }
  }

  /** The MX presentation "preference host" gives the host. */
  lemma MailHostOfMx(preference: nat, host: string)
    requires ' ' !in host
    ensures MailHost(ShowNat(preference) + " " + host) == host
  {
    var data := ShowNat(preference) + " " + host;
    var pre := ShowNat(preference);
    assert ' ' !in pre;
    assert data == pre + ([' '] + host);
    assert data[|pre|] == ' ';
    SplitJoin([pre, host], ' ');
    assert Join([pre, host], ' ') == pre + [' '] + Join([host], ' ');
  }

  /**
   * The JSON resolver's host of an MX datum is the exchange the wire resolver decodes
   * from the same RDATA, when the exchange holds no space.
   */
  lemma MailHostOfWire(lib: Library, preference: ushort, exchange: seq<byte>)
    requires ' ' !in lib.utf8Decode(exchange)
    ensures MailHost(RData(lib, BigEndian(preference) + exchange, TypeMX).value) == lib.utf8Decode(exchange)
  {
    MxText(lib, preference, exchange);
    MailHostOfMx(preference as nat, lib.utf8Decode(exchange));
  }

  /** A reply whose answers are all MX gives one host per answer, in order. */
  lemma MailRecordsAllMx(answers: seq<Answer>, status: int)
    requires forall k :: 0 <= k < |answers| ==> answers[k].rtype == JsonTypeMX
    ensures MailRecords(Rootobject(status, Some(answers))) == MailHosts(answers)
  {
    OfTypeAll(answers, JsonTypeMX);
  }

  /** A list of answers of one type passes the filter whole. */
  lemma {:induction false} OfTypeAll(answers: seq<Answer>, rtype: int)
    requires forall k :: 0 <= k < |answers| ==> answers[k].rtype == rtype
    ensures OfType(answers, rtype) == answers
    decreases |answers|
  {
    if |answers| > 0 {
      var rest := answers[1..];
      assert forall k :: 0 <= k < |rest| ==> rest[k] == answers[k + 1];
      OfTypeAll(rest, rtype);
      assert answers == [answers[0]] + rest;
    }
  }

  /** An answer list without A answers gives no addresses, and one with no Answer list fails. */
  lemma AddressRecordsNoA(lib: Library, answers: seq<Answer>, status: int)
    requires forall k :: 0 <= k < |answers| ==> answers[k].rtype != JsonTypeA
    ensures AddressRecords(lib, Rootobject(status, Some(answers))) == Success([])
    ensures AddressRecords(lib, Rootobject(status, None)).Failure?
  {
  }
}
