/**
 * The answer post-processing of the JSON DNS-over-HTTPS resolver: the deserialised
 * reply's Answer list is filtered by record type and each datum turned into a result.
 * The HTTP request and the JSON deserialisation are not part of this model; a reply is
 * given as a value.
 */
module DoHResolvers {
  import opened Wrappers
  import opened Errors
  import opened Platform
  import opened Text

  /** Rootobject.Answer: one answer of the JSON reply. */
  datatype Answer = Answer(name: string, rtype: int, ttl: int, data: string)

  /** Rootobject: the status and the Answer list, which is None where the reply has no "Answer". */
  datatype Rootobject = Rootobject(status: int, answer: Option<seq<Answer>>)

  const JsonTypeA := 1
  const JsonTypeMX := 15
  const JsonTypeTXT := 16

  /** Where(record => record.type == rtype): the answers of that type, in order. */
  function OfType(answers: seq<Answer>, rtype: int): (r: seq<Answer>)
    ensures |r| <= |answers|
    ensures forall a :: a in r <==> a in answers && a.rtype == rtype
  {
    if |answers| == 0 then []
    else
      var rest := OfType(answers[1..], rtype);
      assert forall a :: a in answers <==> a == answers[0] || a in answers[1..];
      if answers[0].rtype == rtype then [answers[0]] + rest else rest
  }

  /** The characters Trim('"') removes. */
  predicate IsQuote(c: char) {
    c == '"'
  }

  /** The TXT datum cleaned as GetTextRecords does: quotes trimmed, then every `" "` and every `""` deleted. */
  function CleanText(data: string): string {
    Replace(Replace(TrimBy(data, IsQuote), "\" \"", ""), "\"\"", "")
  }

  /** The TXT datum as GetTextRecordsAsync leaves it: only the quotes at its ends trimmed. */
  function TrimQuotes(data: string): (r: string)
    ensures |r| <= |data|
    ensures |r| > 0 ==> r[0] != '"' && r[|r| - 1] != '"'
  {
    TrimBy(data, IsQuote)
  }

  function CleanTexts(answers: seq<Answer>): (r: seq<string>)
    ensures |r| == |answers|
    ensures forall k :: 0 <= k < |answers| ==> r[k] == CleanText(answers[k].data)
  {
    if |answers| == 0 then [] else [CleanText(answers[0].data)] + CleanTexts(answers[1..])
  }

  function TrimmedTexts(answers: seq<Answer>): (r: seq<string>)
    ensures |r| == |answers|
    ensures forall k :: 0 <= k < |answers| ==> r[k] == TrimQuotes(answers[k].data)
  {
    if |answers| == 0 then [] else [TrimQuotes(answers[0].data)] + TrimmedTexts(answers[1..])
  }

  /** DoHResolver.GetTextRecords on the reply: one cleaned text per TXT answer, none without an Answer list. */
  function TextRecords(response: Rootobject): (r: seq<string>)
    ensures response.answer.None? ==> r == []
    ensures response.answer.Some? ==> |r| == |OfType(response.answer.value, JsonTypeTXT)|
    ensures response.answer.Some? ==>
      forall k :: 0 <= k < |r| ==> r[k] == CleanText(OfType(response.answer.value, JsonTypeTXT)[k].data)
  {
    if response.answer.None? then [] else CleanTexts(OfType(response.answer.value, JsonTypeTXT))
  }

  /** DoHResolver.GetTextRecordsAsync on the reply. */
  function TextRecordsAsync(response: Rootobject): (r: seq<string>)
    ensures response.answer.None? ==> r == []
    ensures response.answer.Some? ==> |r| == |OfType(response.answer.value, JsonTypeTXT)|
    ensures response.answer.Some? ==>
      forall k :: 0 <= k < |r| ==> r[k] == TrimQuotes(OfType(response.answer.value, JsonTypeTXT)[k].data)
  {
    if response.answer.None? then [] else TrimmedTexts(OfType(response.answer.value, JsonTypeTXT))
  }

  /**
   * The MX datum as GetMailRecords keeps it: the second space-separated field of a datum
   * with a space ("10 mx.example.nl" gives "mx.example.nl"), the whole datum otherwise.
   * Either way the result has no space.
   */
  function MailHost(data: string): (h: string)
    ensures ' ' !in h
    ensures ' ' !in data ==> h == data
  {
    if ' ' in data then
      var fields := Split(data, ' ');
      assert |fields| >= 2;
      fields[1]
    else data
  }

  function MailHosts(answers: seq<Answer>): (r: seq<string>)
    ensures |r| == |answers|
    ensures forall k :: 0 <= k < |answers| ==> r[k] == MailHost(answers[k].data)
  {
    if |answers| == 0 then [] else [MailHost(answers[0].data)] + MailHosts(answers[1..])
  }

  /** DoHResolver.GetMailRecords on the reply: one host per MX answer, none without an Answer list. */
  function MailRecords(response: Rootobject): (r: seq<string>)
    ensures response.answer.None? ==> r == []
    ensures response.answer.Some? ==> |r| == |OfType(response.answer.value, JsonTypeMX)|
    ensures forall k :: 0 <= k < |r| ==> ' ' !in r[k]
    ensures response.answer.Some? ==>
      forall k :: 0 <= k < |r| ==> r[k] == MailHost(OfType(response.answer.value, JsonTypeMX)[k].data)
  {
    if response.answer.None? then [] else MailHosts(OfType(response.answer.value, JsonTypeMX))
  }

  /** IPAddress.Parse of every datum, stopping at the first FormatException. */
  function ParseAddresses(lib: Library, answers: seq<Answer>): (r: Result<seq<IPAddress>, Error>)
    ensures r.Success? <==> forall k :: 0 <= k < |answers| ==> lib.ipParse(answers[k].data).Some?
    ensures r.Success? ==> |r.value| == |answers|
                           && forall k :: 0 <= k < |answers| ==> Some(r.value[k]) == lib.ipParse(answers[k].data)
    ensures r.Failure? ==> r.error == RuntimeFailure(Format)
  {
    if |answers| == 0 then Success([])
    else
      match lib.ipParse(answers[0].data)
      case None => Failure(RuntimeFailure(Format))
      case Some(a) =>
        var rest :- ParseAddresses(lib, answers[1..]);
        assert forall k :: 1 <= k < |answers| ==> answers[1..][k - 1] == answers[k];
        Success([a] + rest)
  }

  /**
   * DoHResolver.GetAddressRecords on the reply: the parsed A answers. It has no guard for
   * a missing Answer list, so Enumerable.Where is given null and throws ArgumentNullException.
   */
  function AddressRecords(lib: Library, response: Rootobject): (r: Result<seq<IPAddress>, Error>)
    ensures response.answer.None? ==> r == Failure(RuntimeFailure(ArgumentNull))
    ensures response.answer.Some? && r.Success? ==>
      forall k :: 0 <= k < |OfType(response.answer.value, JsonTypeA)| ==> lib.ipParse(OfType(response.answer.value, JsonTypeA)[k].data).Some?
    ensures response.answer.Some? && r.Failure? ==>
      exists k :: 0 <= k < |OfType(response.answer.value, JsonTypeA)| && lib.ipParse(OfType(response.answer.value, JsonTypeA)[k].data).None?
    ensures response.answer.Some? && r.Success? ==>
      |r.value| == |OfType(response.answer.value, JsonTypeA)|
      && forall k :: 0 <= k < |r.value| ==> Some(r.value[k]) == lib.ipParse(OfType(response.answer.value, JsonTypeA)[k].data)
    ensures response.answer.Some? && r.Failure? ==> r.error == RuntimeFailure(Format)
  {
    if response.answer.None? then Failure(RuntimeFailure(ArgumentNull))
    else ParseAddresses(lib, OfType(response.answer.value, JsonTypeA))
  }
}
