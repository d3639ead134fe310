/**
 * The DNS wire codec of the DNS-over-HTTPS resolver (the POST form of RFC 8484): the
 * query builder (sections 4.1.1 and 4.1.2 of RFC 1035) and the answer walk with its
 * RDATA formatting (sections 3.3.9, 3.3.14 and 3.4.1 of RFC 1035, section 2.2 of
 * RFC 3596). Labels are encoded in UTF-8 as .NET's Encoding.UTF8 does for a string of
 * Unicode scalar values; decoding UTF-8 is the library's `utf8Decode`.
 */
module DnsMessages {
  import opened Wrappers
  import opened Errors
  import opened Platform
  import opened Text

  /** DnsRecordType */
  const TypeA: ushort := 1
  const TypeNS: ushort := 2
  const TypeCNAME: ushort := 5
  const TypeSOA: ushort := 6
  const TypePTR: ushort := 12
  const TypeMX: ushort := 15
  const TypeTXT: ushort := 16
  const TypeAAAA: ushort := 28
  const TypeSRV: ushort := 33
  const TypeOPT: ushort := 41
  const TypeANY: ushort := 255

  const ShortHeaderMessage := "Invalid DNS response: Header is too short."
  const NameFormatMessage := "Invalid DNS response: Unexpected name format."

  /** (ushort)((hi << 8) | lo): two bytes read big-endian. */
  function Word(hi: byte, lo: byte): ushort {
    (hi as int * 0x100 + lo as int) as ushort
  }

  /** (byte)(x >> 8), then (byte)(x & 0xFF): a 16-bit value written big-endian. */
  function BigEndian(x: ushort): (bs: seq<byte>)
    ensures |bs| == 2 && Word(bs[0], bs[1]) == x
  {
    [(x as int / 0x100) as byte, (x as int % 0x100) as byte]
  }

  /** string.Length: the number of UTF-16 code units, two for a character above U+FFFF. */
  function Utf16Length(s: string): (n: nat)
    ensures |s| <= n <= 2 * |s|
  {
    if |s| == 0 then 0 else (if s[0] as int >= 0x1_0000 then 2 else 1) + Utf16Length(s[1..])
  }

  /** Encoding.UTF8.GetBytes of one character. */
  function Utf8Char(c: char): (bs: seq<byte>)
    ensures 1 <= |bs| <= 4
    ensures (|bs| == 1) == (c as int < 0x80)
    ensures c as int != 0 ==> forall k :: 0 <= k < |bs| ==> bs[k] != 0
  {
    var n := c as int;
    if n < 0x80 then [n as byte]
    else if n < 0x800 then [(0xC0 + n / 0x40) as byte, (0x80 + n % 0x40) as byte]
    else if n < 0x1_0000 then [(0xE0 + n / 0x1000) as byte, (0x80 + n / 0x40 % 0x40) as byte, (0x80 + n % 0x40) as byte]
    else [(0xF0 + n / 0x4_0000) as byte, (0x80 + n / 0x1000 % 0x40) as byte, (0x80 + n / 0x40 % 0x40) as byte,
          (0x80 + n % 0x40) as byte]
  }

  /** Encoding.UTF8.GetBytes */
  function Utf8(s: string): (bs: seq<byte>)
    ensures |s| <= |bs| <= 4 * |s|
    ensures (forall k :: 0 <= k < |s| ==> s[k] as int != 0) ==> forall k :: 0 <= k < |bs| ==> bs[k] != 0
  {
    if |s| == 0 then [] else Utf8Char(s[0]) + Utf8(s[1..])
  }

  /** One label of BuildQuestion: (byte)label.Length, then the label's UTF-8 bytes. */
  function LabelBytes(part: string): seq<byte> {
    [(Utf16Length(part) % 0x100) as byte] + Utf8(part)
  }

  /** The labels of BuildQuestion, one after the other. */
  function NameBytes(labels: seq<string>): (bs: seq<byte>)
    ensures |bs| >= |labels|
  {
    if |labels| == 0 then [] else LabelBytes(labels[0]) + NameBytes(labels[1..])
  }

  /**
   * BuildQuestion as a function: the name of the '.'-separated labels of `domain`, the
   * terminating zero byte, QTYPE and QCLASS IN (1).
   */
  function Question(domain: string, queryType: ushort): (q: seq<byte>)
    ensures |q| >= 5 && q[|q| - 5] == 0
    ensures Word(q[|q| - 4], q[|q| - 3]) == queryType && Word(q[|q| - 2], q[|q| - 1]) == 1
  {
    NameBytes(Split(domain, '.')) + [0] + BigEndian(queryType) + [0x00, 0x01]
  }

  /** The header BuildQuery writes: the id, the RD flag (byte 2) and QDCOUNT 1 (byte 5). */
  function QueryHeader(transactionId: ushort): (h: seq<byte>)
    ensures |h| == 12
  {
    BigEndian(transactionId) + [0x01, 0, 0, 0x01, 0, 0, 0, 0, 0, 0]
  }

  /** BuildQuery as a function of the transaction id that the source draws at random. */
  function Query(domain: string, queryType: ushort, transactionId: ushort): (q: seq<byte>)
    ensures |q| >= 17
  {
    QueryHeader(transactionId) + Question(domain, queryType)
  }

  /** DnsMessageBuilder.BuildQuestion */
  method BuildQuestion(domain: string, queryType: ushort) returns (q: seq<byte>)
    ensures q == Question(domain, queryType)
  {
    var labels := Split(domain, '.');
    var question: seq<byte> := [];
    var n := 0;
    while n < |labels|
      invariant 0 <= n <= |labels|
      invariant question == NameBytes(labels[..n])
    {
      NameBytesStep(labels, n);
      question := question + [(Utf16Length(labels[n]) % 0x100) as byte];
      question := question + Utf8(labels[n]);
      n := n + 1;
    }
    assert question == NameBytes(labels) by {
      assert labels[..n] == labels;
    }
    ghost var name := question;
    question := question + [0];
    var typeBytes := BigEndian(queryType);
    question := question + [typeBytes[0]];
    question := question + [typeBytes[1]];
    question := question + [0x00];
    question := question + [0x01];
    assert question == name + [0] + BigEndian(queryType) + [0x00, 0x01];
    return question;
  }

  /** The name of the first n + 1 labels: that of the first n, then label n's length octet and bytes. */
  lemma NameBytesStep(labels: seq<string>, n: nat)
    requires n < |labels|
    ensures NameBytes(labels[..n + 1]) == NameBytes(labels[..n]) + ([(Utf16Length(labels[n]) % 0x100) as byte] + Utf8(labels[n]))
  {
    assert labels[..n + 1] == labels[..n] + [labels[n]];
    NameBytesAppend(labels[..n], [labels[n]]);
    assert [labels[n]][1..] == [];
  }

  /** The name of two lists of labels one after the other is their names one after the other. */
  lemma {:induction false} NameBytesAppend(xs: seq<string>, ys: seq<string>)
    ensures NameBytes(xs + ys) == NameBytes(xs) + NameBytes(ys)
    decreases |xs|
  {
    if |xs| == 0 {
      assert xs + ys == ys;
    } else {
      assert (xs + ys)[0] == xs[0] && (xs + ys)[1..] == xs[1..] + ys;
      NameBytesAppend(xs[1..], ys);
    }
  }

  /** DnsMessageBuilder.BuildQuery, with the transaction id as a parameter. */
  method BuildQuery(domain: string, queryType: ushort, transactionId: ushort) returns (q: seq<byte>)
    ensures q == Query(domain, queryType, transactionId)
  {
    var header := new byte[12](_ => 0);
    header[0] := (transactionId as int / 0x100) as byte;
    header[1] := (transactionId as int % 0x100) as byte;
    header[2] := 0x01;
    header[5] := 0x01;
    var question := BuildQuestion(domain, queryType);
    return header[..] + question;
  }

  /**
   * The index of the first zero byte at or after `i`: where the question-skipping loop
   * stops, or the IndexOutOfRangeException of its read past the end.
   */
  function QuestionEnd(b: seq<byte>, i: nat): (r: Result<nat, Error>)
    ensures r.Success? ==> i <= r.value < |b| && b[r.value] == 0 && forall k :: i <= k < r.value ==> b[k] != 0
    ensures r.Failure? ==> r.error == RuntimeFailure(IndexOutOfRange) && forall k :: i <= k < |b| ==> b[k] != 0
    decreases |b| - i
  {
    if i >= |b| then Failure(RuntimeFailure(IndexOutOfRange))
    else if b[i] == 0 then Success(i)
    else QuestionEnd(b, i + 1)
  }

  /** The characters dropped by part.TrimStart('0'). */
  predicate IsZeroDigit(c: char) {
    c == '0'
  }

  /** One AAAA group: the four upper-case hexadecimal digits of two bytes after their leading '0's. */
  function HexGroup(hi: byte, lo: byte): (g: string)
    ensures |g| <= 4
  {
    var h := Hex2(hi) + Hex2(lo);
    if h[0] != '0' then h
    else if h[1] != '0' then h[1..]
    else if h[2] != '0' then h[2..]
    else if h[3] != '0' then h[3..]
    else ""
  }

  /** The decimal texts of some bytes. */
  function Decimals(bs: seq<byte>): (ds: seq<string>)
    ensures |ds| == |bs|
    ensures forall k :: 0 <= k < |bs| ==> ds[k] == ShowNat(bs[k] as nat)
  {
    if |bs| == 0 then [] else [ShowNat(bs[0] as nat)] + Decimals(bs[1..])
  }

  /** BitConverter.ToString: two upper-case hexadecimal digits per byte, joined by '-'. */
  function HexPairs(bs: seq<byte>): (hs: seq<string>)
    ensures |hs| == |bs|
    ensures forall k :: 0 <= k < |bs| ==> hs[k] == Hex2(bs[k])
  {
    if |bs| == 0 then [] else [Hex2(bs[0])] + HexPairs(bs[1..])
  }

  /** The `n` AAAA groups of the byte pairs from `start` on, group `i` from the bytes at start + 2i and start + 2i + 1. */
  function HexGroups(b: seq<byte>, start: nat, n: nat): (gs: seq<string>)
    requires start + 2 * n <= |b|
    ensures |gs| == n
    decreases n
  {
    if n == 0 then [] else [HexGroup(b[start], b[start + 1])] + HexGroups(b, start + 2, n - 1)
  }

  /** The `count` bytes after `index` that Encoding.UTF8.GetString(b, index, count) reads, or its ArgumentOutOfRangeException. */
  function GetString(lib: Library, b: seq<byte>, index: int, count: int): (r: Result<string, Error>)
    ensures r.Success? <==> 0 <= index && 0 <= count && index + count <= |b|
    ensures r.Failure? ==> r.error == RuntimeFailure(ArgumentOutOfRange)
  {
    if index < 0 || count < 0 || index + count > |b| then Failure(RuntimeFailure(ArgumentOutOfRange))
    else Success(lib.utf8Decode(b[index..index + count]))
  }

  /** A record type ParseRData formats as raw hexadecimal. */
  predicate OtherType(rtype: ushort) {
    rtype != TypeA && rtype != TypeTXT && rtype != TypeMX && rtype != TypeAAAA
  }

  /**
   * DnsMessageParser.ParseRData: the text of the RDATA of `length` bytes at `start`, by
   * type. A uses Skip/Take and so never fails; TXT and MX fail in GetString and the MX
   * preference read, AAAA in a group read past the end, other types in BitConverter.
   */
  function ParseRData(lib: Library, b: seq<byte>, start: nat, length: nat, rtype: ushort): (r: Result<string, Error>)
    ensures rtype == TypeA ==> r.Success?
    ensures rtype == TypeTXT ==> (r.Success? <==> 1 <= length && start + length <= |b|)
    ensures rtype == TypeMX ==> (r.Success? <==> 2 <= length && start + length <= |b|)
    ensures rtype == TypeAAAA ==> (r.Success? <==> start + 2 * (length / 2) <= |b| || length < 2)
    ensures OtherType(rtype) ==>
      (r.Success? <==> start + length <= |b| && (start < |b| || start == 0))
    ensures r.Failure? ==> r.error.RuntimeFailure?
  {
    if rtype == TypeA then Success(AddressText(b, start, length))
    else if rtype == TypeTXT then TxtData(lib, b, start, length)
    else if rtype == TypeMX then MxData(lib, b, start, length)
    else if rtype == TypeAAAA then AaaaData(b, start, length)
    else OtherData(b, start, length)
  }

  /** A: the decimal bytes joined by dots, of what Skip(start).Take(length) leaves. */
  function AddressText(b: seq<byte>, start: nat, length: nat): string {
    var from := if start < |b| then start else |b|;
    var to := if start + length < |b| then start + length else |b|;
    Join(Decimals(b[from..to]), '.')
  }

  /** TXT: the text after the length octet. */
  function TxtData(lib: Library, b: seq<byte>, start: nat, length: nat): (r: Result<string, Error>)
    ensures r.Success? <==> 1 <= length && start + length <= |b|
    ensures r.Failure? ==> r.error.RuntimeFailure?
  {
    GetString(lib, b, start + 1, length - 1)
  }

  /** MX: the preference in decimal, a space and the exchange text. */
  function MxData(lib: Library, b: seq<byte>, start: nat, length: nat): (r: Result<string, Error>)
    ensures r.Success? <==> 2 <= length && start + length <= |b|
    ensures r.Failure? ==> r.error.RuntimeFailure?
  {
    if start + 1 >= |b| then Failure(RuntimeFailure(IndexOutOfRange))
    else
      var preference := Word(b[start], b[start + 1]);
      var exchange :- GetString(lib, b, start + 2, length - 2);
      Success(ShowNat(preference as nat) + " " + exchange)
  }

  /** AAAA: the groups of the byte pairs, joined by colons. */
  function AaaaData(b: seq<byte>, start: nat, length: nat): (r: Result<string, Error>)
    ensures r.Success? <==> start + 2 * (length / 2) <= |b| || length < 2
    ensures r.Failure? ==> r.error == RuntimeFailure(IndexOutOfRange)
  {
    var n := length / 2;
    if n > 0 && start + 2 * n > |b| then Failure(RuntimeFailure(IndexOutOfRange))
    else Success(Join(if n == 0 then [] else HexGroups(b, start, n), ':'))
  }

  /** Any other type: BitConverter.ToString of the RDATA with its dashes deleted. */
  function OtherData(b: seq<byte>, start: nat, length: nat): (r: Result<string, Error>)
    ensures r.Success? <==> start + length <= |b| && (start < |b| || start == 0)
    ensures r.Failure? ==> r.error.RuntimeFailure?
  {
    if start >= |b| && start > 0 then Failure(RuntimeFailure(ArgumentOutOfRange))
    else if start + length > |b| then Failure(RuntimeFailure(ArrayTooSmall))
    else Success(Replace(Join(HexPairs(b[start..start + length]), '-'), "-", ""))
  }

  /**
   * The answer walk from `i`: each record must start with a compression pointer (top
   * two bits set); its TYPE is at +2, RDLENGTH at +10 and RDATA at +12, and the next
   * record follows the RDATA, until the buffer ends.
   */
  function Answers(lib: Library, b: seq<byte>, i: nat): (r: Result<seq<string>, Error>)
    ensures r.Failure? ==> r.error == DnsArgument(NameFormatMessage) || r.error.RuntimeFailure?
    decreases |b| - i
  {
    if i >= |b| then Success([])
    else if b[i] < 0xC0 then Failure(DnsArgument(NameFormatMessage))
    else if i + 11 >= |b| then Failure(RuntimeFailure(IndexOutOfRange))
    else
      var rtype := Word(b[i + 2], b[i + 3]);
      var rdLength := Word(b[i + 10], b[i + 11]);
      var rdata := ParseRData(lib, b, i + 12, rdLength as nat, rtype);
      if rdata.Failure? then Failure(rdata.error)
      else Prepend([rdata.value], Answers(lib, b, i + 12 + rdLength as nat))
  }

  /**
   * ParseResponse as a function: the header check, the question skipped to its first
   * zero byte and four more, then the answer walk. Header counts are never read.
   */
  function DecodeResponse(lib: Library, b: seq<byte>): (r: Result<seq<string>, Error>)
    ensures |b| < 12 ==> r == Failure(DnsArgument(ShortHeaderMessage))
    ensures |b| == 12 ==> r == Failure(RuntimeFailure(IndexOutOfRange))
  {
    if |b| < 12 then Failure(DnsArgument(ShortHeaderMessage))
    else
      var end :- QuestionEnd(b, 12);
      Answers(lib, b, end + 5)
  }

  /**
   * One step of the answer walk, for a record whose fixed fields are inside the buffer,
   * whose RDATA text is `rdata` and after which the walk goes on at `next`.
   */
  lemma AnswersStep(lib: Library, b: seq<byte>, i: nat, next: nat, rdata: Result<string, Error>)
    requires i + 11 < |b| && b[i] >= 0xC0
    requires next == i + 12 + Word(b[i + 10], b[i + 11]) as nat
    requires rdata == ParseRData(lib, b, i + 12, Word(b[i + 10], b[i + 11]) as nat, Word(b[i + 2], b[i + 3]))
    ensures Answers(lib, b, i) == if rdata.Failure? then Failure(rdata.error) else Prepend([rdata.value], Answers(lib, b, next))
  {
    if rdata.Success? {
      AnswersStepFilled(lib, b, i, next, rdata);
    } else {
      AnswersStepFailed(lib, b, i, rdata);
    }
  }

  /** AnswersStep for RDATA that does not convert: the walk ends with its error. */
  lemma AnswersStepFailed(lib: Library, b: seq<byte>, i: nat, rdata: Result<string, Error>)
    requires i + 11 < |b| && b[i] >= 0xC0 && rdata.Failure?
    requires rdata == ParseRData(lib, b, i + 12, Word(b[i + 10], b[i + 11]) as nat, Word(b[i + 2], b[i + 3]))
    ensures Answers(lib, b, i) == Failure(rdata.error)
  {
  }

  /** AnswersStep for RDATA that converts: its text heads the answers from `next`. */
  lemma AnswersStepFilled(lib: Library, b: seq<byte>, i: nat, next: nat, rdata: Result<string, Error>)
    requires i + 11 < |b| && b[i] >= 0xC0 && rdata.Success?
    requires next == i + 12 + Word(b[i + 10], b[i + 11]) as nat
    requires rdata == ParseRData(lib, b, i + 12, Word(b[i + 10], b[i + 11]) as nat, Word(b[i + 2], b[i + 3]))
    ensures Answers(lib, b, i) == Prepend([rdata.value], Answers(lib, b, next))
  {
    var rest := Answers(lib, b, next);
    if rest.Success? {
      assert Answers(lib, b, i) == Success([rdata.value] + rest.value);
    } else {
      assert Answers(lib, b, i) == rest;
    }
  }

  /** The answers collected so far, in front of the outcome of the rest of the walk. */
  function Prepend(xs: seq<string>, r: Result<seq<string>, Error>): Result<seq<string>, Error> {
    if r.Success? then Success(xs + r.value) else r
  }

  /** Collecting one more answer. */
  lemma PrependStep(xs: seq<string>, x: string, r: Result<seq<string>, Error>)
    ensures Prepend(xs, Prepend([x], r)) == Prepend(xs + [x], r)
  {
    if r.Success? {
      assert xs + ([x] + r.value) == (xs + [x]) + r.value;
    }
  }

  /** The answer loop of ParseResponse, from `currentIndex` to the end of the buffer. */
  method ParseAnswers(lib: Library, responseBytes: array<byte>, currentIndex: nat) returns (r: Result<seq<string>, Error>)
    ensures r == Answers(lib, responseBytes[..], currentIndex)
  {
    ghost var b := responseBytes[..];
    var index := currentIndex;
    var answers: seq<string> := [];
    assert Answers(lib, b, index).Success? ==> [] + Answers(lib, b, index).value == Answers(lib, b, index).value;
    while index < responseBytes.Length
      invariant Answers(lib, b, currentIndex) == Prepend(answers, Answers(lib, b, index))
      decreases responseBytes.Length - index
    {
      ghost var i := index;
      if responseBytes[index] >= 0xC0 {
        index := index + 2;
      } else {
        return Failure(DnsArgument(NameFormatMessage));
      }
      if index + 1 >= responseBytes.Length {
        return Failure(RuntimeFailure(IndexOutOfRange));
      }
      var rtype := Word(responseBytes[index], responseBytes[index + 1]);
      index := index + 2;
      index := index + 6;
      if index + 1 >= responseBytes.Length {
        return Failure(RuntimeFailure(IndexOutOfRange));
      }
      var rdLength := Word(responseBytes[index], responseBytes[index + 1]);
      index := index + 2;
      var rdata := ParseRData(lib, responseBytes[..], index, rdLength as nat, rtype);
      assert b[i + 2] == responseBytes[i + 2] && b[i + 3] == responseBytes[i + 3];
      assert b[i + 10] == responseBytes[i + 10] && b[i + 11] == responseBytes[i + 11];
      var next := index + rdLength as nat;
      AnswersStep(lib, b, i, next, rdata);
      if rdata.Failure? {
        return Failure(rdata.error);
      }
      ghost var rest := Answers(lib, b, next);
      PrependStep(answers, rdata.value, rest);
      answers := answers + [rdata.value];
      index := next;
      assert Answers(lib, b, currentIndex) == Prepend(answers, rest);
    }
    assert answers + [] == answers;
    return Success(answers);
  }

  /** DnsMessageParser.ParseResponse */
  method ParseResponse(lib: Library, responseBytes: array<byte>) returns (r: Result<seq<string>, Error>)
    ensures r == DecodeResponse(lib, responseBytes[..])
  {
    ghost var b := responseBytes[..];
    if responseBytes.Length < 12 {
      return Failure(DnsArgument(ShortHeaderMessage));
    }
    var currentIndex := 12;
    while currentIndex < responseBytes.Length && responseBytes[currentIndex] != 0
      invariant 12 <= currentIndex <= responseBytes.Length
      invariant QuestionEnd(b, 12) == QuestionEnd(b, currentIndex)
      decreases responseBytes.Length - currentIndex
    {
      currentIndex := currentIndex + 1;
    }
    if currentIndex == responseBytes.Length {
      return Failure(RuntimeFailure(IndexOutOfRange));
    }
    assert QuestionEnd(b, currentIndex) == Success(currentIndex);
    currentIndex := currentIndex + 5;
    r := ParseAnswers(lib, responseBytes, currentIndex);
  }
}
