/**
 * What the DNS wire codec promises: the header a query carries (section 4.1.1 of
 * RFC 1035), the answers the walk reads back from a response laid out by a reference
 * encoder (section 4.1.3, with the name of every record a compression pointer, section
 * 4.1.4), the texts of the RDATA formats, and the length octet of a label (section 3.1).
 */
module DnsProperties {
  import opened Wrappers
  import opened Errors
  import opened Platform
  import opened Text
  import opened DnsMessages

  /** The six 16-bit fields of a message header, section 4.1.1 of RFC 1035. */
  datatype Header = Header(id: ushort, flags: ushort, qdCount: ushort, anCount: ushort, nsCount: ushort, arCount: ushort)

  /** The header fields of the first twelve bytes, each big-endian. */
  function ReadHeader(b: seq<byte>): Header
    requires |b| >= 12
  {
    Header(Word(b[0], b[1]), Word(b[2], b[3]), Word(b[4], b[5]), Word(b[6], b[7]), Word(b[8], b[9]), Word(b[10], b[11]))
  }

  /** The flags of a standard query with recursion desired: QR 0, OPCODE 0, RD 1. */
  const RecursionDesired: ushort := 0x0100

  /** A query carries its transaction id, asks for recursion and holds one question and nothing else. */
  lemma QueryHeaderFields(domain: string, queryType: ushort, transactionId: ushort)
    ensures ReadHeader(Query(domain, queryType, transactionId)) == Header(transactionId, RecursionDesired, 1, 0, 0, 0)
  {
    var q := Query(domain, queryType, transactionId);
    var h := QueryHeader(transactionId);
    assert q[..12] == h;
    assert q[0] == h[0] && q[1] == h[1];
    assert q[2..12] == [0x01, 0, 0, 0x01, 0, 0, 0, 0, 0, 0];
  }

  /** A label BuildQuestion writes with a non-zero length octet and no NUL character. */
  predicate NonZeroLabel(part: string) {
    Utf16Length(part) % 0x100 != 0 && forall k :: 0 <= k < |part| ==> part[k] as int != 0
  }

  /** The name of such labels holds no zero byte, so nothing before its end looks like the root label. */
  lemma {:induction false} NameBytesNonZero(labels: seq<string>)
    requires forall k :: 0 <= k < |labels| ==> NonZeroLabel(labels[k])
    ensures forall k :: 0 <= k < |NameBytes(labels)| ==> NameBytes(labels)[k] != 0
  {
    if |labels| > 0 {
      var head, tail := LabelBytes(labels[0]), NameBytes(labels[1..]);
      LabelBytesNonZero(labels[0]);
      NameBytesNonZero(labels[1..]);
      var bs := NameBytes(labels);
      assert bs == head + tail;
      forall k | 0 <= k < |bs| ensures bs[k] != 0 {
        if k < |head| {
          assert bs[k] == head[k];
        } else {
          assert bs[k] == tail[k - |head|];
        }
      }
    }
  }

  lemma LabelBytesNonZero(part: string)
    requires NonZeroLabel(part)
    ensures forall k :: 0 <= k < |LabelBytes(part)| ==> LabelBytes(part)[k] != 0
  {
    var bs, u := LabelBytes(part), Utf8(part);
    assert bs == [bs[0]] + u;
    forall k | 0 <= k < |bs| ensures bs[k] != 0 {
      if k > 0 {
        assert bs[k] == u[k - 1];
      }
    }
  }

  /** The first zero byte at or after `i` is the one at `z`. */
  lemma QuestionEndAt(b: seq<byte>, i: nat, z: nat)
    requires i <= z < |b| && b[z] == 0
    requires forall k :: i <= k < z ==> b[k] != 0
    ensures QuestionEnd(b, i) == Success(z)
  {
  }

  /** A resource record as the reference encoder writes it: its name a pointer to `pointer`. */
  datatype ResourceRecord = ResourceRecord(pointer: nat, rtype: ushort, rclass: ushort, ttl: nat, rdata: seq<byte>)

  /**
   * A record the encoder can write: a 14-bit pointer, a 32-bit TTL, RDATA of at least one
   * byte and below 65536, and an MX RDATA holding at least its 16-bit PREFERENCE.
   */
  predicate WellFormed(rr: ResourceRecord) {
    rr.pointer < 0x4000 && rr.ttl < 0x1_0000_0000 && 0 < |rr.rdata| < 0x1_0000
    && (rr.rtype == TypeMX ==> |rr.rdata| >= 2)
  }

  predicate AllWellFormed(rrs: seq<ResourceRecord>) {
    forall k :: 0 <= k < |rrs| ==> WellFormed(rrs[k])
  }

  /** A 32-bit value, big-endian. */
  function Bytes32(x: nat): (bs: seq<byte>)
    requires x < 0x1_0000_0000
    ensures |bs| == 4
  {
    [(x / 0x100_0000) as byte, (x / 0x1_0000 % 0x100) as byte, (x / 0x100 % 0x100) as byte, (x % 0x100) as byte]
  }

  /** A record on the wire: NAME (a pointer), TYPE, CLASS, TTL, RDLENGTH and RDATA. */
  function RecordBytes(rr: ResourceRecord): (bs: seq<byte>)
    requires WellFormed(rr)
    ensures |bs| == 12 + |rr.rdata|
  {
    [(0xC0 + rr.pointer / 0x100) as byte, (rr.pointer % 0x100) as byte] + BigEndian(rr.rtype) + BigEndian(rr.rclass)
    + Bytes32(rr.ttl) + BigEndian(|rr.rdata| as ushort) + rr.rdata
  }

  /** Records one after the other. */
  function RecordsBytes(rrs: seq<ResourceRecord>): seq<byte>
    requires AllWellFormed(rrs)
  {
    if |rrs| == 0 then [] else RecordBytes(rrs[0]) + RecordsBytes(rrs[1..])
  }

  /** The fields the answer walk reads from a written record are the record's own. */
  lemma RecordFields(rr: ResourceRecord)
    requires WellFormed(rr)
    ensures RecordBytes(rr)[0] >= 0xC0
    ensures Word(RecordBytes(rr)[2], RecordBytes(rr)[3]) == rr.rtype
    ensures Word(RecordBytes(rr)[10], RecordBytes(rr)[11]) as nat == |rr.rdata|
    ensures RecordBytes(rr)[12..] == rr.rdata
  {
    var bs := RecordBytes(rr);
    var t := BigEndian(rr.rtype);
    var n := BigEndian(|rr.rdata| as ushort);
    assert bs[2] == t[0] && bs[3] == t[1];
    assert bs[10] == n[0] && bs[11] == n[1];
  }

  /** The text of an RDATA on its own. */
  function RData(lib: Library, rdata: seq<byte>, rtype: ushort): Result<string, Error> {
    ParseRData(lib, rdata, 0, |rdata|, rtype)
  }

  /** The RDATA of a well-formed record always has a text. */
  function RDataText(lib: Library, rr: ResourceRecord): string
    requires WellFormed(rr)
  {
    RData(lib, rr.rdata, rr.rtype).value
  }

  /** The texts of the records, in order. */
  function Texts(lib: Library, rrs: seq<ResourceRecord>): (ts: seq<string>)
    requires AllWellFormed(rrs)
    ensures |ts| == |rrs|
  {
    if |rrs| == 0 then [] else [RDataText(lib, rrs[0])] + Texts(lib, rrs[1..])
  }

  /**
   * An RDATA read from inside a buffer has the text it has on its own: TXT, MX and
   * AAAA never read past their RDLENGTH, and A's and the others' bounds fall inside.
   */
  lemma RDataLocal(lib: Library, b: seq<byte>, start: nat, length: nat, rtype: ushort)
    requires 0 < length && start + length <= |b|
    requires rtype == TypeMX ==> length >= 2
    ensures ParseRData(lib, b, start, length, rtype) == RData(lib, b[start..start + length], rtype)
  {
    if rtype == TypeA {
      ALocal(lib, b, start, length);
    } else if rtype == TypeTXT {
      TxtLocal(lib, b, start, length);
    } else if rtype == TypeMX {
      MxLocal(lib, b, start, length);
    } else if rtype == TypeAAAA {
      AaaaLocal(lib, b, start, length);
    } else {
      OtherLocal(lib, b, start, length, rtype);
    }
  }

  lemma ALocal(lib: Library, b: seq<byte>, start: nat, length: nat)
    requires 0 < length && start + length <= |b|
    ensures ParseRData(lib, b, start, length, TypeA) == RData(lib, b[start..start + length], TypeA)
  {
    var s := b[start..start + length];
    assert s[0..length] == s;
  }

  lemma TxtLocal(lib: Library, b: seq<byte>, start: nat, length: nat)
    requires 0 < length && start + length <= |b|
    ensures ParseRData(lib, b, start, length, TypeTXT) == RData(lib, b[start..start + length], TypeTXT)
  {
    var s := b[start..start + length];
    assert s[1..length] == b[start + 1..start + length];
  }

  lemma MxLocal(lib: Library, b: seq<byte>, start: nat, length: nat)
    requires 2 <= length && start + length <= |b|
    ensures ParseRData(lib, b, start, length, TypeMX) == RData(lib, b[start..start + length], TypeMX)
  {
    var s := b[start..start + length];
    assert s[0] == b[start] && s[1] == b[start + 1];
    assert s[2..length] == b[start + 2..start + length];
  }

  lemma AaaaLocal(lib: Library, b: seq<byte>, start: nat, length: nat)
    requires 0 < length && start + length <= |b|
    ensures ParseRData(lib, b, start, length, TypeAAAA) == RData(lib, b[start..start + length], TypeAAAA)
  {
    AaaaSlice(b, start, length);
  }

  /** The AAAA text reads only the RDATA's own bytes. */
  lemma AaaaSlice(b: seq<byte>, start: nat, length: nat)
    requires start + length <= |b|
    ensures AaaaData(b, start, length) == AaaaData(b[start..start + length], 0, length)
  {
    var n := length / 2;
    if n > 0 {
      var s := b[start..start + length];
      assert s[0..2 * n] == b[start..start + 2 * n];
      HexGroupsShift(b, start, s, 0, n);
    }
  }

  /** The groups depend only on the 2n bytes they are read from. */
  lemma {:induction false} HexGroupsShift(b: seq<byte>, start: nat, c: seq<byte>, offset: nat, n: nat)
    requires start + 2 * n <= |b| && offset + 2 * n <= |c|
    requires b[start..start + 2 * n] == c[offset..offset + 2 * n]
    ensures HexGroups(b, start, n) == HexGroups(c, offset, n)
    decreases n
  {
    if n > 0 {
      var x, y := b[start..start + 2 * n], c[offset..offset + 2 * n];
      assert b[start] == x[0] && b[start + 1] == x[1];
      assert c[offset] == y[0] && c[offset + 1] == y[1];
      assert b[start + 2..start + 2 * n] == x[2..] && c[offset + 2..offset + 2 * n] == y[2..];
      HexGroupsShift(b, start + 2, c, offset + 2, n - 1);
    }
  }

  lemma OtherLocal(lib: Library, b: seq<byte>, start: nat, length: nat, rtype: ushort)
    requires 0 < length && start + length <= |b|
    requires OtherType(rtype)
    ensures ParseRData(lib, b, start, length, rtype) == RData(lib, b[start..start + length], rtype)
  {
    var s := b[start..start + length];
    assert s[0..length] == s;
  }

  /** The answer walk reads back every record the encoder wrote after `pre`, in order. */
  lemma {:induction false} AnswersOfRecords(lib: Library, pre: seq<byte>, rrs: seq<ResourceRecord>)
    requires AllWellFormed(rrs)
    ensures Answers(lib, pre + RecordsBytes(rrs), |pre|) == Success(Texts(lib, rrs))
    decreases |rrs|
  {
    var b := pre + RecordsBytes(rrs);
    if |rrs| == 0 {
      assert b == pre;
    } else {
      var rr := rrs[0];
      var rb := RecordBytes(rr);
      var pre' := pre + rb;
      assert AllWellFormed(rrs[1..]) by {
        assert forall k :: 0 <= k < |rrs[1..]| ==> rrs[1..][k] == rrs[k + 1];
      }
      assert b == pre' + RecordsBytes(rrs[1..]);
      var i := |pre|;
      assert forall k :: 0 <= k < |rb| ==> b[i + k] == rb[k];
      RecordFields(rr);
      var length := |rr.rdata|;
      assert b[i + 12..i + 12 + length] == rr.rdata by {
        assert b[i + 12..i + 12 + length] == rb[12..];
      }
      RDataLocal(lib, b, i + 12, length, rr.rtype);
      var rdata := ParseRData(lib, b, i + 12, length, rr.rtype);
      assert rdata == Success(RDataText(lib, rr));
      AnswersStep(lib, b, i, |pre'|, rdata);
      AnswersOfRecords(lib, pre', rrs[1..]);
    }
  }

  /**
   * ParseResponse on a response of a header, a question whose name holds no zero byte,
   * and well-formed answer records gives the texts of those records, in order. The
   * header's counts play no part.
   */
  lemma DecodeResponseRecords(lib: Library, header: seq<byte>, name: seq<byte>, tail: seq<byte>, rrs: seq<ResourceRecord>)
    requires |header| == 12 && |tail| == 4
    requires forall k :: 0 <= k < |name| ==> name[k] != 0
    requires AllWellFormed(rrs)
    ensures DecodeResponse(lib, header + name + [0] + tail + RecordsBytes(rrs)) == Success(Texts(lib, rrs))
  {
    var pre := header + name + [0] + tail;
    var b := pre + RecordsBytes(rrs);
    assert forall k :: 12 <= k < 12 + |name| ==> b[k] == name[k - 12];
    assert b[12 + |name|] == 0;
    QuestionEndAt(b, 12, 12 + |name|);
    AnswersOfRecords(lib, pre, rrs);
  }

  /**
   * A query read back as a response (the question repeated, no answers) gives no
   * answers, when every label has a non-zero length octet and no NUL character.
   */
  lemma QueryHasNoAnswers(lib: Library, domain: string, queryType: ushort, transactionId: ushort)
    requires forall k :: 0 <= k < |Split(domain, '.')| ==> NonZeroLabel(Split(domain, '.')[k])
    ensures DecodeResponse(lib, Query(domain, queryType, transactionId)) == Success([])
  {
    var labels := Split(domain, '.');
    NameBytesNonZero(labels);
    var tail := BigEndian(queryType) + [0x00, 0x01];
    assert Query(domain, queryType, transactionId)
        == QueryHeader(transactionId) + NameBytes(labels) + [0] + tail + RecordsBytes([]);
    DecodeResponseRecords(lib, QueryHeader(transactionId), NameBytes(labels), tail, []);
  }

  /** Every answer record takes at least its twelve bytes of fixed fields. */
  lemma {:induction false} AnswersBound(lib: Library, b: seq<byte>, i: nat)
    ensures Answers(lib, b, i).Success? && i < |b| ==> 12 * |Answers(lib, b, i).value| <= |b| - i
    decreases |b| - i
  {
    if i < |b| && b[i] >= 0xC0 && i + 11 < |b| {
      var rdLength := Word(b[i + 10], b[i + 11]);
      var next := i + 12 + rdLength as nat;
      var rdata := ParseRData(lib, b, i + 12, rdLength as nat, Word(b[i + 2], b[i + 3]));
      AnswersStep(lib, b, i, next, rdata);
      AnswersBound(lib, b, next);
    }
  }

  /** An A RDATA is the dotted decimal of its bytes: split at '.', each part reads back as its byte. */
  lemma ATextBytes(lib: Library, rdata: seq<byte>)
    requires |rdata| > 0
    ensures |Split(RData(lib, rdata, TypeA).value, '.')| == |rdata|
    ensures forall k :: 0 <= k < |rdata| ==>
      AllDigits(Split(RData(lib, rdata, TypeA).value, '.')[k]) && DigitsValue(Split(RData(lib, rdata, TypeA).value, '.')[k]) == rdata[k] as nat
  {
    assert rdata[0..|rdata|] == rdata;
    var ds := Decimals(rdata);
    assert RData(lib, rdata, TypeA).value == Join(ds, '.');
    SplitJoin(ds, '.');
    forall k | 0 <= k < |rdata|
      ensures DigitsValue(ds[k]) == rdata[k] as nat
    {
      DigitsValueOfShow(rdata[k] as nat);
    }
  }

  /** An MX RDATA is its PREFERENCE in decimal, a space, and the decoded rest. */
  lemma MxText(lib: Library, preference: ushort, exchange: seq<byte>)
    ensures RData(lib, BigEndian(preference) + exchange, TypeMX) == Success(ShowNat(preference as nat) + " " + lib.utf8Decode(exchange))
  {
    var s := BigEndian(preference) + exchange;
    assert s[0] == BigEndian(preference)[0] && s[1] == BigEndian(preference)[1];
    assert s[2..|s|] == exchange;
  }

  /** A TXT RDATA is the decoded text after its first byte, whatever that length byte says. */
  lemma TxtText(lib: Library, lengthByte: byte, text: seq<byte>)
    ensures RData(lib, [lengthByte] + text, TypeTXT) == Success(lib.utf8Decode(text))
  {
    var s := [lengthByte] + text;
    assert s[1..|s|] == text;
  }

  /** No hexadecimal digit is ':' or '-'. */
  lemma HexDigitNotSeparator(d: nat)
    requires d < 16
    ensures HexDigit(d) != ':' && HexDigit(d) != '-'
  {
  }

  /** The characters of a group are upper-case hexadecimal digits, never ':'. */
  lemma HexGroupNoColon(hi: byte, lo: byte)
    ensures ':' !in HexGroup(hi, lo)
  {
    var h := Hex2(hi) + Hex2(lo);
    HexDigitNotSeparator(hi as int / 16);
    HexDigitNotSeparator(hi as int % 16);
    HexDigitNotSeparator(lo as int / 16);
    HexDigitNotSeparator(lo as int % 16);
    assert ':' !in h;
    var g := HexGroup(hi, lo);
    assert g == h[|h| - |g|..];
  }

  /** A group is what part.TrimStart('0') leaves of the four digits. */
  lemma HexGroupTrims(hi: byte, lo: byte)
    ensures HexGroup(hi, lo) == TrimStartBy(Hex2(hi) + Hex2(lo), IsZeroDigit)
  {
    assert |Hex2(hi) + Hex2(lo)| == 4;
  }

  /** No group holds ':'. */
  lemma {:induction false} HexGroupsNoColon(b: seq<byte>, start: nat, n: nat)
    requires start + 2 * n <= |b|
    ensures forall i :: 0 <= i < n ==> ':' !in HexGroups(b, start, n)[i]
    decreases n
  {
    if n > 0 {
      var g := HexGroup(b[start], b[start + 1]);
      var rest := HexGroups(b, start + 2, n - 1);
      HexGroupNoColon(b[start], b[start + 1]);
      HexGroupsNoColon(b, start + 2, n - 1);
      var gs := HexGroups(b, start, n);
      assert gs == [g] + rest;
      forall i | 0 <= i < n ensures ':' !in gs[i] {
        if i > 0 {
          assert gs[i] == rest[i - 1];
        }
      }
    }
  }

  /** An AAAA RDATA of two bytes or more is its groups joined by ':', one per two bytes. */
  lemma AaaaGroups(lib: Library, rdata: seq<byte>)
    requires |rdata| >= 2
    ensures Split(RData(lib, rdata, TypeAAAA).value, ':') == HexGroups(rdata, 0, |rdata| / 2)
  {
    var n := |rdata| / 2;
    HexGroupsNoColon(rdata, 0, n);
    SplitJoin(HexGroups(rdata, 0, n), ':');
  }

  /** A zero group loses all its digits to TrimStart('0'): "::" compression is not what it does. */
  lemma ZeroGroupEmpty()
    ensures HexGroup(0, 0) == ""
  {
    assert Hex2(0) == "00";
  }

  /** The upper-case hexadecimal digits of some bytes, two per byte, without separators. */
  function HexConcat(bs: seq<byte>): (h: string)
    ensures |h| == 2 * |bs|
  {
    if |bs| == 0 then [] else Hex2(bs[0]) + HexConcat(bs[1..])
  }

  /** Removing each '-' from pairs joined by '-' concatenates the pairs. */
  lemma {:induction false} RemoveDashes(hs: seq<string>)
    requires forall k :: 0 <= k < |hs| ==> '-' !in hs[k]
    ensures Replace(Join(hs, '-'), "-", "") == Concat(hs)
    decreases |hs|
  {
    if |hs| == 1 {
      ReplaceAbsent(hs[0], "-", "");
      assert Concat(hs[1..]) == "";
    } else if |hs| > 1 {
      var j := Join(hs[1..], '-');
      assert Join(hs, '-') == hs[0] + ("-" + j);
      ReplaceAfterFree(hs[0], "-" + j, "-", "");
      assert ("-" + j)[..1] == "-" && ("-" + j)[1..] == j;
      RemoveDashes(hs[1..]);
    }
  }

  lemma {:induction false} ConcatHexPairs(bs: seq<byte>)
    ensures Concat(HexPairs(bs)) == HexConcat(bs)
    decreases |bs|
  {
    if |bs| > 0 {
      assert HexPairs(bs)[1..] == HexPairs(bs[1..]);
      ConcatHexPairs(bs[1..]);
    }
  }

  /** The RDATA of any other type is its bytes in upper-case hexadecimal, two digits a byte. */
  lemma OtherText(lib: Library, rdata: seq<byte>, rtype: ushort)
    requires OtherType(rtype)
    requires |rdata| > 0
    ensures RData(lib, rdata, rtype) == Success(HexConcat(rdata))
  {
    OtherHex(lib, rdata, rtype);
    HexPairsNoDash(rdata);
    RemoveDashes(HexPairs(rdata));
    ConcatHexPairs(rdata);
  }

  lemma OtherHex(lib: Library, rdata: seq<byte>, rtype: ushort)
    requires OtherType(rtype)
    requires |rdata| > 0
    ensures RData(lib, rdata, rtype) == Success(Replace(Join(HexPairs(rdata), '-'), "-", ""))
  {
    assert rdata[0..|rdata|] == rdata;
  }

  /** No hexadecimal pair holds a dash. */
  lemma HexPairsNoDash(bs: seq<byte>)
    ensures forall k :: 0 <= k < |HexPairs(bs)| ==> '-' !in HexPairs(bs)[k]
  {
    var hs := HexPairs(bs);
    assert forall d :: 0 <= d < 16 ==> HexDigit(d) != '-';
    forall k | 0 <= k < |hs| ensures '-' !in hs[k] {
      assert hs[k] == Hex2(bs[k]);
    }
  }

  /**
   * A name as section 3.1 of RFC 1035 reads it, and nothing after: labels of a length
   * octet below 64 and that many octets, ended by the zero-length root label.
   */
  function ReadName(b: seq<byte>): Option<seq<seq<byte>>>
    decreases |b|
  {
    if |b| == 0 then None
    else if b[0] == 0 then (if |b| == 1 then Some([]) else None)
    else if b[0] as int >= 0x40 || |b| < 1 + b[0] as int then None
    else
      match ReadName(b[1 + b[0] as int..])
      case None => None
      case Some(rest) => Some([b[1..1 + b[0] as int]] + rest)
  }

  /** The octets of every label. */
  function Octets(labels: seq<string>): (os: seq<seq<byte>>)
    ensures |os| == |labels|
  {
    if |labels| == 0 then [] else [Utf8(labels[0])] + Octets(labels[1..])
  }

  /**
   * BuildQuestion's length octet counts UTF-16 code units: "é" is written with the length
   * 1 and its two UTF-8 octets, and the name no longer reads back.
   */
  lemma LabelLengthMiscount()
    ensures LabelBytes("é") == [1, 0xC3, 0xA9]
    ensures ReadName(NameBytes(["é"]) + [0]) == None
  {
    assert Utf8Char('é') == [0xC3, 0xA9];
    assert Utf8("é") == [0xC3, 0xA9];
    assert Utf16Length("é") == 1;
    assert NameBytes(["é"]) == LabelBytes("é");
    var b: seq<byte> := [1, 0xC3, 0xA9, 0];
    assert b[2..] == [0xA9, 0];
    assert ReadName(b[2..]) == None;
  }

  /** A label with the length octet section 3.1 of RFC 1035 asks for: the number of octets that follow. */
  function FixedLabelBytes(part: string): seq<byte> {
    [(|Utf8(part)| % 0x100) as byte] + Utf8(part)
  }

  function FixedNameBytes(labels: seq<string>): seq<byte> {
    if |labels| == 0 then [] else FixedLabelBytes(labels[0]) + FixedNameBytes(labels[1..])
  }

  /** A label that fits a length octet: one to 63 octets. */
  predicate FitsLabel(part: string) {
    0 < |Utf8(part)| < 0x40
  }

  /** With the corrected length octet every name of fitting labels reads back as their octets. */
  lemma {:induction false} FixedNameRoundTrip(labels: seq<string>)
    requires forall k :: 0 <= k < |labels| ==> FitsLabel(labels[k])
    ensures ReadName(FixedNameBytes(labels) + [0]) == Some(Octets(labels))
    decreases |labels|
  {
    var b := FixedNameBytes(labels) + [0];
    if |labels| == 0 {
      assert b == [0];
    } else {
      var u := Utf8(labels[0]);
      var rest := FixedNameBytes(labels[1..]) + [0];
      assert b == [|u| as byte] + u + rest;
      assert forall k :: 0 <= k < |labels| - 1 ==> labels[1..][k] == labels[k + 1];
      FixedNameRoundTrip(labels[1..]);
      ReadLabel(u, rest);
    }
  }

  /** A name that starts with a fitting label reads as that label and the rest of the name. */
  lemma ReadLabel(u: seq<byte>, rest: seq<byte>)
    requires 0 < |u| < 0x40
    ensures ReadName([|u| as byte] + u + rest)
         == match ReadName(rest) case None => None case Some(more) => Some([u] + more)
  {
    var b := [|u| as byte] + u + rest;
    assert b[0] as int == |u|;
    assert b[1..1 + |u|] == u;
    assert b[1 + |u|..] == rest;
  }

  /** On text of one code unit and one octet a character, the two counts agree. */
  lemma {:induction false} AsciiLengths(s: string)
    requires forall k :: 0 <= k < |s| ==> s[k] as int < 0x80
    ensures Utf16Length(s) == |Utf8(s)|
    decreases |s|
  {
    if |s| > 0 {
      AsciiLengths(s[1..]);
    }
  }

  /** For ASCII labels BuildQuestion's name is the corrected one. */
  lemma {:induction false} AsciiNameAgrees(labels: seq<string>)
    requires forall k, j :: 0 <= k < |labels| && 0 <= j < |labels[k]| ==> labels[k][j] as int < 0x80
    ensures NameBytes(labels) == FixedNameBytes(labels)
    decreases |labels|
  {
    if |labels| > 0 {
      AsciiLengths(labels[0]);
      AsciiNameAgrees(labels[1..]);
    }
  }
}
