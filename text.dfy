/**
 * The System.String operations the parsers use, with the .NET semantics they
 * have there: ordinal IndexOf, Split on one character, Trim, ordinal Replace,
 * int.Parse and Int32.ToString.
 */
module Text {
  import opened Wrappers
  import opened Errors
  import opened Platform

  /** String.IndexOf(char): the first position of `c`, or -1. */
  function IndexOf(s: string, c: char): (i: int)
    ensures -1 <= i < |s|
    ensures i == -1 <==> c !in s
    ensures i >= 0 ==> s[i] == c && c !in s[..i]
  {
    if |s| == 0 then -1
    else if s[0] == c then 0
    else
      var j := IndexOf(s[1..], c);
      if j < 0 then -1
      else
        assert s[..j + 1] == [s[0]] + s[1..][..j];
        j + 1
  }

  /** String.StartsWith, taken as an ordinal prefix test. */
  predicate StartsWith(s: string, prefix: string) {
    |prefix| <= |s| && s[..|prefix|] == prefix
  }

  /** Texts one after the other (string.Concat). */
  function Concat(parts: seq<string>): string {
    if |parts| == 0 then "" else parts[0] + Concat(parts[1..])
  }

  /** String.Join(sep, parts). */
  function Join(parts: seq<string>, sep: char): string {
    if |parts| == 0 then ""
    else if |parts| == 1 then parts[0]
    else parts[0] + [sep] + Join(parts[1..], sep)
  }

  /**
   * String.Split(sep): the texts between occurrences of `sep`, empty ones included;
   * always at least one part. Joining the parts again gives back `s`.
   */
  function Split(s: string, sep: char): (parts: seq<string>)
    ensures |parts| >= 1
    ensures forall k :: 0 <= k < |parts| ==> sep !in parts[k]
    ensures Join(parts, sep) == s
    decreases |s|
  {
    var i := IndexOf(s, sep);
    if i < 0 then [s]
    else
      var rest := Split(s[i + 1..], sep);
      assert s == s[..i] + [sep] + s[i + 1..];
      [s[..i]] + rest
  }

  /** Split is the inverse of Join on parts that do not contain the separator. */
  lemma {:induction false} SplitJoin(parts: seq<string>, sep: char)
    requires |parts| >= 1
    requires forall k :: 0 <= k < |parts| ==> sep !in parts[k]
    ensures Split(Join(parts, sep), sep) == parts
  {
    if |parts| > 1 {
      var head, tail := parts[0], Join(parts[1..], sep);
      var s := Join(parts, sep);
      assert s == head + ([sep] + tail);
      IndexOfAfterFree(head, [sep] + tail, sep);
      assert s[..|head|] == head;
      assert s[|head| + 1..] == tail;
      SplitJoin(parts[1..], sep);
      assert Split(s, sep) == [head] + Split(tail, sep);
    } else {
      assert Join(parts, sep) == parts[0];
    }
  }

  /** A text with one separator splits into the two texts around it. */
  lemma SplitPair(a: string, b: string, sep: char)
    requires sep !in a && sep !in b
    ensures Split(a + [sep] + b, sep) == [a, b]
  {
    var parts := [a, b];
    assert parts[1..] == [b];
    assert Join(parts, sep) == a + [sep] + b;
    assert forall k :: 0 <= k < |parts| ==> sep !in parts[k];
    SplitJoin(parts, sep);
  }

  /** A separator at the end of a text adds one empty last part. */
  lemma SplitTrailing(s: string, sep: char)
    ensures Split(s + [sep], sep) == Split(s, sep) + [""]
  {
    var parts := Split(s, sep);
    JoinEmptyLast(parts, sep);
    var parts' := parts + [""];
    assert forall k :: 0 <= k < |parts'| ==> sep !in parts'[k] by {
      forall k | 0 <= k < |parts'| ensures sep !in parts'[k] {
        if k < |parts| {
          assert parts'[k] == parts[k];
        }
      }
    }
    SplitJoin(parts', sep);
  }

  /** Joining one more empty part appends one separator. */
  lemma {:induction false} JoinEmptyLast(parts: seq<string>, sep: char)
    requires |parts| >= 1
    ensures Join(parts + [""], sep) == Join(parts, sep) + [sep]
    decreases |parts|
  {
    var ps := parts + [""];
    if |parts| == 1 {
      assert ps[1..] == [""];
    } else {
      assert ps[1..] == parts[1..] + [""];
      JoinEmptyLast(parts[1..], sep);
    }
  }

  /** The first `c` of `a + b` is that of `b` when `a` has none. */
  lemma {:induction false} IndexOfAfterFree(a: string, b: string, c: char)
    requires c !in a && |b| > 0 && b[0] == c
    ensures IndexOf(a + b, c) == |a|
  {
    var s := a + b;
    assert s[|a|] == c;
    assert s[..|a|] == a;
  }

  /** char.IsWhiteSpace: the Unicode White_Space characters. */
  predicate IsWhiteSpace(c: char) {
    c == ' ' || ('\t' <= c <= '\r') || c == '\U{0085}' || c == '\U{00A0}' || c == '\U{1680}'
    || ('\U{2000}' <= c <= '\U{200A}') || c == '\U{2028}' || c == '\U{2029}'
    || c == '\U{202F}' || c == '\U{205F}' || c == '\U{3000}'
  }

  /** TrimStart of the characters `drop` accepts: the suffix left after them. */
  function TrimStartBy(s: string, drop: char -> bool): (r: string)
    ensures |r| <= |s| && r == s[|s| - |r|..]
    ensures forall k :: 0 <= k < |s| - |r| ==> drop(s[k])
    ensures |r| > 0 ==> !drop(r[0])
  {
    if |s| > 0 && drop(s[0]) then TrimStartBy(s[1..], drop) else s
  }

  /** TrimEnd of the characters `drop` accepts: the prefix left before them. */
  function TrimEndBy(s: string, drop: char -> bool): (r: string)
    ensures |r| <= |s| && r == s[..|r|]
    ensures forall k :: |r| <= k < |s| ==> drop(s[k])
    ensures |r| > 0 ==> !drop(r[|r| - 1])
  {
    if |s| > 0 && drop(s[|s| - 1]) then TrimEndBy(s[..|s| - 1], drop) else s
  }

  /** Trim of the characters `drop` accepts, at both ends. */
  function TrimBy(s: string, drop: char -> bool): (r: string)
    ensures |r| <= |s|
    ensures |r| > 0 ==> !drop(r[0]) && !drop(r[|r| - 1])
  {
    TrimEndBy(TrimStartBy(s, drop), drop)
  }

  /** A text with no droppable character at either end is its own trim. */
  lemma TrimmedIsFixed(s: string, drop: char -> bool)
    requires |s| > 0 ==> !drop(s[0]) && !drop(s[|s| - 1])
    ensures TrimBy(s, drop) == s
  {
  }

  /** Trimming twice is trimming once. */
  lemma TrimIdempotent(s: string, drop: char -> bool)
    ensures TrimBy(TrimBy(s, drop), drop) == TrimBy(s, drop)
  {
    TrimmedIsFixed(TrimBy(s, drop), drop);
  }

  /** Every character a trim keeps is a character of its input. */
  lemma TrimKeepsCharacters(s: string, drop: char -> bool)
    ensures forall c :: c in TrimBy(s, drop) ==> c in s
  {
    var t := TrimStartBy(s, drop);
    var r := TrimEndBy(t, drop);
    forall c | c in r ensures c in s {
      var k :| 0 <= k < |r| && r[k] == c;
      assert t[k] == c;
      assert s[|s| - |t| + k] == c;
    }
  }

  /** String.Trim(). */
  function Trim(s: string): string {
    TrimBy(s, IsWhiteSpace)
  }

  /** The text neither starts nor ends with white space. */
  predicate Trimmed(s: string) {
    |s| > 0 ==> !IsWhiteSpace(s[0]) && !IsWhiteSpace(s[|s| - 1])
  }

  /** A text without white space at either end is its own trim. */
  lemma TrimmedTrim(s: string)
    requires Trimmed(s)
    ensures Trim(s) == s
  {
    TrimmedIsFixed(s, IsWhiteSpace);
  }

  /** A space in front of a text without white space at its ends is trimmed away. */
  lemma TrimLeadingSpace(s: string)
    requires Trimmed(s)
    ensures Trim(" " + s) == s
  {
    var t := " " + s;
    assert t[0] == ' ' && t[1..] == s;
    assert TrimStartBy(t, IsWhiteSpace) == TrimStartBy(s, IsWhiteSpace);
    assert TrimStartBy(s, IsWhiteSpace) == s;
    assert TrimEndBy(s, IsWhiteSpace) == s;
  }

  /**
   * String.Replace(pattern, repl), ordinal: occurrences are replaced from left to right
   * and do not overlap.
   */
  function Replace(s: string, pattern: string, repl: string): string
    requires |pattern| > 0
    decreases |s|
  {
    if |s| < |pattern| then s
    else if s[..|pattern|] == pattern then repl + Replace(s[|pattern|..], pattern, repl)
    else [s[0]] + Replace(s[1..], pattern, repl)
  }

  /** No replacement can start inside a prefix without the pattern's first character. */
  lemma {:induction false} ReplaceAfterFree(f: string, t: string, pattern: string, repl: string)
    requires |pattern| > 0 && pattern[0] !in f
    ensures Replace(f + t, pattern, repl) == f + Replace(t, pattern, repl)
    decreases |f|
  {
    if |f| > 0 {
      var s := f + t;
      assert s[0] == f[0];
      if |s| >= |pattern| {
        assert s[..|pattern|][0] == f[0];
      }
      assert s[1..] == f[1..] + t;
      ReplaceAfterFree(f[1..], t, pattern, repl);
    } else {
      assert f + t == t;
    }
  }

  /** A text without the pattern's first character is left unchanged. */
  lemma ReplaceAbsent(s: string, pattern: string, repl: string)
    requires |pattern| > 0 && pattern[0] !in s
    ensures Replace(s, pattern, repl) == s
  {
    ReplaceAfterFree(s, "", pattern, repl);
    assert s + "" == s;
  }

  predicate IsDigit(c: char) {
    '0' <= c <= '9'
  }

  predicate AllDigits(s: string) {
    forall k :: 0 <= k < |s| ==> IsDigit(s[k])
  }

  function DigitChar(d: nat): (c: char)
    requires d < 10
    ensures IsDigit(c) && c as int - '0' as int == d
  {
    ('0' as int + d) as char
  }

  /** The decimal text of a natural number, without leading zeros. */
  function ShowNat(n: nat): (r: string)
    ensures |r| >= 1 && AllDigits(r)
    decreases n
  {
    if n < 10 then [DigitChar(n)] else ShowNat(n / 10) + [DigitChar(n % 10)]
  }

  /** Int32.ToString() (and the formatting of a byte, a ushort or a BigInteger). */
  function ShowInt(n: int): string {
    if n < 0 then "-" + ShowNat(-n) else ShowNat(n)
  }

  /** The number a non-empty run of decimal digits denotes. */
  function DigitsValue(s: string): nat
    requires AllDigits(s)
  {
    if |s| == 0 then 0
    else DigitsValue(s[..|s| - 1]) * 10 + (s[|s| - 1] as int - '0' as int)
  }

  lemma {:induction false} DigitsValueOfShow(n: nat)
    ensures DigitsValue(ShowNat(n)) == n
    decreases n
  {
    var r := ShowNat(n);
    if n >= 10 {
      DigitsValueOfShow(n / 10);
      assert r[..|r| - 1] == ShowNat(n / 10);
    }
  }

  /** The white space int.Parse allows around a number. */
  predicate IsNumberWhite(c: char) {
    c == ' ' || ('\t' <= c <= '\r')
  }

  /** The NUL character, which int.Parse accepts any number of at the very end. */
  predicate IsNul(c: char) {
    c == '\0'
  }

  /**
   * int.Parse(s) with NumberStyles.Integer and ASCII '-' and '+' as the signs: optional
   * white space, an optional sign, one or more decimal digits, optional white space and
   * then any number of NUL characters; FormatException for any other text and
   * OverflowException for a value outside Int32.
   */
  function ParseInt32(s: string): (r: Result<int32, RuntimeCause>)
    ensures r.Failure? ==> r.error == Format || r.error == Overflow
  {
    ParseSigned(TrimBy(TrimEndBy(s, IsNul), IsNumberWhite))
  }

  /** The optional sign and the digits int.Parse reads once the white space and NULs are gone. */
  function ParseSigned(t: string): (r: Result<int32, RuntimeCause>)
    ensures r.Failure? ==> r.error == Format || r.error == Overflow
  {
    var signed := |t| > 0 && (t[0] == '-' || t[0] == '+');
    var digits := if signed then t[1..] else t;
    if |digits| == 0 || !AllDigits(digits) then Failure(Format)
    else
      var v: int := if signed && t[0] == '-' then -(DigitsValue(digits) as int) else DigitsValue(digits);
      if -0x8000_0000 <= v < 0x8000_0000 then Success(v as int32) else Failure(Overflow)
  }

  /** int.Parse reads back every number Int32.ToString prints. */
  lemma ParseShowInt32(n: int32)
    ensures ParseInt32(ShowInt(n as int)) == Success(n)
  {
    var s := ShowInt(n as int);
    assert |s| > 0 && !IsNumberWhite(s[0]) && !IsNumberWhite(s[|s| - 1]) && !IsNul(s[|s| - 1]);
    assert TrimEndBy(s, IsNul) == s;
    TrimmedIsFixed(s, IsNumberWhite);
    ParseSignedShow(n);
  }

  lemma ParseSignedShow(n: int32)
    ensures ParseSigned(ShowInt(n as int)) == Success(n)
  {
    var s := ShowInt(n as int);
    var m: nat := if n < 0 then -(n as int) else n as int;
    DigitsValueOfShow(m);
    if n < 0 {
      assert s[1..] == ShowNat(m);
    }
  }

  /** NUL characters after the number are skipped, so "24\0" reads as 24. */
  lemma ParseTrailingNul()
    ensures ParseInt32("24\0") == Success(24)
  {
    var s := "24\0";
    assert TrimEndBy(s, IsNul) == "24" by {
      assert s[..2] == "24";
    }
    assert TrimBy("24", IsNumberWhite) == "24" by {
      TrimmedIsFixed("24", IsNumberWhite);
    }
    assert AllDigits("24");
    assert DigitsValue("24") == 24 by {
      assert "24"[..1] == "2";
      assert "2"[..0] == "";
    }
  }

  function HexDigit(d: nat): char
    requires d < 16
  {
    "0123456789ABCDEF"[d]
  }

  /** The format item {b:X2}: two upper-case hexadecimal digits. */
  function Hex2(b: byte): string {
    [HexDigit(b as int / 16), HexDigit(b as int % 16)]
  }

  /** The index of the first element of `xs` that starts with `prefix`, or -1. */
  function FindWithPrefix(xs: seq<string>, prefix: string): (k: int)
    ensures -1 <= k < |xs|
    ensures k >= 0 ==> StartsWith(xs[k], prefix)
    ensures forall j :: 0 <= j < |xs| && (k < 0 || j < k) ==> !StartsWith(xs[j], prefix)
  {
    if |xs| == 0 then -1
    else if StartsWith(xs[0], prefix) then 0
    else
      var j := FindWithPrefix(xs[1..], prefix);
      if j < 0 then -1 else j + 1
  }

  /** xs.FirstOrDefault(x => x.StartsWith(prefix)), with None for the default null. */
  function FirstWithPrefix(xs: seq<string>, prefix: string): (r: Option<string>)
    ensures r.Some? <==> exists k :: 0 <= k < |xs| && StartsWith(xs[k], prefix)
    ensures r.Some? ==> r.value in xs && StartsWith(r.value, prefix)
    ensures r.Some? ==> exists k :: 0 <= k < |xs| && r.value == xs[k] && StartsWith(xs[k], prefix)
                                    && forall j :: 0 <= j < k ==> !StartsWith(xs[j], prefix)
  {
    var k := FindWithPrefix(xs, prefix);
    if k < 0 then None else Some(xs[k])
  }
}
