/** StringExtensions.SplitTrim: split on one character, drop the empty parts, trim the rest. */
module StringExtensions {
  import opened Text

  /** The parts that are not empty, in order (StringSplitOptions.RemoveEmptyEntries). */
  function NonEmpty(parts: seq<string>): (r: seq<string>)
    ensures |r| <= |parts|
    ensures forall k :: 0 <= k < |r| ==> r[k] != "" && r[k] in parts
    ensures forall x :: x in parts && x != "" ==> x in r
  {
    if |parts| == 0 then []
    else if parts[0] == "" then NonEmpty(parts[1..])
    else [parts[0]] + NonEmpty(parts[1..])
  }

  /** The number of non-empty parts. */
  function CountNonEmpty(parts: seq<string>): nat {
    if |parts| == 0 then 0 else (if parts[0] == "" then 0 else 1) + CountNonEmpty(parts[1..])
  }

  /** Select(x => x.Trim()) */
  function TrimAll(parts: seq<string>): (r: seq<string>)
    ensures |r| == |parts|
    ensures forall k :: 0 <= k < |r| ==> r[k] == Trim(parts[k])
  {
    if |parts| == 0 then [] else [Trim(parts[0])] + TrimAll(parts[1..])
  }

  /** value.SplitTrim(separator): no element contains the separator. */
  function SplitTrim(value: string, separator: char): (r: seq<string>)
    ensures forall k :: 0 <= k < |r| ==> separator !in r[k]
  {
    var parts := NonEmpty(Split(value, separator));
    TrimAllWithout(parts, separator);
    TrimAll(parts)
  }

  /** Trimming keeps a character out of every element it was absent from. */
  lemma TrimAllWithout(parts: seq<string>, c: char)
    requires forall k :: 0 <= k < |parts| ==> c !in parts[k]
    ensures forall k :: 0 <= k < |TrimAll(parts)| ==> c !in TrimAll(parts)[k]
  {
    forall k | 0 <= k < |parts|
      ensures c !in Trim(parts[k])
    {
      TrimKeepsCharacters(parts[k], IsWhiteSpace);
    }
  }

  /** Removing the empty parts of a concatenation removes them from each half. */
  lemma {:induction false} NonEmptyAppend(a: seq<string>, b: seq<string>)
    ensures NonEmpty(a + b) == NonEmpty(a) + NonEmpty(b)
    decreases |a|
  {
    if |a| == 0 {
      assert a + b == b;
    } else {
      assert (a + b)[0] == a[0];
      assert (a + b)[1..] == a[1..] + b;
      NonEmptyAppend(a[1..], b);
    }
  }

  /** One part is kept exactly when it is not empty. */
  lemma NonEmptyOne(x: string)
    ensures NonEmpty([x]) == if x == "" then [] else [x]
  {
    assert [x][1..] == [];
  }

  /** Parts that are all non-empty are all kept, in order. */
  lemma {:induction false} NonEmptyKeepsAll(parts: seq<string>)
    requires forall k :: 0 <= k < |parts| ==> parts[k] != ""
    ensures NonEmpty(parts) == parts
    decreases |parts|
  {
    if |parts| > 0 {
      NonEmptyKeepsAll(parts[1..]);
    }
  }

  /** Parts that are all their own trim are left as they are. */
  lemma {:induction false} TrimAllKeepsTrimmed(parts: seq<string>)
    requires forall k :: 0 <= k < |parts| ==> Trimmed(parts[k])
    ensures TrimAll(parts) == parts
  {
    forall k | 0 <= k < |parts|
      ensures Trim(parts[k]) == parts[k]
    {
      TrimmedTrim(parts[k]);
    }
  }

  /**
   * SplitTrim reads back the non-empty, trimmed, separator-free parts a text was joined
   * from, in order.
   */
  lemma SplitTrimJoin(parts: seq<string>, separator: char)
    requires |parts| >= 1
    requires forall k :: 0 <= k < |parts| ==> parts[k] != "" && Trimmed(parts[k]) && separator !in parts[k]
    ensures SplitTrim(Join(parts, separator), separator) == parts
  {
    SplitJoin(parts, separator);
    NonEmptyKeepsAll(parts);
    TrimAllKeepsTrimmed(parts);
  }

  /**
   * No element of SplitTrim's result contains the separator, and each element is its
   * own trim, so trimming the result again changes nothing.
   */
  lemma SplitTrimElements(value: string, separator: char)
    ensures forall k :: 0 <= k < |SplitTrim(value, separator)| ==>
      separator !in SplitTrim(value, separator)[k] && Trim(SplitTrim(value, separator)[k]) == SplitTrim(value, separator)[k]
  {
    var parts := Split(value, separator);
    var ne := NonEmpty(parts);
    var r := SplitTrim(value, separator);
    forall k | 0 <= k < |r|
      ensures separator !in r[k] && Trim(r[k]) == r[k]
    {
      assert ne[k] in parts;
      TrimKeepsCharacters(ne[k], IsWhiteSpace);
      TrimIdempotent(ne[k], IsWhiteSpace);
    }
  }

  /** One element per non-empty part; an empty text gives none. */
  lemma {:induction false} NonEmptyCount(parts: seq<string>)
    ensures |NonEmpty(parts)| == CountNonEmpty(parts)
  {
    if |parts| > 0 {
      NonEmptyCount(parts[1..]);
    }
  }

  lemma SplitTrimLength(value: string, separator: char)
    ensures |SplitTrim(value, separator)| == CountNonEmpty(Split(value, separator))
    ensures value == "" ==> SplitTrim(value, separator) == []
  {
    NonEmptyCount(Split(value, separator));
    if value == "" {
      assert Split(value, separator) == [""];
    }
  }

  /** Empty parts are removed before trimming, so a part of only white space survives as "". */
  lemma {:induction false} BlankPartSurvives(parts: seq<string>, k: nat)
    requires k < |parts| && parts[k] != "" && forall j :: 0 <= j < |parts[k]| ==> IsWhiteSpace(parts[k][j])
    ensures "" in TrimAll(NonEmpty(parts))
  {
    if k == 0 {
      assert TrimStartBy(parts[0], IsWhiteSpace) == "" by {
        BlankTrimsAway(parts[0]);
      }
      assert TrimAll(NonEmpty(parts))[0] == Trim(parts[0]);
    } else {
      BlankPartSurvives(parts[1..], k - 1);
      var rest := TrimAll(NonEmpty(parts[1..]));
      if parts[0] != "" {
        assert TrimAll(NonEmpty(parts)) == [Trim(parts[0])] + rest;
      }
    }
  }

  lemma {:induction false} BlankTrimsAway(s: string)
    requires forall j :: 0 <= j < |s| ==> IsWhiteSpace(s[j])
    ensures TrimStartBy(s, IsWhiteSpace) == ""
  {
    if |s| > 0 {
      BlankTrimsAway(s[1..]);
    }
  }
}
