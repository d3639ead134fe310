# BusinessMonitor.MailTools in Dafny

This project models the core of BusinessMonitor.MailTools, a C# library for the DNS
records behind e-mail authentication. It covers:

- **SPF** (`SpfAddresses`, `SpfDirectives`, `SpfChecking`, `SpfProperties`):
  - `SpfCheck.ParseSpfRecord` cuts a `v=spf1` record into directives. Each directive has a
    qualifier, a mechanism and an include target or an `ip4`/`ip6` address.
  - `SpfCheck.GetSpfRecord` fetches the record and resolves its `include:` directives
    recursively. It counts lookups and refuses an include once 10 lookups have been made.
  - The class `SpfChecking.SpfCheck` holds that counter. A ghost log records the TXT names it
    queried. `GetSpfRecord` is proved against the pure `Resolve`/`ResolveIncludes`.
- **DKIM, DMARC and BIMI** (`Dkim`, `Dmarc`, `Bimi` and their `…Properties` modules):
  - Each parser checks the version prefix, splits the record at `;` and cuts every part at
    its first `=`.
  - It then writes the recognised tags into a record object. The record is a class whose
    constructor sets the source's defaults.
  - Each parse method is proved equal to a parse function. Lemmas then characterise that
    function: when it fails, and with which error; that each field is the value of the last
    tag of its name; and the repository's test records.
  - `TagLists` holds the tag-list machinery the three parsers share.
- **The DNS wire codec** (`DnsMessages`, `DnsProperties`):
  - `DnsMessageBuilder.BuildQuery`/`BuildQuestion` write a query (section 4.1 of RFC 1035).
    The random transaction id is a parameter.
  - `DnsMessageParser.ParseResponse` walks the answer records of a reply over a byte array.
    `ParseRData` formats A, TXT, MX, AAAA and raw-hex data.
  - Properties proved:
    - a query's header fields;
    - that a query is read back as a reply without answers;
    - that the walk reads back every record an encoder writes;
    - the text of each RDATA type.
- **The JSON DNS-over-HTTPS resolver's post-processing** (`DoHResolvers`, `DoHProperties`):
  - the type filter;
  - the TXT cleaning, which joins the character-strings of a long TXT record;
  - the MX host extraction;
  - the address parsing.
- **`IPAddressHelper.IsInRange`** (`IPAddressHelpers`, `IPAddressProperties`): the mask
  loop over a byte array and the in-place byte reversal. The test is characterised as an
  interval.
- **`MxValidator.ValidateMxRecords`** (`MxValidators`): reports the MX hosts that resolve
  to `127.0.0.1`.
- **Shared code:**
  - `StringExtensions.SplitTrim` (`StringExtensions`);
  - the test double `DummyResolver` (`DummyResolvers`), a class over a list of records;
  - the resolver interface, as the `Resolver` datatype of lookup functions (`Resolvers`).

An exception is modelled as `Failure(e)` of a `Result` (module `Wrappers`). `e` is one value
of the `Errors.Error` datatype, which keeps the exception's message. Library behaviour the
core calls but does not define is the `Platform.Library` datatype of functions. It is passed
to every operation that needs it:

- `IPAddress.Parse`, `IPAddress.ToString`;
- the scheme of `new Uri(s)`;
- whether `Convert.FromBase64String` accepts a text;
- `Encoding.UTF8.GetString`.

Where the repository's tests expect something the code does not do, the model follows the
code:

- `DmarcTests` expects `p`, `pct`, `ri`, `rf`, `rua` and `fo` to be interpreted, and
  `pct=10000` and `p=aaaa` to be rejected. `DmarcCheck.ParseDmarcRecord` reads only `adkim`
  and `aspf` (`Dmarc.UpdateDmarc`, `DmarcProperties.UncheckedTagRecord`,
  `DmarcProperties.OnlyModesChange`).
- `DmarcTests` expects `adkim=s; p=reject` to be rejected. The code accepts it
  (`DmarcProperties.ModeThenPolicyRecord`).
- `DkimTests` expects `InvalidDkimException`. `DkimCheck` throws `DkimInvalidException`,
  and the model keeps that (`Errors.Error.DkimInvalid`).
- `SpfTests.TestModifiers` reads `SpfRecord.Modifiers`. `SpfRecord` has no such property,
  and `ParseSpfRecord` rejects a `redirect=` term as an unknown mechanism.
- `BimiTests.TestInvalidArguments` expects argument exceptions for null arguments. The code
  has no checks for null.

## Model

| member | source | states |
|---|---|---|
| Text.IndexOf | BusinessMonitor.MailTools/Spf/SpfCheck.cs:124 | the first position of the character, -1 exactly when it is absent |
| Text.Concat | BusinessMonitor.MailTools.Dns/DoHResolverDNS.cs:260 | the texts one after the other; DnsProperties.ConcatHexPairs and RemoveDashes relate it to the removal of dashes |
| Text.Join | BusinessMonitor.MailTools.Dns/DoHResolverDNS.cs:239 | string.Join; Split inverts it for separator-free parts (Split, SplitJoin) |
| Text.Split | BusinessMonitor.MailTools/Spf/SpfCheck.cs:104 | at least one part; no part holds the separator; joining the parts with it gives the text back |
| Text.SplitJoin | BusinessMonitor.MailTools/Spf/SpfCheck.cs:104 | splitting the join of separator-free parts gives those parts |
| Text.SplitPair | BusinessMonitor.MailTools.Dns/DoHResolver.cs:96 | a text with one separator splits into the two texts around it |
| Text.SplitTrailing | BusinessMonitor.MailTools/Dmarc/DmarcCheck.cs:57 | a separator at the end adds one empty last part |
| Text.JoinEmptyLast | BusinessMonitor.MailTools/Dmarc/DmarcCheck.cs:57 | joining one more empty part appends one separator |
| Text.IndexOfAfterFree | BusinessMonitor.MailTools/Dkim/DkimCheck.cs:67-71 | the first occurrence in a + b is at the start of b when a does not hold the character |
| Text.TrimStartBy | BusinessMonitor.MailTools.Dns/DoHResolverDNS.cs:254 | the suffix left after only droppable characters, and it does not start with one |
| Text.TrimEndBy | BusinessMonitor.MailTools.Dns/DoHResolver.cs:65 | the prefix left before only droppable characters, and it does not end with one |
| Text.TrimBy | BusinessMonitor.MailTools.Dns/DoHResolver.cs:65 | no longer than the input, and no droppable character at either end |
| Text.TrimIdempotent | BusinessMonitor.MailTools.Dns/DoHResolver.cs:65 | trimming twice is trimming once |
| Text.TrimKeepsCharacters | BusinessMonitor.MailTools.Dns/DoHResolver.cs:65 | a trim keeps only characters of its input |
| Text.TrimmedTrim | BusinessMonitor.MailTools/Dkim/DkimCheck.cs:70-71 | Trim() leaves a text without white space at its ends unchanged |
| Text.TrimLeadingSpace | BusinessMonitor.MailTools/Dkim/DkimCheck.cs:70-71 | Trim() removes the space after a ';' in front of a trimmed tag |
| Text.Replace | BusinessMonitor.MailTools.Dns/DoHResolver.cs:65 | ordinal Replace, left to right without overlaps; its behaviour is stated by ReplaceAfterFree and ReplaceAbsent |
| Text.ReplaceAfterFree | BusinessMonitor.MailTools.Dns/DoHResolver.cs:65 | Replace cannot match inside a prefix without the pattern's first character |
| Text.ReplaceAbsent | BusinessMonitor.MailTools.Dns/DoHResolver.cs:65 | Replace leaves a text without the pattern's first character unchanged |
| Text.DigitChar | BusinessMonitor.MailTools.Dns/DoHResolverDNS.cs:239 | the decimal digit of the value |
| Text.ShowNat | BusinessMonitor.MailTools.Dns/DoHResolverDNS.cs:239 | a non-empty run of decimal digits |
| Text.DigitsValueOfShow | BusinessMonitor.MailTools.Dns/DoHResolverDNS.cs:239 | the decimal text of a number denotes that number |
| Text.ParseInt32 | BusinessMonitor.MailTools/Spf/SpfAddress.cs:23 | int.Parse skips white space and trailing NULs and fails only with FormatException or OverflowException |
| Text.ParseSigned | BusinessMonitor.MailTools/Spf/SpfAddress.cs:23 | an optional ASCII sign and decimal digits; FormatException otherwise, OverflowException outside Int32 |
| Text.ParseSignedShow | BusinessMonitor.MailTools/Spf/SpfAddress.cs:23 | the sign and digits Int32.ToString prints read back |
| Text.ParseTrailingNul | BusinessMonitor.MailTools/Spf/SpfAddress.cs:23 | "24\0" parses to 24, as .NET skips trailing NULs |
| Text.ParseShowInt32 | BusinessMonitor.MailTools/Spf/SpfAddress.cs:23 | int.Parse reads back every number Int32.ToString prints |
| Text.FindWithPrefix | BusinessMonitor.MailTools/Spf/SpfCheck.cs:50 | the first index whose text has the prefix, -1 when none has it |
| Text.FirstWithPrefix | BusinessMonitor.MailTools/Spf/SpfCheck.cs:50 | FirstOrDefault: found exactly when some text has the prefix, and then it is the first such text, no earlier one having the prefix |
| Platform.Wrap32 | BusinessMonitor.MailTools/Util/IPAddressHelper.cs:13 | C# int wrap-around: the value itself in range, congruent modulo 2^32 outside it |
| StringExtensions.NonEmpty | BusinessMonitor.MailTools/Util/StringExtensions.cs:7 | RemoveEmptyEntries keeps only non-empty parts of the input, and every non-empty part occurs in the result |
| StringExtensions.NonEmptyAppend | BusinessMonitor.MailTools/Util/StringExtensions.cs:7 | removing empty parts distributes over concatenation, so the kept parts stay in order |
| StringExtensions.NonEmptyOne | BusinessMonitor.MailTools/Util/StringExtensions.cs:7 | one part is kept exactly when it is not empty |
| StringExtensions.NonEmptyKeepsAll | BusinessMonitor.MailTools/Util/StringExtensions.cs:7 | non-empty parts are all kept, in order |
| StringExtensions.TrimAllKeepsTrimmed | BusinessMonitor.MailTools/Util/StringExtensions.cs:7 | Select(Trim) leaves parts without white space at their ends unchanged |
| StringExtensions.TrimAllWithout | BusinessMonitor.MailTools/Util/StringExtensions.cs:7 | Select(Trim) adds no character to any part |
| StringExtensions.SplitTrim | BusinessMonitor.MailTools/Util/StringExtensions.cs:5-8 | split, RemoveEmptyEntries, Trim; no element holds the separator |
| StringExtensions.SplitTrimJoin | BusinessMonitor.MailTools/Util/StringExtensions.cs:5-8 | SplitTrim gives back the non-empty trimmed separator-free parts a text was joined from, in order |
| StringExtensions.TrimAll | BusinessMonitor.MailTools/Util/StringExtensions.cs:7 | Select(Trim): one trimmed part per part |
| StringExtensions.SplitTrimElements | BusinessMonitor.MailTools/Util/StringExtensions.cs:5-8 | every element of SplitTrim is trimmed and holds no separator |
| StringExtensions.NonEmptyCount | BusinessMonitor.MailTools/Util/StringExtensions.cs:7 | RemoveEmptyEntries keeps one part per non-empty part |
| StringExtensions.SplitTrimLength | BusinessMonitor.MailTools/Util/StringExtensions.cs:5-8 | one element per non-empty part, and none for the empty text |
| StringExtensions.BlankPartSurvives | BusinessMonitor.MailTools/Util/StringExtensions.cs:7 | a part of only white space is trimmed after the empty parts are removed, so "" can be an element |
| StringExtensions.BlankTrimsAway | BusinessMonitor.MailTools/Util/StringExtensions.cs:7 | a text of only white space trims to "" |
| TagLists.TagsOf | BusinessMonitor.MailTools/Dkim/DkimCheck.cs:62 | Split(';').Skip(1): one part fewer than the split, none holding ';' |
| TagLists.PartsOf | BusinessMonitor.MailTools/Dkim/DkimCheck.cs:62-71 | the cut parts of the tag list; TagRecordParts reads a written record back through it |
| TagLists.CutTag | BusinessMonitor.MailTools/Dkim/DkimCheck.cs:67-71 | a part is skipped exactly when it has no '=' |
| TagLists.CutTags | BusinessMonitor.MailTools/Dkim/DkimCheck.cs:65-71 | every part cut, in order |
| TagLists.LastValue | BusinessMonitor.MailTools/Dkim/DkimCheck.cs:65-119 | the value the last tag of a name leaves, None exactly when no part has that name |
| TagLists.LastValueCons | BusinessMonitor.MailTools/Dkim/DkimCheck.cs:65-119 | a later tag of the name overrides an earlier one |
| TagLists.LastValueOne | BusinessMonitor.MailTools/Dkim/DkimCheck.cs:65-119 | a single part sets the value exactly when it has the name |
| TagLists.OrElse | BusinessMonitor.MailTools/Dkim/DkimRecord.cs:8-16 | a value that was set, else the constructor's default |
| TagLists.ApplyTags | BusinessMonitor.MailTools/Dkim/DkimCheck.cs:65-119 | the foreach over the parts, stopping at the first throwing part; stated by ApplyTagsStep and ApplyTagsOutcome |
| TagLists.ApplyTagsStep | BusinessMonitor.MailTools/Dkim/DkimCheck.cs:65-119 | the tag loop fails at a part that fails and otherwise goes on from the updated record |
| TagLists.ApplyTagsOutcome | BusinessMonitor.MailTools/Dkim/DkimCheck.cs:65-119 | the loop succeeds exactly when every part is accepted, and otherwise fails with the first rejected part's error |
| TagLists.TagText | BusinessMonitor.MailTools/Dkim/DkimCheck.cs:67-71 | name=value cuts into the trimmed name and the trimmed value |
| TagLists.TagParts | BusinessMonitor.MailTools/Dkim/DkimCheck.cs:62 | every tag written out, in order |
| TagLists.TagPartCut | BusinessMonitor.MailTools/Dkim/DkimCheck.cs:67-71 | a tag written as " name=value" is cut back into itself, also when its value holds '=' |
| TagLists.TagsOfParts | BusinessMonitor.MailTools/Dkim/DkimCheck.cs:62 | the parts after the version of a record joined with ';' are those parts |
| TagLists.JoinStartsWith | BusinessMonitor.MailTools/Dkim/DkimCheck.cs:56 | such a record starts with its version |
| TagLists.TagRecordParts | BusinessMonitor.MailTools/Dkim/DkimCheck.cs:56-71 | a record written from plain tags starts with its version and is cut back into its tags |
| TagLists.OneTagRecord | BusinessMonitor.MailTools/Dkim/DkimCheck.cs:56-71 | the same for one tag |
| TagLists.TwoTagRecord | BusinessMonitor.MailTools/Dkim/DkimCheck.cs:56-71 | the same for two tags |
| TagLists.ThreeTagRecord | BusinessMonitor.MailTools/Dkim/DkimCheck.cs:56-71 | the same for three tags |
| Dkim.DkimRecord.constructor | BusinessMonitor.MailTools/Dkim/DkimRecord.cs:8-16 | no hash algorithms, key type "rsa", no notes, no key, no services, no flags |
| Dkim.ValidateBase64 | BusinessMonitor.MailTools/Dkim/DkimCheck.cs:131-147 | passes exactly when the key is empty or valid base64, and otherwise fails with the base64 message |
| Dkim.AddFlags | BusinessMonitor.MailTools/Dkim/DkimCheck.cs:106-112 | y sets Testing and s sets SameDomain; flags set earlier stay set |
| Dkim.UpdateDkim | BusinessMonitor.MailTools/Dkim/DkimCheck.cs:74-118 | fails exactly on a p= value that is not base64 |
| Dkim.ApplyDkimTag | BusinessMonitor.MailTools/Dkim/DkimCheck.cs:65-119 | a part fails exactly when it is a p= tag without a valid base64 value |
| Dkim.ParseDkim | BusinessMonitor.MailTools/Dkim/DkimCheck.cs:53-129 | a record without the version fails with its message; an accepted record has a public key |
| Dkim.SetFlags | BusinessMonitor.MailTools/Dkim/DkimCheck.cs:105-114 | the record's flags are AddFlags of the listed flags, and nothing else changes |
| Dkim.UpdateDkimRecord | BusinessMonitor.MailTools/Dkim/DkimCheck.cs:74-118 | the switch writes into the record what UpdateDkim computes, or gives its error |
| Dkim.ApplyDkimTags | BusinessMonitor.MailTools/Dkim/DkimCheck.cs:65-119 | the loop leaves in the record what the tag-list function computes, or gives its error |
| Dkim.ParseDkimRecord | BusinessMonitor.MailTools/Dkim/DkimCheck.cs:53-129 | a fresh record holding ParseDkim's fields, or ParseDkim's error |
| Dkim.DkimTags | BusinessMonitor.MailTools/Dkim/DkimCheck.cs:62-125 | past the version, the result is the tag loop's, or the missing-key error when no p= was seen |
| Dkim.GetDkim | BusinessMonitor.MailTools/Dkim/DkimCheck.cs:30-45 | without a v=DKIM1 TXT record under selector._domainkey.domain, the not-found error naming the selector; otherwise ParseDkim of the first TXT text there that starts with v=DKIM1 |
| Dkim.DkimCheck.constructor | BusinessMonitor.MailTools/Dkim/DkimCheck.cs:17-20 | keeps the resolver |
| Dkim.DkimCheck.GetDkimRecord | BusinessMonitor.MailTools/Dkim/DkimCheck.cs:30-45 | a fresh record holding GetDkim's fields, or GetDkim's error |
| DkimProperties.DkimTagFields | BusinessMonitor.MailTools/Dkim/DkimCheck.cs:74-118 | an accepted part sets each field as the last-tag-wins view says |
| DkimProperties.DkimTagsOutcome | BusinessMonitor.MailTools/Dkim/DkimCheck.cs:65-119 | the tag loop succeeds exactly when every p= value is base64, and otherwise fails with the base64 message |
| DkimProperties.FlagListedCons | BusinessMonitor.MailTools/Dkim/DkimCheck.cs:105-114 | a flag is listed in a list exactly when it is listed in its first part or in the rest |
| DkimProperties.FieldsAfterCons | BusinessMonitor.MailTools/Dkim/DkimCheck.cs:65-119 | the last-tag-wins view of one part and then the rest is that of the whole list |
| DkimProperties.DkimTagsFields | BusinessMonitor.MailTools/Dkim/DkimCheck.cs:65-119 | each field of an accepted tag list is that of its last tag; a flag is set when any t= lists it |
| DkimProperties.ParseDkimMeaning | BusinessMonitor.MailTools/Dkim/DkimCheck.cs:53-129 | accepted exactly when the record has the version, every p= is base64 and some p= is present; the fields are then the last-tag-wins view |
| DkimProperties.ParseDkimErrors | BusinessMonitor.MailTools/Dkim/DkimCheck.cs:53-147 | the three errors (no version, bad key, missing key) and exactly when each is raised |
| DkimProperties.KeyAndNotesTags | BusinessMonitor.MailTools.Test/DkimTests.cs:10-20 | the tag list p=key; n=notes sets both |
| DkimProperties.KeyAndNotesRecord | BusinessMonitor.MailTools.Test/DkimTests.cs:10-20 | "v=DKIM1; p=key; n=notes" gives that key and those notes, the rest at the defaults |
| DkimProperties.KeyOnlyTags | BusinessMonitor.MailTools.Test/DkimTests.cs:62-69 | the tag list p=key fails exactly when the key is not base64 |
| DkimProperties.KeyOnlyRecord | BusinessMonitor.MailTools.Test/DkimTests.cs:62-69 | "v=DKIM1; p=" is accepted with the empty (revoked) key |
| DkimProperties.NotesOnlyTags | BusinessMonitor.MailTools.Test/DkimTests.cs:50-60 | the tag list n=notes sets only the notes |
| DkimProperties.NotesOnlyRecord | BusinessMonitor.MailTools.Test/DkimTests.cs:50-60 | a record without p= fails with the missing-key error |
| DkimProperties.TestingSameDomain | BusinessMonitor.MailTools.Test/DkimTests.cs:22-35 | t=y:s lists the flags y and s |
| DkimProperties.KeyAndFlagsTags | BusinessMonitor.MailTools.Test/DkimTests.cs:22-35 | the tag list p=key; t=y:s sets the key and both flags |
| DkimProperties.KeyAndFlagsRecord | BusinessMonitor.MailTools.Test/DkimTests.cs:22-35 | "v=DKIM1; p=key; t=y:s" sets Testing and SameDomain |
| DkimProperties.DkimLookup | BusinessMonitor.MailTools.Test/DkimTests.cs:37-48 | a resolver holding the record under one selector serves it for that selector and not for another |
| Dmarc.DmarcRecord.constructor | BusinessMonitor.MailTools/Dmarc/DmarcRecord.cs:8-19 | relaxed alignment, FailureOptions All, 100 percent, afrf, 86400 seconds; SubdomainPolicy keeps its zero value |
| Dmarc.GetAlignmentMode | BusinessMonitor.MailTools/Dmarc/DmarcCheck.cs:111-119 | r is relaxed, s is strict, anything else fails with the alignment message |
| Dmarc.ModeLetter | BusinessMonitor.MailTools/Dmarc/DmarcCheck.cs:111-119 | the letter adkim= and aspf= give a mode; GetAlignmentMode accepts exactly these letters, and DmarcProperties.AlignmentRoundTrip reads each back as its mode |
| Dmarc.UpdateDmarc | BusinessMonitor.MailTools/Dmarc/DmarcCheck.cs:67-104 | fails exactly on an adkim= or aspf= value other than r and s |
| Dmarc.ApplyDmarcTag | BusinessMonitor.MailTools/Dmarc/DmarcCheck.cs:60-105 | a part without '=' fails with ArgumentOutOfRangeException; otherwise as UpdateDmarc |
| Dmarc.ParseDmarc | BusinessMonitor.MailTools/Dmarc/DmarcCheck.cs:48-109 | a record without the version fails with its message |
| Dmarc.UpdateDmarcRecord | BusinessMonitor.MailTools/Dmarc/DmarcCheck.cs:67-104 | the switch writes into the record what UpdateDmarc computes, or gives its error |
| Dmarc.ApplyDmarcTags | BusinessMonitor.MailTools/Dmarc/DmarcCheck.cs:60-105 | the loop leaves in the record what the tag-list function computes, or gives its error |
| Dmarc.DmarcTagStep | BusinessMonitor.MailTools/Dmarc/DmarcCheck.cs:60-105 | the tag loop, one part further |
| Dmarc.ParseDmarcRecord | BusinessMonitor.MailTools/Dmarc/DmarcCheck.cs:48-109 | a fresh record holding ParseDmarc's fields, or ParseDmarc's error |
| Dmarc.GetDmarc | BusinessMonitor.MailTools/Dmarc/DmarcCheck.cs:26-41 | without a v=DMARC1 TXT record under _dmarc.domain, the missing-record error; otherwise ParseDmarc of the first TXT text there that starts with v=DMARC1 |
| Dmarc.DmarcCheck.constructor | BusinessMonitor.MailTools/Dmarc/DmarcCheck.cs:17-20 | keeps the resolver |
| Dmarc.DmarcCheck.GetDmarcRecord | BusinessMonitor.MailTools/Dmarc/DmarcCheck.cs:26-41 | a fresh record holding GetDmarc's fields, or GetDmarc's error |
| DmarcProperties.DmarcTagsOutcome | BusinessMonitor.MailTools/Dmarc/DmarcCheck.cs:60-105 | the tag loop succeeds exactly when every part has '=' and good alignment letters, and otherwise fails with the first bad part's error |
| DmarcProperties.DmarcTagFields | BusinessMonitor.MailTools/Dmarc/DmarcCheck.cs:67-104 | an accepted part sets the modes as the last-tag-wins view says |
| DmarcProperties.DmarcAfterCons | BusinessMonitor.MailTools/Dmarc/DmarcCheck.cs:60-105 | the view of one part and then the rest is that of the whole list |
| DmarcProperties.DmarcTagsFields | BusinessMonitor.MailTools/Dmarc/DmarcCheck.cs:60-105 | an accepted tag list leaves the modes of its last adkim= and aspf= and nothing else changed |
| DmarcProperties.ParseDmarcMeaning | BusinessMonitor.MailTools/Dmarc/DmarcCheck.cs:48-109 | accepted exactly when the record has the version and every part is accepted; the fields are then the defaults with the last modes |
| DmarcProperties.ParseDmarcErrors | BusinessMonitor.MailTools/Dmarc/DmarcCheck.cs:48-109 | every error is the version error, the alignment error or ArgumentOutOfRangeException |
| DmarcProperties.OnlyModesChange | BusinessMonitor.MailTools/Dmarc/DmarcCheck.cs:67-104 | a parsed record differs from the defaults only in its two alignment modes |
| DmarcProperties.TrailingSemicolon | BusinessMonitor.MailTools/Dmarc/DmarcCheck.cs:57-64 | a record ending in ';' fails, because its empty last part has no '=' |
| DmarcProperties.VersionOnlyRecord | BusinessMonitor.MailTools.Test/DmarcTests.cs:46-66 | "v=DMARC1" alone gives the defaults, FailureOptions All among them |
| DmarcProperties.StrictTags | BusinessMonitor.MailTools.Test/DmarcTests.cs:12-27 | the tag list p=reject; adkim=s; aspf=s sets both modes strict |
| DmarcProperties.StrictRecord | BusinessMonitor.MailTools.Test/DmarcTests.cs:12-27 | "v=DMARC1; p=reject; adkim=s; aspf=s" gives strict modes and leaves the policy at its default |
| DmarcProperties.BadAlignmentTags | BusinessMonitor.MailTools.Test/DmarcTests.cs:68-80 | the tag list adkim=s; aspf=x fails with the alignment error |
| DmarcProperties.BadAlignmentRecord | BusinessMonitor.MailTools.Test/DmarcTests.cs:68-80 | "v=DMARC1; adkim=s; aspf=x" fails with the alignment error |
| DmarcProperties.UncheckedTags | BusinessMonitor.MailTools/Dmarc/DmarcCheck.cs:81-103 | a tag other than adkim and aspf changes nothing |
| DmarcProperties.UncheckedTagRecord | BusinessMonitor.MailTools.Test/DmarcTests.cs:68-80 | a record whose one tag is neither adkim nor aspf (pct=10000, p=aaaa) is accepted with the defaults |
| DmarcProperties.ModeThenPolicyTags | BusinessMonitor.MailTools.Test/DmarcTests.cs:68-80 | the tag list adkim=s; p=reject sets the DKIM mode strict |
| DmarcProperties.ModeThenPolicyRecord | BusinessMonitor.MailTools.Test/DmarcTests.cs:68-80 | "v=DMARC1; adkim=s; p=reject" is accepted |
| DmarcProperties.DmarcLookup | BusinessMonitor.MailTools.Test/DmarcTests.cs:29-44 | a resolver holding the record under _dmarc.domain serves it for that domain and not for another |
| Bimi.BimiRecord.constructor | BusinessMonitor.MailTools/Bimi/BimiRecord.cs:8-13 | no location and no evidence |
| Bimi.ValidateUri | BusinessMonitor.MailTools/Bimi/BimiCheck.cs:99-122 | passes exactly when the value is empty or an absolute https URI; otherwise the not-a-URI or not-https message for its kind |
| Bimi.UpdateBimi | BusinessMonitor.MailTools/Bimi/BimiCheck.cs:70-86 | fails exactly on an a= or l= value ValidateUri rejects |
| Bimi.ApplyBimiTag | BusinessMonitor.MailTools/Bimi/BimiCheck.cs:62-87 | a part fails exactly when it is an a= or l= tag with a rejected URI |
| Bimi.ParseBimi | BusinessMonitor.MailTools/Bimi/BimiCheck.cs:50-97 | a record without the version fails with its message; an accepted record has a location |
| Bimi.UpdateBimiRecord | BusinessMonitor.MailTools/Bimi/BimiCheck.cs:70-86 | the switch writes into the record what UpdateBimi computes, or gives its error |
| Bimi.ApplyBimiTags | BusinessMonitor.MailTools/Bimi/BimiCheck.cs:62-87 | the loop leaves in the record what the tag-list function computes, or gives its error |
| Bimi.BimiTagStep | BusinessMonitor.MailTools/Bimi/BimiCheck.cs:62-87 | the tag loop, one part further |
| Bimi.ParseBimiRecord | BusinessMonitor.MailTools/Bimi/BimiCheck.cs:50-97 | a fresh record holding ParseBimi's fields, or ParseBimi's error |
| Bimi.BimiTags | BusinessMonitor.MailTools/Bimi/BimiCheck.cs:59-93 | past the version, the result is the tag loop's, or the missing-location error when no l= was seen |
| Bimi.GetBimi | BusinessMonitor.MailTools/Bimi/BimiCheck.cs:28-43 | without a v=BIMI1 TXT record under selector._bimi.domain, the not-found error naming the selector; otherwise ParseBimi of the first TXT text there that starts with v=BIMI1 |
| Bimi.BimiCheck.constructor | BusinessMonitor.MailTools/Bimi/BimiCheck.cs:17-20 | keeps the resolver |
| Bimi.BimiCheck.GetBimiRecord | BusinessMonitor.MailTools/Bimi/BimiCheck.cs:28-43 | a fresh record holding GetBimi's fields (selector "default" unless given), or GetBimi's error |
| BimiProperties.BimiStepOutcome | BusinessMonitor.MailTools/Bimi/BimiCheck.cs:62-87 | one part is accepted exactly when it is not an a=/l= tag with a rejected URI |
| BimiProperties.BimiTagsOutcome | BusinessMonitor.MailTools/Bimi/BimiCheck.cs:62-87 | the tag loop succeeds exactly when every a= and l= URI is accepted, and otherwise fails with the first bad one's error |
| BimiProperties.BimiTagFields | BusinessMonitor.MailTools/Bimi/BimiCheck.cs:70-86 | an accepted part sets the fields as the last-tag-wins view says |
| BimiProperties.BimiAfterCons | BusinessMonitor.MailTools/Bimi/BimiCheck.cs:62-87 | the view of one part and then the rest is that of the whole list |
| BimiProperties.BimiTagsFields | BusinessMonitor.MailTools/Bimi/BimiCheck.cs:62-87 | an accepted tag list leaves the evidence of its last a= and the location of its last l= |
| BimiProperties.ParseBimiMeaning | BusinessMonitor.MailTools/Bimi/BimiCheck.cs:50-97 | accepted exactly when the record has the version, every URI is accepted and an l= is present; the fields are then the last-tag-wins view |
| BimiProperties.ParseBimiErrors | BusinessMonitor.MailTools/Bimi/BimiCheck.cs:50-97 | the version error, the first bad URI's error and the missing-location error, and exactly when each is raised |
| BimiProperties.ParseBimiInvalidOnly | BusinessMonitor.MailTools/Bimi/BimiCheck.cs:50-97 | every error of the parser is a BimiInvalidException |
| BimiProperties.VersionOnlyRecord | BusinessMonitor.MailTools.Test/BimiTests.cs:45-57 | "v=BIMI1" alone fails with the missing-location error |
| BimiProperties.UriTags | BusinessMonitor.MailTools/Bimi/BimiCheck.cs:74-85 | a single a= or l= tag is accepted exactly when ValidateUri accepts its value |
| BimiProperties.LocationOnlyRecord | BusinessMonitor.MailTools.Test/BimiTests.cs:13-31 | "v=BIMI1; l=uri" is accepted with that location exactly when the URI is accepted |
| BimiProperties.EmptyLocationRecord | BusinessMonitor.MailTools.Test/BimiTests.cs:13-31 | "v=BIMI1; l=" is accepted with an empty location |
| BimiProperties.EvidenceOnlyRecord | BusinessMonitor.MailTools.Test/BimiTests.cs:45-57 | a record with only a= fails, with the URI error or with the missing-location error |
| BimiProperties.LocationAndEvidenceTags | BusinessMonitor.MailTools.Test/BimiTests.cs:13-31 | the tag list l=uri; a=uri with accepted URIs sets both |
| BimiProperties.LocationAndEvidenceRecord | BusinessMonitor.MailTools.Test/BimiTests.cs:13-31 | such a record keeps both URIs |
| BimiProperties.BimiLookup | BusinessMonitor.MailTools.Test/BimiTests.cs:33-43 | a resolver holding the record under default._bimi.domain serves it for the default selector and not for another |
| SpfAddresses.AddressText | BusinessMonitor.MailTools/Spf/SpfAddress.cs:15-22 | the text before the first '/', the whole value without one |
| SpfAddresses.LengthText | BusinessMonitor.MailTools/Spf/SpfAddress.cs:15-23 | the text after the first '/', present exactly when there is one |
| SpfAddresses.Parse | BusinessMonitor.MailTools/Spf/SpfAddress.cs:13-28 | succeeds exactly when the address parses and any length is an int; keeps that address and has a length exactly when the value has '/' |
| SpfAddresses.ParseToString | BusinessMonitor.MailTools/Spf/SpfAddress.cs:13-58 | parsing the printed form of an address gives it back |
| SpfAddresses.ShowAddress | BusinessMonitor.MailTools/Spf/SpfAddress.cs:55-58 | an address prints as the text its address and length were read from |
| SpfAddresses.ToStringParse | BusinessMonitor.MailTools/Spf/SpfAddress.cs:13-58 | printing a parsed address gives the text back when address and length print canonically |
| SpfAddresses.Contains | BusinessMonitor.MailTools/Spf/SpfAddress.cs:45-53 | without a length, whether the address is the one given; with a length, NotImplementedException |
| SpfDirectives.QualifierChar | BusinessMonitor.MailTools/Spf/SpfCheck.cs:25 | the character of a qualifier is one of + - ~ ? |
| SpfDirectives.QualifierOf | BusinessMonitor.MailTools/Spf/SpfCheck.cs:159 | Array.IndexOf of a qualifier character gives the qualifier with that character |
| SpfDirectives.MechanismName | BusinessMonitor.MailTools/Spf/SpfCheck.cs:20 | the name of a mechanism is one of the eight names |
| SpfDirectives.MechanismOf | BusinessMonitor.MailTools/Spf/SpfCheck.cs:160 | Enum.Parse of a name gives the mechanism with that name |
| SpfDirectives.NewDirective | BusinessMonitor.MailTools/Spf/SpfDirective.cs:9-18 | the qualifier and mechanism given, nothing else set |
| SpfDirectives.ParseDirective | BusinessMonitor.MailTools/Spf/SpfCheck.cs:151-184 | an unknown mechanism fails with its message; otherwise the qualifier and mechanism given, the include target for include, the parsed address for ip4/ip6 |
| SpfDirectives.TermQualifier | BusinessMonitor.MailTools/Spf/SpfCheck.cs:112-121 | the first character when it is a qualifier, else "+" |
| SpfDirectives.ParseTerm | BusinessMonitor.MailTools/Spf/SpfCheck.cs:109-136 | an empty term fails in Substring(0, 1); a parsed term keeps the term's qualifier and mechanism |
| SpfDirectives.TermMechanism | BusinessMonitor.MailTools/Spf/SpfCheck.cs:124-133 | the body up to its first ':', which holds no ':' |
| SpfDirectives.MechanismNameShape | BusinessMonitor.MailTools/Spf/SpfCheck.cs:20 | no mechanism name is empty, starts with a qualifier or holds ':' |
| SpfDirectives.QualifiedBody | BusinessMonitor.MailTools/Spf/SpfCheck.cs:112-121 | a qualifier character, or none, is split off the rest of the term |
| SpfDirectives.NamedBody | BusinessMonitor.MailTools/Spf/SpfCheck.cs:124-133 | name[:value] is cut at the first ':' into name and value |
| SpfDirectives.TermParts | BusinessMonitor.MailTools/Spf/SpfCheck.cs:112-133 | a term is cut into its own qualifier, name and value |
| SpfDirectives.TermTextParts | BusinessMonitor.MailTools/Spf/SpfCheck.cs:112-133 | a term written as in section 4.6.1 of RFC 7208 is cut into its qualifier, mechanism name and value |
| SpfDirectives.ParseTermText | BusinessMonitor.MailTools/Spf/SpfCheck.cs:108-137 | such a term (not ip4 or ip6) parses to the directive it describes |
| SpfDirectives.DirectiveOfNames | BusinessMonitor.MailTools/Spf/SpfCheck.cs:151-184 | ParseDirective on the names of a qualifier and a mechanism (not ip4 or ip6) gives them back |
| SpfDirectives.QualifierRoundTrip | BusinessMonitor.MailTools/Spf/SpfCheck.cs:159 | the character of a qualifier reads back as that qualifier |
| SpfDirectives.MechanismRoundTrip | BusinessMonitor.MailTools/Spf/SpfCheck.cs:160 | the name of a mechanism reads back as that mechanism |
| SpfDirectives.ParseAddressTermText | BusinessMonitor.MailTools/Spf/SpfCheck.cs:165-181 | an ip4 or ip6 term succeeds exactly when its value parses as an address |
| SpfChecking.ParseTerms | BusinessMonitor.MailTools/Spf/SpfCheck.cs:104-139 | on success, one directive more per term |
| SpfChecking.ParseTermsInOrder | BusinessMonitor.MailTools/Spf/SpfCheck.cs:104-139 | the directives are those already collected, then one per term in the terms' order |
| SpfChecking.ParseTermsFailure | BusinessMonitor.MailTools/Spf/SpfCheck.cs:104-139 | fails exactly when some term fails, and then with the first failing term's error |
| SpfChecking.ParseRecordWith | BusinessMonitor.MailTools/Spf/SpfCheck.cs:95-142 | without the version, its message; on success one directive per term after it |
| SpfChecking.ParseRecord | BusinessMonitor.MailTools/Spf/SpfCheck.cs:95-142 | the same with the library's term parser |
| SpfChecking.TermParser | BusinessMonitor.MailTools/Spf/SpfCheck.cs:107-139 | the parser the loop applies to each term; its outcome is stated by ParseTerm and ParseTermText |
| SpfChecking.TermsAfterFirst | BusinessMonitor.MailTools/Spf/SpfCheck.cs:104 | directive k comes from term k + 1 |
| SpfChecking.ParseRecordTerms | BusinessMonitor.MailTools/Spf/SpfCheck.cs:95-142 | an accepted record has the version and its directives are the parsed terms after it, in order |
| SpfChecking.VersionedRecordTerms | BusinessMonitor.MailTools/Spf/SpfCheck.cs:95-142 | for a record with the version: it parses exactly when every term after the first does, directive k - 1 is term k's, and a failure is some term's error |
| SpfChecking.RecordOfTerms | BusinessMonitor.MailTools/Spf/SpfCheck.cs:95-142 | a record with the version parses to the directives of its terms after the first, or to their first error |
| SpfChecking.LibTermsAfterFirst | BusinessMonitor.MailTools/Spf/SpfCheck.cs:104-139 | TermsAfterFirst with each term parsed by ParseTerm |
| SpfChecking.ParseOneTerm | BusinessMonitor.MailTools/Spf/SpfCheck.cs:108-137 | the loop body on one term computes what ParseTerm specifies |
| SpfChecking.ParseSpfRecord | BusinessMonitor.MailTools/Spf/SpfCheck.cs:95-142 | the loop computes ParseRecord |
| SpfChecking.Resolve | BusinessMonitor.MailTools/Spf/SpfCheck.cs:44-77 | queries the domain first and at most MaxLookups - n names; on success the counter has gone up by two per query, less one |
| SpfChecking.ResolveIncludes | BusinessMonitor.MailTools/Spf/SpfCheck.cs:60-74 | at most MaxLookups - n queries; on success the counter has gone up by two per query |
| SpfChecking.ResolveParsed | BusinessMonitor.MailTools/Spf/SpfCheck.cs:44-77 | a lookup fails with the parse error, or goes on to the directives of the parsed record |
| SpfChecking.ResolveMissing | BusinessMonitor.MailTools/Spf/SpfCheck.cs:46-55 | a name without a v=spf1 text fails with "Domain does not contain a SPF record" after one query and one count |
| SpfChecking.ResolveUnparsed | BusinessMonitor.MailTools/Spf/SpfCheck.cs:46-58 | a record that does not parse fails with the parse error after one query and one count |
| SpfChecking.ResolveResolved | BusinessMonitor.MailTools/Spf/SpfCheck.cs:46-76 | once the directives are resolved, the lookup's result, counter and query log are theirs behind the domain's own query |
| SpfChecking.IncludesSkip | BusinessMonitor.MailTools/Spf/SpfCheck.cs:62 | a directive that is not an include with a target is kept as it is |
| SpfChecking.IncludesRefused | BusinessMonitor.MailTools/Spf/SpfCheck.cs:64-67 | an include when the counter has reached 10 fails with the exceeds-lookups error |
| SpfChecking.IncludeFailed | BusinessMonitor.MailTools/Spf/SpfCheck.cs:69 | a failing nested lookup ends the walk with its error |
| SpfChecking.IncludeFilled | BusinessMonitor.MailTools/Spf/SpfCheck.cs:69-72 | a nested lookup's record is stored in the include, the counter goes up by one, and the nested queries come first |
| SpfChecking.SpfCheck.constructor | BusinessMonitor.MailTools/Spf/SpfCheck.cs:34-38 | keeps the resolver; no lookups yet |
| SpfChecking.SpfCheck.GetSpfRecord | BusinessMonitor.MailTools/Spf/SpfCheck.cs:44-77 | the result, the counter after it and the queries made are those of Resolve |
| SpfChecking.SpfCheck.ResolveDirectives | BusinessMonitor.MailTools/Spf/SpfCheck.cs:60-74 | the loop's result, counter and queries are those of ResolveIncludes |
| SpfChecking.SpfCheck.VisitDirective | BusinessMonitor.MailTools/Spf/SpfCheck.cs:62-73 | one directive: unchanged, or its include filled by a nested lookup, or the walk's error; the names it queries are logged in order |
| SpfProperties.IncludesKeep | BusinessMonitor.MailTools/Spf/SpfCheck.cs:60-74 | resolving keeps the number, order, qualifiers and mechanisms of the directives and leaves non-includes unchanged |
| SpfProperties.IncludesFilled | BusinessMonitor.MailTools/Spf/SpfCheck.cs:69-72 | every include with a target holds a record some lookup of its target gave |
| SpfProperties.ResolveAnnotates | BusinessMonitor.MailTools/Spf/SpfCheck.cs:44-77 | a resolved record is its parsed record with includes filled |
| SpfProperties.ParseTermsFresh | BusinessMonitor.MailTools/Spf/SpfCheck.cs:104-139 | the term loop adds no included record |
| SpfProperties.TermParserFresh | BusinessMonitor.MailTools/Spf/SpfCheck.cs:151-184 | a parsed directive has no included record |
| SpfProperties.ParsedIncludesNothing | BusinessMonitor.MailTools/Spf/SpfCheck.cs:95-142 | no directive of a parsed record has an included record |
| SpfProperties.ResolveErrors | BusinessMonitor.MailTools/Spf/SpfCheck.cs:44-77 | a lookup fails only with not-found, exceeds-lookups or a parse error |
| SpfProperties.IncludesErrors | BusinessMonitor.MailTools/Spf/SpfCheck.cs:60-74 | an include walk fails only with those errors |
| SpfProperties.ExhaustedRefusesIncludes | BusinessMonitor.MailTools/Spf/SpfCheck.cs:64-67 | with the counter spent, a walk queries nothing, and it fails exactly when an include with a target is left |
| SpfProperties.SelfIncludeFails | BusinessMonitor.MailTools.Test/SpfTests.cs:122-132 | a record that includes its own domain fails with the exceeds-lookups error, after one query of that domain per lookup left, with the counter at 10 |
| SpfProperties.SelfIncludeUnfold | BusinessMonitor.MailTools/Spf/SpfCheck.cs:44-77 | a self-including lookup is one query, then the same lookup one count on, refused once the counter reaches 10 |
| SpfProperties.OneInclude | BusinessMonitor.MailTools/Spf/SpfCheck.cs:60-74 | a walk over one include is refused, fails with the nested error, or fills it |
| SpfProperties.ParseOneOfTerms | BusinessMonitor.MailTools/Spf/SpfCheck.cs:104-139 | the term loop on one term |
| SpfProperties.OneTermAfterVersion | BusinessMonitor.MailTools/Spf/SpfCheck.cs:104 | "v=spf1 t" has the one term t after the version |
| SpfProperties.IncludeTerm | BusinessMonitor.MailTools/Spf/SpfCheck.cs:165-181 | include:d parses to the include of d |
| SpfProperties.RecordOfTerms | BusinessMonitor.MailTools/Spf/SpfCheck.cs:95-142 | a record with the version is the term loop's result |
| SpfProperties.SelfIncludeRecord | BusinessMonitor.MailTools.Test/SpfTests.cs:122-132 | "v=spf1 include:d" parses to the one include of d |
| SpfProperties.IncludeRecordText | BusinessMonitor.MailTools/Spf/SpfCheck.cs:98-104 | "v=spf1 include:d" is the version and the one term include:d |
| SpfProperties.QualifiedUnknownTerm | BusinessMonitor.MailTools/Spf/SpfCheck.cs:153-156 | a qualified unknown mechanism fails with its message |
| SpfProperties.UnknownTermWithValue | BusinessMonitor.MailTools/Spf/SpfCheck.cs:153-156 | an unknown mechanism with a value fails with its message |
| SpfProperties.NoVersionExample | BusinessMonitor.MailTools.Test/SpfTests.cs:89-99 | the empty record fails with the version error |
| SpfProperties.BadTermRecord | BusinessMonitor.MailTools/Spf/SpfCheck.cs:104-139 | a record whose one term fails fails with that term's error |
| SpfProperties.UnknownMechanismRecords | BusinessMonitor.MailTools.Test/SpfTests.cs:89-99 | "v=spf1 -boop" and "v=spf1 boop:boop" fail as unknown mechanisms |
| SpfProperties.BoopIsUnknown | BusinessMonitor.MailTools.Test/SpfTests.cs:89-99 | boop is not a mechanism name |
| DnsMessages.BigEndian | BusinessMonitor.MailTools.Dns/DoHResolverDNS.cs:167-171 | two bytes that read back as the value |
| DnsMessages.Utf16Length | BusinessMonitor.MailTools.Dns/DoHResolverDNS.cs:163 | string.Length counts one or two code units a character |
| DnsMessages.Utf8Char | BusinessMonitor.MailTools.Dns/DoHResolverDNS.cs:164 | one to four bytes, one exactly for ASCII, none zero for a non-NUL character |
| DnsMessages.Utf8 | BusinessMonitor.MailTools.Dns/DoHResolverDNS.cs:164 | one to four bytes a character, no zero byte for a text without NUL |
| DnsMessages.NameBytes | BusinessMonitor.MailTools.Dns/DoHResolverDNS.cs:161-165 | at least one byte a label |
| DnsMessages.Question | BusinessMonitor.MailTools.Dns/DoHResolverDNS.cs:157-174 | ends in the root label, QTYPE and QCLASS IN |
| DnsMessages.QueryHeader | BusinessMonitor.MailTools.Dns/DoHResolverDNS.cs:146-150 | twelve bytes |
| DnsMessages.Query | BusinessMonitor.MailTools.Dns/DoHResolverDNS.cs:141-155 | a header and a question |
| DnsMessages.BuildQuestion | BusinessMonitor.MailTools.Dns/DoHResolverDNS.cs:157-174 | the label loop writes Question |
| DnsMessages.NameBytesStep | BusinessMonitor.MailTools.Dns/DoHResolverDNS.cs:161-165 | one label more adds its length octet and its UTF-8 bytes |
| DnsMessages.NameBytesAppend | BusinessMonitor.MailTools.Dns/DoHResolverDNS.cs:161-165 | the name of two label lists is their names one after the other |
| DnsMessages.BuildQuery | BusinessMonitor.MailTools.Dns/DoHResolverDNS.cs:141-155 | writes Query for the given transaction id |
| DnsMessages.QuestionEnd | BusinessMonitor.MailTools.Dns/DoHResolverDNS.cs:191-195 | the first zero byte from the position, or IndexOutOfRangeException when there is none |
| DnsMessages.HexGroup | BusinessMonitor.MailTools.Dns/DoHResolverDNS.cs:249-255 | at most four digits |
| DnsMessages.Decimals | BusinessMonitor.MailTools.Dns/DoHResolverDNS.cs:238-239 | the decimal text of every byte |
| DnsMessages.HexPairs | BusinessMonitor.MailTools.Dns/DoHResolverDNS.cs:258-260 | two upper-case hex digits a byte |
| DnsMessages.HexGroups | BusinessMonitor.MailTools.Dns/DoHResolverDNS.cs:249-255 | one group a byte pair |
| DnsMessages.GetString | BusinessMonitor.MailTools.Dns/DoHResolverDNS.cs:242 | succeeds exactly when the range lies inside the buffer, else ArgumentOutOfRangeException |
| DnsMessages.ParseRData | BusinessMonitor.MailTools.Dns/DoHResolverDNS.cs:234-261 | for each type, exactly when the RDATA can be read; the errors are runtime exceptions |
| DnsMessages.AddressText | BusinessMonitor.MailTools.Dns/DoHResolverDNS.cs:238-239 | the bytes Skip(start).Take(length) leaves, in decimal, joined by dots; DnsProperties.ATextBytes reads each byte back |
| DnsMessages.TxtData | BusinessMonitor.MailTools.Dns/DoHResolverDNS.cs:241-242 | succeeds exactly when at least the length byte is inside the buffer |
| DnsMessages.MxData | BusinessMonitor.MailTools.Dns/DoHResolverDNS.cs:244-247 | succeeds exactly when the preference and the range are inside the buffer |
| DnsMessages.AaaaData | BusinessMonitor.MailTools.Dns/DoHResolverDNS.cs:249-255 | succeeds exactly when every pair read is inside the buffer; else IndexOutOfRangeException |
| DnsMessages.OtherData | BusinessMonitor.MailTools.Dns/DoHResolverDNS.cs:258-260 | succeeds exactly when BitConverter.ToString accepts the range |
| DnsMessages.DecodeResponse | BusinessMonitor.MailTools.Dns/DoHResolverDNS.cs:179-232 | a reply under twelve bytes fails with the header message; exactly twelve fails reading the question |
| DnsMessages.Answers | BusinessMonitor.MailTools.Dns/DoHResolverDNS.cs:200-229 | the answer walk fails only with the name-format ArgumentException or a runtime exception |
| DnsMessages.AnswersStep | BusinessMonitor.MailTools.Dns/DoHResolverDNS.cs:200-229 | an answer behind a pointer adds its RDATA text, or ends the walk with its error |
| DnsMessages.AnswersStepFailed | BusinessMonitor.MailTools.Dns/DoHResolverDNS.cs:200-229 | RDATA that does not convert ends the walk with its error |
| DnsMessages.AnswersStepFilled | BusinessMonitor.MailTools.Dns/DoHResolverDNS.cs:200-229 | RDATA that converts heads the answers read from the next record on |
| DnsMessages.PrependStep | BusinessMonitor.MailTools.Dns/DoHResolverDNS.cs:224-228 | collecting one answer more |
| DnsMessages.ParseAnswers | BusinessMonitor.MailTools.Dns/DoHResolverDNS.cs:200-229 | the answer loop over the array computes the answer walk |
| DnsMessages.ParseResponse | BusinessMonitor.MailTools.Dns/DoHResolverDNS.cs:179-232 | the parser over the array computes DecodeResponse |
| DnsProperties.QueryHeaderFields | BusinessMonitor.MailTools.Dns/DoHResolverDNS.cs:143-150 | a query carries its id, RD set, one question and no other records (section 4.1.1 of RFC 1035) |
| DnsProperties.NameBytesNonZero | BusinessMonitor.MailTools.Dns/DoHResolverDNS.cs:161-165 | a name of NUL-free labels whose length octet is not zero has no zero byte, so the question skip stops at its end |
| DnsProperties.LabelBytesNonZero | BusinessMonitor.MailTools.Dns/DoHResolverDNS.cs:163-164 | the same for one label |
| DnsProperties.QuestionEndAt | BusinessMonitor.MailTools.Dns/DoHResolverDNS.cs:191-195 | the question skip stops at the first zero byte |
| DnsProperties.Bytes32 | BusinessMonitor.MailTools.Dns/DoHResolverDNS.cs:200-229 | four bytes |
| DnsProperties.RecordBytes | BusinessMonitor.MailTools.Dns/DoHResolverDNS.cs:200-229 | a record takes twelve bytes and its RDATA |
| DnsProperties.RecordFields | BusinessMonitor.MailTools.Dns/DoHResolverDNS.cs:203-224 | the walk reads a written record's pointer, TYPE, RDLENGTH and RDATA |
| DnsProperties.Texts | BusinessMonitor.MailTools.Dns/DoHResolverDNS.cs:224 | one text per record |
| DnsProperties.RDataLocal | BusinessMonitor.MailTools.Dns/DoHResolverDNS.cs:234-261 | the text of an RDATA depends only on its own bytes |
| DnsProperties.ALocal | BusinessMonitor.MailTools.Dns/DoHResolverDNS.cs:238-239 | the same for A |
| DnsProperties.TxtLocal | BusinessMonitor.MailTools.Dns/DoHResolverDNS.cs:241-242 | the same for TXT |
| DnsProperties.MxLocal | BusinessMonitor.MailTools.Dns/DoHResolverDNS.cs:244-247 | the same for MX |
| DnsProperties.AaaaLocal | BusinessMonitor.MailTools.Dns/DoHResolverDNS.cs:249-255 | the same for AAAA |
| DnsProperties.AaaaSlice | BusinessMonitor.MailTools.Dns/DoHResolverDNS.cs:249-255 | the AAAA text reads only the RDATA's bytes |
| DnsProperties.HexGroupsShift | BusinessMonitor.MailTools.Dns/DoHResolverDNS.cs:249-255 | the groups depend only on the bytes they are read from |
| DnsProperties.OtherLocal | BusinessMonitor.MailTools.Dns/DoHResolverDNS.cs:258-260 | the same for every other type |
| DnsProperties.AnswersOfRecords | BusinessMonitor.MailTools.Dns/DoHResolverDNS.cs:200-229 | the walk reads back every record an encoder wrote, in order |
| DnsProperties.DecodeResponseRecords | BusinessMonitor.MailTools.Dns/DoHResolverDNS.cs:179-232 | a reply of header, question and written records gives the records' texts |
| DnsProperties.QueryHasNoAnswers | BusinessMonitor.MailTools.Dns/DoHResolverDNS.cs:141-232 | a query read as a reply has no answers |
| DnsProperties.AnswersBound | BusinessMonitor.MailTools.Dns/DoHResolverDNS.cs:200-229 | every answer takes at least twelve bytes |
| DnsProperties.ATextBytes | BusinessMonitor.MailTools.Dns/DoHResolverDNS.cs:238-239 | an A text is one decimal part a byte, each reading back as its byte |
| DnsProperties.MxText | BusinessMonitor.MailTools.Dns/DoHResolverDNS.cs:244-247 | an MX text is the preference in decimal, a space and the decoded exchange |
| DnsProperties.TxtText | BusinessMonitor.MailTools.Dns/DoHResolverDNS.cs:241-242 | a TXT text is the decoded bytes after the first, whatever that byte says |
| DnsProperties.HexGroupNoColon | BusinessMonitor.MailTools.Dns/DoHResolverDNS.cs:253-254 | no group holds ':' |
| DnsProperties.HexGroupTrims | BusinessMonitor.MailTools.Dns/DoHResolverDNS.cs:253-254 | a group is the four digits after TrimStart('0') |
| DnsProperties.HexGroupsNoColon | BusinessMonitor.MailTools.Dns/DoHResolverDNS.cs:249-255 | no group of a list holds ':' |
| DnsProperties.AaaaGroups | BusinessMonitor.MailTools.Dns/DoHResolverDNS.cs:249-255 | an AAAA text split at ':' gives one group a byte pair |
| DnsProperties.ZeroGroupEmpty | BusinessMonitor.MailTools.Dns/DoHResolverDNS.cs:254 | a zero group is empty, not "0" |
| DnsProperties.HexConcat | BusinessMonitor.MailTools.Dns/DoHResolverDNS.cs:258-260 | two digits a byte |
| DnsProperties.RemoveDashes | BusinessMonitor.MailTools.Dns/DoHResolverDNS.cs:260 | deleting the dashes of pairs joined by '-' concatenates them |
| DnsProperties.ConcatHexPairs | BusinessMonitor.MailTools.Dns/DoHResolverDNS.cs:258-260 | the pairs one after the other are the hex digits of the bytes |
| DnsProperties.OtherText | BusinessMonitor.MailTools.Dns/DoHResolverDNS.cs:258-260 | any other type's text is its bytes in upper-case hex, two digits a byte |
| DnsProperties.OtherHex | BusinessMonitor.MailTools.Dns/DoHResolverDNS.cs:258-260 | that text is BitConverter.ToString with the dashes deleted |
| DnsProperties.HexPairsNoDash | BusinessMonitor.MailTools.Dns/DoHResolverDNS.cs:258-260 | no pair holds '-' |
| DnsProperties.Octets | BusinessMonitor.MailTools.Dns/DoHResolverDNS.cs:164 | the UTF-8 octets of every label |
| DnsProperties.LabelLengthMiscount | BusinessMonitor.MailTools.Dns/DoHResolverDNS.cs:163-164 | "é" is written [1, 0xC3, 0xA9], and the name does not read back |
| DnsProperties.FixedNameRoundTrip | BusinessMonitor.MailTools.Dns/DoHResolverDNS.cs:161-165 | with octet counts, every name of 1 to 63 octet labels reads back as its labels (section 3.1 of RFC 1035) |
| DnsProperties.ReadLabel | BusinessMonitor.MailTools.Dns/DoHResolverDNS.cs:161-165 | a name starting with a fitting label reads as that label and the rest |
| DnsProperties.AsciiLengths | BusinessMonitor.MailTools.Dns/DoHResolverDNS.cs:163-164 | on ASCII text the code-unit and octet counts agree |
| DnsProperties.AsciiNameAgrees | BusinessMonitor.MailTools.Dns/DoHResolverDNS.cs:161-165 | on ASCII labels BuildQuestion writes the corrected name |
| DoHResolvers.OfType | BusinessMonitor.MailTools.Dns/DoHResolver.cs:64 | exactly the answers of the type |
| DoHResolvers.CleanTexts | BusinessMonitor.MailTools.Dns/DoHResolver.cs:65 | one cleaned text an answer |
| DoHResolvers.CleanText | BusinessMonitor.MailTools.Dns/DoHResolver.cs:65 | Trim('"') then the two Replace calls; DoHProperties.CleanTextJoins and CleanTextSingle state what it gives |
| DoHResolvers.TrimmedTexts | BusinessMonitor.MailTools.Dns/DoHResolver.cs:123 | one quote-trimmed text an answer |
| DoHResolvers.TrimQuotes | BusinessMonitor.MailTools.Dns/DoHResolver.cs:123 | Trim('"'): no longer than the datum and no quote at either end |
| DoHResolvers.TextRecords | BusinessMonitor.MailTools.Dns/DoHResolver.cs:56-71 | nothing without an Answer list, else one text per TXT answer, the k-th being CleanText of the k-th TXT datum |
| DoHResolvers.TextRecordsAsync | BusinessMonitor.MailTools.Dns/DoHResolver.cs:115-129 | the same for the asynchronous lookup, with the k-th text being TrimQuotes of the k-th TXT datum |
| DoHResolvers.MailHost | BusinessMonitor.MailTools.Dns/DoHResolver.cs:96 | a host without spaces, the datum itself when it has none |
| DoHResolvers.MailHosts | BusinessMonitor.MailTools.Dns/DoHResolver.cs:96 | one host an answer |
| DoHResolvers.MailRecords | BusinessMonitor.MailTools.Dns/DoHResolver.cs:83-99 | nothing without an Answer list, else one space-free host per MX answer, the k-th being MailHost of the k-th MX datum |
| DoHResolvers.ParseAddresses | BusinessMonitor.MailTools.Dns/DoHResolver.cs:77-79 | succeeds exactly when every datum parses, with one address each; else FormatException |
| DoHResolvers.AddressRecords | BusinessMonitor.MailTools.Dns/DoHResolver.cs:73-82 | a reply without an Answer list makes Enumerable.Where throw ArgumentNullException; otherwise success exactly when IPAddress.Parse accepts every A datum, the k-th address parsed from the k-th A datum, and FormatException when some datum is rejected |
| DoHProperties.OfTypeAppend | BusinessMonitor.MailTools.Dns/DoHResolver.cs:64 | the filter keeps answer order across concatenation |
| DoHProperties.OfTypeOne | BusinessMonitor.MailTools.Dns/DoHResolver.cs:64 | one answer is kept exactly when it has the type |
| DoHProperties.CleanTextsAppend | BusinessMonitor.MailTools.Dns/DoHResolver.cs:65 | cleaning distributes over concatenation |
| DoHProperties.TextRecordsAppend | BusinessMonitor.MailTools.Dns/DoHResolver.cs:56-71 | the texts of two answer lists one after the other are their texts in order |
| DoHProperties.QuotedEnds | BusinessMonitor.MailTools.Dns/DoHResolver.cs:65 | the quoted text neither starts nor ends with a quote |
| DoHProperties.TrimOuterQuotes | BusinessMonitor.MailTools.Dns/DoHResolver.cs:65 | Trim('"') removes exactly the outer quotes |
| DoHProperties.ConcatNoQuote | BusinessMonitor.MailTools.Dns/DoHResolver.cs:65 | quote-free texts concatenate quote-free |
| DoHProperties.RemoveSeparators | BusinessMonitor.MailTools.Dns/DoHResolver.cs:65 | deleting every `" "` joins the character-strings |
| DoHProperties.DropSeparator | BusinessMonitor.MailTools.Dns/DoHResolver.cs:65 | a leading `" "` is deleted |
| DoHProperties.CleanTextJoins | BusinessMonitor.MailTools.Dns/DoHResolver.cs:56-71 | a TXT datum of several quoted character-strings becomes their concatenation (section 3.3.14 of RFC 1035) |
| DoHProperties.CleanTextSingle | BusinessMonitor.MailTools.Dns/DoHResolver.cs:65 | one quoted character-string loses its quotes only |
| DoHProperties.AsyncKeepsSeparators | BusinessMonitor.MailTools.Dns/DoHResolver.cs:115-129 | the asynchronous lookup keeps the separators, so the two lookups differ on such a datum |
| DoHProperties.QuotedLength | BusinessMonitor.MailTools.Dns/DoHResolver.cs:65 | a quoted text is three characters longer a separator |
| DoHProperties.ConcatLength | BusinessMonitor.MailTools.Dns/DoHResolver.cs:65 | the concatenation is as long as the pieces |
| DoHProperties.MailHostOfMx | BusinessMonitor.MailTools.Dns/DoHResolver.cs:96 | "preference host" gives the host |
| DoHProperties.MailHostOfWire | BusinessMonitor.MailTools.Dns/DoHResolverDNS.cs:244-247 | the JSON resolver's host of an MX datum is the exchange the wire codec decodes |
| DoHProperties.MailRecordsAllMx | BusinessMonitor.MailTools.Dns/DoHResolver.cs:83-99 | a reply of only MX answers gives one host an answer, in order |
| DoHProperties.OfTypeAll | BusinessMonitor.MailTools.Dns/DoHResolver.cs:64 | answers of one type pass the filter whole |
| DoHProperties.AddressRecordsNoA | BusinessMonitor.MailTools.Dns/DoHResolver.cs:73-82 | no A answers give no addresses; no Answer list fails |
| IPAddressHelpers.UnsignedLittleEndian | BusinessMonitor.MailTools/Util/IPAddressHelper.cs:50-52 | below 256 to the number of bytes |
| IPAddressHelpers.Reversed | BusinessMonitor.MailTools/Util/IPAddressHelper.cs:49 | the bytes in the opposite order |
| IPAddressHelpers.AllOnesIsMinusOne | BusinessMonitor.MailTools/Util/IPAddressHelper.cs:40 | all-0xFF bytes read as a BigInteger are -1 |
| IPAddressHelpers.AllOnesValue | BusinessMonitor.MailTools/Util/IPAddressHelper.cs:40 | their unsigned value is 256^n - 1 |
| IPAddressHelpers.GetMask | BusinessMonitor.MailTools/Util/IPAddressHelper.cs:25-41 | the mask is -1 and the width is 4 bytes for IPv4, 16 otherwise |
| IPAddressHelpers.Reverse | BusinessMonitor.MailTools/Util/IPAddressHelper.cs:49 | the array holds its bytes reversed |
| IPAddressHelpers.ReversedValue | BusinessMonitor.MailTools/Util/IPAddressHelper.cs:49-52 | reversed bytes read least significant first are the network-order value |
| IPAddressHelpers.ZeroPadValue | BusinessMonitor.MailTools/Util/IPAddressHelper.cs:50 | a trailing zero byte keeps the unsigned value |
| IPAddressHelpers.ZeroPadSigned | BusinessMonitor.MailTools/Util/IPAddressHelper.cs:50-52 | and makes the signed value that unsigned value |
| IPAddressHelpers.ToBigInteger | BusinessMonitor.MailTools/Util/IPAddressHelper.cs:43-54 | the network-order unsigned value, the array left reversed |
| IPAddressHelpers.MaskSpan | BusinessMonitor.MailTools/Util/IPAddressHelper.cs:13 | ~(-1 << k) is k low ones, and nothing for a negative k |
| IPAddressHelpers.ShiftLeft | BusinessMonitor.MailTools/Util/IPAddressHelper.cs:13 | BigInteger `<<`, a right shift for a negative count; MaskSpan states its value on the mask |
| IPAddressHelpers.BitNot | BusinessMonitor.MailTools/Util/IPAddressHelper.cs:13 | BigInteger `~`, as used in MaskSpan |
| IPAddressHelpers.Span | BusinessMonitor.MailTools/Util/IPAddressHelper.cs:13 | the amount end lies above start, with the shift count in C# int arithmetic; MaskSpan gives it |
| IPAddressHelpers.Covers | BusinessMonitor.MailTools/Util/IPAddressHelper.cs:12-22 | start <= address <= end; IPAddressProperties.CoversInterval states the interval |
| IPAddressHelpers.AddressBytes | BusinessMonitor.MailTools/Util/IPAddressHelper.cs:12 | a fresh array of the address's bytes |
| IPAddressHelpers.IsInRange | BusinessMonitor.MailTools/Util/IPAddressHelper.cs:9-18 | the address value lies from the network value to it plus the span |
| IPAddressProperties.CoversInterval | BusinessMonitor.MailTools/Util/IPAddressHelper.cs:9-23 | for a prefix within the width, exactly 2^(W - length) values from the network's own value |
| IPAddressProperties.CoversFullLength | BusinessMonitor.MailTools/Util/IPAddressHelper.cs:9-23 | a prefix of the full width or longer covers that value only |
| IPAddressProperties.CoversIgnoresNetworkFamily | BusinessMonitor.MailTools/Util/IPAddressHelper.cs:11 | the width comes from the address, not the network |
| IPAddressProperties.V4Value | BusinessMonitor.MailTools/Util/IPAddressHelper.cs:43-54 | the value of four bytes |
| IPAddressProperties.RangeTest | BusinessMonitor.MailTools.Test/IPAddressTests.cs:9-21 | 192.168.0.100 in 192.168.0.1/24; 192.168.1.100 and 10.10.0.10 not |
| IPAddressProperties.RangeTest2 | BusinessMonitor.MailTools.Test/IPAddressTests.cs:23-33 | 192.0.2.129 in 192.0.2.128/28; 192.0.2.65 not |
| IPAddressProperties.UnmaskedNetwork | BusinessMonitor.MailTools/Util/IPAddressHelper.cs:12-13 | 192.168.0.1/24 covers 192.168.1.0 and misses 192.168.0.0 |
| IPAddressProperties.BlockSize | BusinessMonitor.MailTools/Util/IPAddressHelper.cs:13 | a block holds at least one address |
| IPAddressProperties.InPrefixInterval | BusinessMonitor.MailTools/Util/IPAddressHelper.cs:9-18 | the CIDR block starts at the network with host bits cleared and holds 2^(W - length) values (section 3.1 of RFC 4632) |
| IPAddressProperties.AlignedNetworkAgrees | BusinessMonitor.MailTools/Util/IPAddressHelper.cs:9-18 | for a network without host bits IsInRange is the CIDR block test |
| IPAddressProperties.PrefixExample | BusinessMonitor.MailTools/Util/IPAddressHelper.cs:9-18 | the block test puts 192.168.0.0 in 192.168.0.1/24 and not 192.168.1.0 |
| MxValidators.InvalidHosts | BusinessMonitor.MailTools/Mx/MxValidator.cs:39-46 | no more hosts than given |
| MxValidators.AnyLoopback | BusinessMonitor.MailTools/Mx/MxValidator.cs:42 | Any(ip => ip.ToString() == "127.0.0.1"); InvalidHostsMembers and OnlyExactLoopback use it |
| MxValidators.InvalidHostsMembers | BusinessMonitor.MailTools/Mx/MxValidator.cs:39-46 | a host is reported exactly when it is an MX host with an address printing as 127.0.0.1 |
| MxValidators.Validate | BusinessMonitor.MailTools/Mx/MxValidator.cs:28-49 | MX records found exactly when the lookup is non-empty; none found means nothing invalid |
| MxValidators.MxValidationResult.constructor | BusinessMonitor.MailTools/Mx/MxValidator.cs:22-25 | no records, nothing invalid |
| MxValidators.MxValidator.constructor | BusinessMonitor.MailTools/Mx/MxValidator.cs:12-15 | keeps the resolver |
| MxValidators.MxValidator.CheckHost | BusinessMonitor.MailTools/Mx/MxValidator.cs:41-45 | looks the host up once and appends it when one address prints as 127.0.0.1 |
| MxValidators.MxValidator.ValidateMxRecords | BusinessMonitor.MailTools/Mx/MxValidator.cs:28-49 | a fresh result equal to Validate; one address lookup per MX host, in order |
| MxValidators.InvalidHostsStep | BusinessMonitor.MailTools/Mx/MxValidator.cs:39-46 | one host more |
| MxValidators.InvalidHostsAppend | BusinessMonitor.MailTools/Mx/MxValidator.cs:39-46 | the check of a list is the checks of its parts in order |
| MxValidators.InvalidHostsOne | BusinessMonitor.MailTools/Mx/MxValidator.cs:42-45 | a single host is reported exactly when one of its addresses prints as 127.0.0.1 |
| MxValidators.AllValid | BusinessMonitor.MailTools/Mx/MxValidator.cs:28-49 | hosts without a loopback address give nothing invalid |
| MxValidators.NoneInvalid | BusinessMonitor.MailTools/Mx/MxValidator.cs:39-46 | the same for the host list |
| MxValidators.OnlyExactLoopback | BusinessMonitor.MailTools/Mx/MxValidator.cs:42 | only the exact text 127.0.0.1 counts |
| MxValidators.ValidMxTest | BusinessMonitor.MailTools.Test/MxValidatorTests.cs:12-32 | two hosts with private addresses: records found, nothing invalid |
| MxValidators.InvalidMxTest | BusinessMonitor.MailTools.Test/MxValidatorTests.cs:34-53 | a host resolving to 127.0.0.1 is invalid |
| MxValidators.NoMxTest | BusinessMonitor.MailTools.Test/MxValidatorTests.cs:55-71 | no MX records: none found, nothing invalid, no lookups |
| DummyResolvers.TextValues | BusinessMonitor.MailTools.Test/Dns/DummyResolver.cs:43-46 | exactly the values of the TXT records of the name |
| DummyResolvers.AddressValues | BusinessMonitor.MailTools.Test/Dns/DummyResolver.cs:48-52 | exactly the addresses of the A records of the name |
| DummyResolvers.MailValues | BusinessMonitor.MailTools.Test/Dns/DummyResolver.cs:54-57 | exactly the values of the MX records of the name |
| DummyResolvers.AppendText | BusinessMonitor.MailTools.Test/Dns/DummyResolver.cs:28-46 | a new record adds its value to the TXT answers of its name only |
| DummyResolvers.AppendAddress | BusinessMonitor.MailTools.Test/Dns/DummyResolver.cs:33-52 | the same for A answers |
| DummyResolvers.AppendMail | BusinessMonitor.MailTools.Test/Dns/DummyResolver.cs:38-57 | the same for MX answers |
| DummyResolvers.DummyResolver.constructor | BusinessMonitor.MailTools.Test/Dns/DummyResolver.cs:13-16 | no records; every query answered with nothing |
| DummyResolvers.DummyResolver.WithText | BusinessMonitor.MailTools.Test/Dns/DummyResolver.cs:18-21 | the one TXT record given |
| DummyResolvers.DummyResolver.WithAddress | BusinessMonitor.MailTools.Test/Dns/DummyResolver.cs:23-26 | the one A record given |
| DummyResolvers.DummyResolver.AddText | BusinessMonitor.MailTools.Test/Dns/DummyResolver.cs:28-31 | appends the record; its name's TXT answers gain the value, nothing else changes |
| DummyResolvers.DummyResolver.AddAddress | BusinessMonitor.MailTools.Test/Dns/DummyResolver.cs:33-36 | the same for A |
| DummyResolvers.DummyResolver.AddMail | BusinessMonitor.MailTools.Test/Dns/DummyResolver.cs:38-41 | the same for MX |
| DummyResolvers.DummyResolver.GetTextRecords | BusinessMonitor.MailTools.Test/Dns/DummyResolver.cs:43-46 | exactly the values of the TXT records of the name |
| DummyResolvers.DummyResolver.GetAddressRecords | BusinessMonitor.MailTools.Test/Dns/DummyResolver.cs:48-52 | exactly the addresses of the A records of the name |
| DummyResolvers.DummyResolver.GetMailRecords | BusinessMonitor.MailTools.Test/Dns/DummyResolver.cs:54-57 | exactly the values of the MX records of the name |
| DummyResolvers.DummyResolver.AsResolver | BusinessMonitor.MailTools/Dns/IResolver.cs:6-13 | the resolver answering as the Get methods do, MX never null |
| DummyResolvers.AppendAll | BusinessMonitor.MailTools.Test/Dns/DummyResolver.cs:28-57 | AppendText, AppendAddress and AppendMail for every name at once |

## Left out

- HTTP, JSON deserialisation and `async`: `QueryDns`/`QueryDnsAsync` of both DNS-over-HTTPS resolvers and their endpoint-choosing constructors (`DoHResolver.cs:20-54`, `DoHResolverDNS.cs:40-83`, `:123-136`). A JSON reply is a `Rootobject` value; a wire reply is a byte array.
- `DoHResolverDNS` getters (`DoHResolverDNS.cs:85-121`): the TXT and MX getters return `QueryDnsAsync`'s strings, or an empty array for null. The A and AAAA getters (`:91-115`) parse each string with `IPAddress.Parse`, which throws FormatException on a text it rejects. That parsing step is left out. It matters for AAAA: `DnsMessages.AaaaData` writes a zero group as "", so a text such as "2001:DB8::::::1" is not a valid IPv6 address and would throw there. The answer texts themselves are `DnsMessages.ParseResponse`'s.
- `DnsMessages.BuildQuery`: the transaction id is `Random`'s in the source; here it is a parameter.
- `DnsResolver.cs` wraps a third-party DNS library. It is not part of this model.
- `IResolver` declares only `GetTextRecords`, but `MxValidator` calls `GetMailRecords` and `GetAddressRecords`. The `Resolvers.Resolver` datatype holds all three lookups as functions.
- `SpfCheck.CheckSpfRecord` throws `NotImplementedException` and is left out.
- SPF modifiers (`SpfModifier.cs`): the parser never makes one; a `name=value` term is an unknown mechanism.
- `SpfAddresses.Contains`: compares addresses by value, where the source compares object references (`==` on `IPAddress`).
- `SpfChecking.SpfCheck.GetSpfRecord`: records are values, so the sharing of one `SpfRecord` object by several `Included` properties is not captured.
- `Text.ParseInt32`: the signs are ASCII '-' and '+'. `int.Parse` without a format provider uses the current culture's `NegativeSign` and `PositiveSign`, which some cultures set to other characters; those are not modelled. Trailing NULs are skipped, as .NET does.
- `Text.StartsWith`: culture-sensitive `string.StartsWith` is taken as an ordinal prefix test.
- `DnsMessages.Utf8`: encodes Unicode scalar values; a lone surrogate, which .NET replaces with U+FFFD, cannot occur in a Dafny string.
- `DnsMessages.ParseResponse`: `currentIndex` is unbounded; C# `int` overflow is not reachable with arrays of realistic length and is not modelled.
- `DnsMessages.TxtData`: like the source, reads the RDATA after its first byte as one text, without interpreting further character-string length bytes.
- `DnsProperties.DecodeResponseRecords`: stated for records of a well-formed shape (pointer names, non-empty RDATA, a two-byte MX preference).
- `DnsProperties.AaaaGroups`: requires at least two bytes; a shorter AAAA RDATA gives "".
- `DnsMessages.ParseAnswers` is the answer loop of `ParseResponse`, split out as its own method.
- `Resolvers.Resolver`: `text` and `address` are total functions, so a lookup never throws. Exceptions thrown inside a lookup, such as the FormatException `DoHResolver.GetAddressRecords` raises on a bad datum (modelled by `DoHResolvers.AddressRecords`), are not propagated through `MxValidators.MxValidator.ValidateMxRecords`, `SpfChecking.SpfCheck.GetSpfRecord` or the `Get…Record` methods of the DKIM, DMARC and BIMI checks.
- Null: null arguments, a null JSON `data` field and null resolver answers are not modelled, except for the `Answer` list and for `GetMailRecords` (an `Option`).
- Library behaviour: `IPAddress.Parse`/`ToString`, `new Uri(s).Scheme`, `Convert.FromBase64String` and `Encoding.UTF8.GetString` are functions of `Platform.Library`, not definitions.
- DMARC tags other than `adkim` and `aspf` are left uninterpreted, as the code leaves them.

## Findings

| source | as written | input that shows it | evidently intended | confidence | as-written member | corrected member |
|---|---|---|---|---|---|---|
| BusinessMonitor.MailTools.Dns/DoHResolverDNS.cs:163-164 | the length octet of a label is `label.Length`, which counts UTF-16 code units, before the label's UTF-8 bytes | the label "é" is written [1, 0xC3, 0xA9], and the name no longer reads back | the number of octets that follow, as section 3.1 of RFC 1035 defines | not executed | DnsProperties.LabelLengthMiscount | DnsProperties.FixedNameRoundTrip |
| BusinessMonitor.MailTools/Util/IPAddressHelper.cs:12-13 | the range starts at the network's value without clearing its host bits | 192.168.0.1/24 covers 192.168.1.0 and not 192.168.0.0 | the CIDR block of section 3.1 of RFC 4632 | not executed | IPAddressProperties.UnmaskedNetwork | IPAddressProperties.InPrefixInterval |
