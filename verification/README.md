# Mail engine: a verified model

A Dafny model of the parts of the mail engine on which delivery, authentication and message display depend, with
proofs of what those parts promise. Every operation that the engine writes as a loop or as an object with fields is a
method or a class here, proved against a function or a predicate; the laws are lemmas about those.

`dafny verify dfyconfig.toml` checks the whole project.

## What is modelled

- **DKIM (RFC 6376) and ARC (RFC 8617).** `DkimCanon` and `DkimBodyCanon` hold the canonicalization algorithms,
  `DkimSelect` the bottom-up choice of header fields for `h=`, `DkimVerify` the octets a signature covers,
  `DkimVerbatim` and `DkimTransit` which changes to the fields those octets show and which they do not, under simple
  and under relaxed canonicalization, `DkimSignature` the tag-list parser, `DkimBodyHash` the body hash with `l=`,
  `DkimSign` the signer. `DkimSign` ends in the agreement theorem: what the signer prints is parsed, re-selected and
  re-canonicalized to exactly the octets that were signed. `ArcSeal` and `Arc` reuse this for chains of hops.
- **SPF (RFC 7208).** `SpfRecord` parses records, `Cidr` turns addresses into numbers, `SpfCheck` is the recursive
  evaluator with its shared budgets, running against a DNS that may answer differently every time it is asked.
  `SpfBudget` bounds the work of any check, `SpfMeaning` gives policies an inductive meaning without budgets, errors
  included, and proves that whatever the evaluator answers within its budgets is that meaning. `SpfPrefix` says which
  values carry prefix lengths and which clients they cover, `SpfPolicies` what each mechanism, qualifier and modifier
  comes to from the TXT text to the answer. `SpfExamples` holds written policies and name servers on which the extremes
  are reached.
- **SMTP delivery (RFC 5321, 3207, 8461).** `Deliver` runs the client against an arbitrary peer and keeps the
  transcript; `Conforms` says which step is permitted after which transcript, `Diligent` which step must not be left
  out, `Faithful`, `OpeningTold` and `Justified` say what the returned result means. `DotStuffing` covers the message
  text.
- **IMAP (RFC 9051).** `SequenceSet` is the merged interval sweep, `AddressScanner` and `MailboxText` the address lists
  of ENVELOPE, `GroupReading` what their entries tell about groups, `Envelope` the construction and wire form of an
  ENVELOPE, with an independent reader.
- **RFC 5322 lexing.** `Cfws` strips comments, `AddrSpec` parses addresses.
- **Choosing hosts.** `Mx` orders mail exchangers with the in-place shuffle, `PublicSuffix.dfy` (module
  `PublicSuffixes`) is the public-suffix algorithm.
- `Text` and `Sorting` hold the string operations and the stable sort that the others share.

Octet strings, Buffers and latin1 strings alike, are `string`, one character an octet. Digests, signatures, the
platform's reading of numbers and of IP address texts, and `domainToASCII` are arbitrary functions, so the theorems
hold for every such function. DNS answers, peers and random draws are arbitrary too. All `defects` switches are off.

Where the code does less than its documentation says, the code is modelled and the exact condition is proved:

- Relaxed header canonicalization is not idempotent: dropping one fold can create another
  (`DkimCanon.RelaxedNotIdempotent`). It is idempotent on exactly the fields that do not refold
  (`DkimCanon.RelaxedIdempotentIff`), and so on every correctly folded field.
- The comment on the second fold branch, line 98 of `src/crypto/dkim-canon.ts`, describes a case that never arises: the
  branch is an `assert false` in `DkimCanon.UnfoldBytes`, the fold loop of `DkimCanon.RelaxedHeaderField`.
- `simpleBody` strips single CRs and LFs at the end of a body, not only empty lines, so relaxing after simplifying is not
  always relaxing (`DkimBodyCanon.RelaxedAfterSimpleFails`); it is exactly when the CRs and LFs at the end pair up.
- A quoted display name that holds a "<" with no ">" behind it is split in the wrong place by the ENVELOPE address
  reader, as `"a<b" <x@y>` is (`MailboxText.LooseAngleExample`); `MailboxText.MailboxReads` states this as an
  if-and-only-if.
- An address with an empty host and without a display name has the same entry as a group start, so that `a,b:c;` and
  `a:b,c;` give one ENVELOPE (`GroupReading.OneEnvelopeTwoLists`). The entries of a header determine its mailboxes and
  groups, among all headers, exactly if no group of it could begin elsewhere (`GroupReading.HeadersTellGroups`): at such
  an address with a name that a group can have, the mailboxes in between being such as can stand on the other side.
- The comment on `hashAlgoOf` says that only the three names of known algorithms get there. The parser compares them
  without case and keeps the tag as it is written, so that `a=rsa-SHA1` is accepted and then taken for SHA-256
  (`DkimBodyHash.CapitalShaExample`). The digest is the one that is named exactly unless the name is "rsa-sha1" with a
  capital letter behind its dash (`DkimBodyHash.DigestIsNamed`).
- `matchMechanism` passes over an "all" whose value holds a "%", which `evaluateSpf` does not: on the TXT text
  `v=spf1 -all:%` they disagree (`SpfExamples.MacroAllDisagrees`). They agree exactly if the deciding term is no such
  "all", or what lies behind it comes to the same result (`SpfMeaning.AgreesWithEvaluateSpf`).

## Model

| member | source | states |
|---|---|---|
| DkimCanon.CollapseWsp | src/crypto/dkim-canon.ts:51-64 | the loop with its flag leaves one space for every run of WSP |
| DkimCanon.LowerAsciiBuffer | src/crypto/dkim-canon.ts:41-48 | the buffer loop lower-cases A to Z and leaves every other octet and the input alone |
| DkimCanon.RelaxedHeaderField | src/crypto/dkim-canon.ts:83-116 | the byte loops with their skips give: trimmed lower-case name, colon, unfolded value as its words with single spaces, CRLF; a field without a colon is returned as it is; the second fold branch is unreachable |
| DkimCanon.RelaxedNormalForm | src/crypto/dkim-canon.ts:78-116 | two fields canonicalize to the same octets if and only if their trimmed names agree up to ASCII case and their unfolded values have the same sequence of non-WSP runs |
| DkimCanon.RelaxedIdempotentIff | src/crypto/dkim-canon.ts:83-116 | canonicalizing twice equals once if and only if no CRLF WSP fold is left in the unfolded value once its trailing WSP is gone |
| DkimCanon.RelaxedNotIdempotent | src/crypto/dkim-canon.ts:91-100 | a concrete field with CRLF CRLF WSP that changes when canonicalized again |
| DkimCanon.RelaxedIdempotent | src/crypto/dkim-canon.ts:83-116 | idempotent on every field whose CRLFs, the last apart, are all followed by WSP |
| DkimBodyCanon.SplitLines | src/crypto/dkim-canon.ts:121-133 | the index loop cuts the body at every CRLF and keeps an unterminated last line |
| DkimBodyCanon.LinesOfJoin | src/crypto/dkim-canon.ts:121-133 | splitting lines that were joined with CRLF gives the lines back, for CRLF-free lines |
| DkimBodyCanon.JoinOfLines | src/crypto/dkim-canon.ts:121-133 | joining the split lines gives the body back, with a final CRLF if it lacked one |
| DkimBodyCanon.SimpleBody | src/crypto/dkim-canon.ts:136-142 | the backward scan drops the CRs and LFs at the end and adds one CRLF |
| DkimBodyCanon.RelaxedBody | src/crypto/dkim-canon.ts:148-164 | collapsing, popping trailing WSP per line, popping trailing empty lines and writing with CRLF give the relaxed form of the lines |
| DkimBodyCanon.RelaxedFormIsWords | src/crypto/dkim-canon.ts:144-164 | the relaxed body is the lines up to the last one that holds a word, each as its words with single spaces, one space in front where the line starts with WSP, and CRLF |
| DkimBodyCanon.LastWordExists | src/crypto/dkim-canon.ts:156-157 | every body has such a place |
| DkimBodyCanon.SimpleFormIs | src/crypto/dkim-canon.ts:135-142 | the simple body is the body without the CRs and LFs at its end, and one CRLF |
| DkimBodyCanon.RelaxedBodyIdempotent | src/crypto/dkim-canon.ts:144-164 | relaxed body canonicalization is idempotent on every body |
| DkimBodyCanon.SimpleBodyIdempotent | src/crypto/dkim-canon.ts:135-142 | simple body canonicalization is idempotent on every body |
| DkimBodyCanon.RelaxedAfterSimpleIff | src/crypto/dkim-canon.ts:136-164 | relaxed after simple equals relaxed if and only if the CRs and LFs at the end of the body are CRLF pairs |
| DkimBodyCanon.RelaxedAfterSimpleFails | src/crypto/dkim-canon.ts:140 | the body "a" LF, on which relaxed after simple differs from relaxed |
| DkimBodyCanon.RelaxedPrefixIff | src/crypto/dkim-canon.ts:148-164 | the relaxed body stays a prefix whatever is appended if and only if the last line is blank |
| DkimBodyCanon.SimplePrefixIff | src/crypto/dkim-canon.ts:136-142 | the simple body stays a prefix whatever is appended if and only if it is a prefix of the body itself |
| DkimVerify.EmptyBTag | src/crypto/dkim-verify.ts:50-61 | the pass with its `done` flag empties the first b= tag of the list |
| DkimVerify.EmptyFirstAt | src/crypto/dkim-verify.ts:50-61 | the emptied list is the old one with just the first b= tag cut behind its "=" |
| DkimVerify.EmptyBForgetsB | src/crypto/dkim-verify.ts:50-61 | wherever the first b= tag of a list stands and whatever stands behind its "=", putting any text without ";" there instead leaves the emptied list the same |
| DkimVerify.EmptyBIsExact | src/crypto/dkim-verify.ts:50-61 | two lists come to the same when emptied if and only if they differ at most in what stands behind the "=" of their first b= tag |
| DkimVerify.EmptyBUndoesFilling | src/crypto/dkim-sign.ts:55-58 | the signer's case: on a list that ends in its only, still empty, b= tag, appending a signature is replacing, and emptying gives the list back |
| DkimVerify.BuildSigningInput | src/crypto/dkim-verify.ts:73-97 | the loop gives the signing input, whose octets `DkimVerbatim.SimpleInputIsVerbatim` states for simple and `DkimTransit.RelaxedInputIsItsLines` for relaxed canonicalization |
| DkimVerify.ExtraFieldLengthens | src/crypto/dkim-verify.ts:68-97 | one more selected field anywhere makes the signing input strictly longer |
| DkimVerbatim.SimpleInputIsVerbatim | src/crypto/dkim-verify.ts:73-141 | under simple canonicalization the input for any header block and h= list is name, colon, value and CRLF of every selected field as they stand in the message, in order, and behind them the signature field with its b= emptied |
| DkimVerbatim.SimpleFieldsAreJoined | src/crypto/dkim-verify.ts:80-90 | fields without raw octets are put together from name, colon, space and value, the others are hashed verbatim |
| DkimVerbatim.SimpleInputTells | src/crypto/dkim-verify.ts:68-141 | for any two messages with folded fields two simple inputs are equal if and only if the selected fields are equal octet for octet, in number and in order, and the emptied signature values are |
| DkimTransit.RelaxedInputSurvivesTransit | src/crypto/dkim-verify.ts:68-97 | refolding, respacing and recasing of fields leaves the relaxed signing input alone |
| DkimTransit.OneLineIff | src/crypto/dkim-canon.ts:83-116 | the canonical form of a field is a single line if and only if its name holds no CRLF and every CRLF of its value is a fold |
| DkimTransit.RelaxedInputTells | src/crypto/dkim-verify.ts:68-97 | on fields with CRLF-free names and folded values two relaxed inputs are equal if and only if the fields are equally many and differ at most in folding, spacing and case, one by one, and the emptied signature fields do |
| DkimTransit.SelectedInputTells | src/crypto/dkim-verify.ts:105-141 | so for the fields selected from any two such header blocks: every change beyond folding, spacing and case of a selected field, and every change of their number or order, alters the input |
| DkimTransit.RelaxedInputIsItsLines | src/crypto/dkim-verify.ts:68-97 | for fields of any shape two relaxed inputs are equal if and only if the lines that the canonical fields and the emptied signature field are cut in are the same |
| DkimTransit.PassesIff | src/crypto/dkim-verify.ts:68-97 | fields of any shape have the input of some well-formed fields if and only if each line they are cut in is a canonical field |
| DkimSelect.SelectSignedFields | src/crypto/dkim-verify.ts:121-141 | the loop over h= that pops index stacks returns the declaratively selected fields |
| DkimSelect.IndexByName | src/crypto/dkim-verify.ts:122-129 | the index map holds, for each trimmed lower-case name that occurs, its positions top to bottom |
| DkimSelect.KeysAgree | src/crypto/dkim-verify.ts:122-132 | two names select each other if and only if they agree up to the case of their letters and white space around them |
| DkimSelect.FromBottomIsKth | src/crypto/dkim-verify.ts:105-141 | the position found for entry k of a name has exactly k instances of the name below it, and none is found exactly when there are too few |
| DkimSelect.SelectionDistinct | src/crypto/dkim-verify.ts:105-141 | no instance is selected twice |
| DkimSelect.PrependKeepsSelection | src/crypto/dkim-verify.ts:105-141 | prepending fields whose names are not oversigned shifts the selection and changes nothing else |
| DkimSelect.PrependInsertsOversigned | src/crypto/dkim-verify.ts:105-141 | a prepended field of an oversigned name is selected by the first excess entry, and every other entry selects what it did |
| DkimSelect.PrependedFieldsIgnored | src/crypto/dkim-verify.ts:105-141 | the selected fields are the same with such fields in front |
| DkimSelect.OversignedFieldHashed | src/crypto/dkim-verify.ts:105-141 | with an oversigned name in front the fields grow by exactly that field and the signing input gets longer |
| DkimSignature.ParseDkimSignature | src/crypto/dkim-signature.ts:71-154 | the loops over tags, counts and required tags give all fields, and validity if and only if every part has "=", no name repeats, all of v, a, b, bh, d, h, s are there, the version is 1 and the algorithm is one of the three |
| DkimSignature.CollectTags | src/crypto/dkim-signature.ts:79-97 | the loop collects the last value of each name, how often each occurs, and whether every part has "=" |
| DkimSignature.AnyRepeated | src/crypto/dkim-signature.ts:99-105 | the loop over the counts finds a count above 1 exactly when two parts share a name |
| DkimSignature.ParseOfPrinted | src/crypto/dkim-signature.ts:71-97 | printed tags with distinct names, with any white space around them, parse to exactly those tags |
| DkimSignature.LoweredNamesOfJoin | src/crypto/dkim-signature.ts:151 | names printed with ":" between them read back in lower case, in order |
| DkimBodyHash.VerifyBodyHash | src/crypto/dkim-bodyhash.ts:73-91 | ok exactly when the digest of the first l octets of the canonical body is bh= and l is an integer within it |
| DkimBodyHash.BodyModeReads | src/crypto/dkim-bodyhash.ts:22-27 | the body mode is what stands behind the slash of c=, and simple without a slash or without the tag |
| DkimBodyHash.DigestIsNamed | src/crypto/dkim-bodyhash.ts:29-39 | an algorithm that a valid signature can have is taken for the digest it names if and only if it is not "rsa-sha1" with a capital letter behind the dash |
| DkimBodyHash.CapitalShaExample | src/crypto/dkim-bodyhash.ts:36-39 | a tag list with a=rsa-SHA1 that parses as valid and is taken for SHA-256 |
| DkimBodyHash.SettledIff | src/crypto/dkim-bodyhash.ts:46-50 | the canonical body stays a prefix under every appended text if and only if the body is settled |
| DkimBodyHash.CrlfTerminatedIsSettled | src/crypto/dkim-bodyhash.ts:41-50 | every non-empty CRLF-terminated body is settled for relaxed, and for simple if the CRs and LFs at its end pair up |
| DkimBodyHash.LimitedSignatureSurvivesAppend | src/crypto/dkim-bodyhash.ts:72-91 | a signature with l= whose body hash verifies for a settled body verifies for every longer body |
| DkimSign.HeaderParses | src/crypto/dkim-sign.ts:44-66 | the header the signer prints parses as valid with the same d, s, h, bh, b and c and no l |
| DkimSign.UnsignedAwaitsB | src/crypto/dkim-sign.ts:55-58 | the tag list that is signed ends in its only b= tag, empty |
| DkimSign.SignerAndVerifierAgree | src/crypto/dkim-sign.ts:44-66 | for fields selected by the same rule and any fields in front that are not oversigned, the verifier rebuilds the signed octets from the printed header and accepts the body hash |
| DkimSign.OversigningDetectsPrepending | src/crypto/dkim-verify.ts:105-141 | with an oversigned field in front the verifier's octets differ from the signed ones |
| ArcSeal.BuildSealInput | src/crypto/arc-seal.ts:40-54 | the loop over the sorted sets up to the seal gives the seal input with the sealing field last and its b= emptied |
| ArcSeal.SealInputIsItsSets | src/crypto/arc-seal.ts:29-54 | the seal of hop k signs, of the sets 1 to k in increasing order, the results, the message signature and the seal, in this order, but for the seal of k, which stands last with its b= emptied |
| ArcSeal.LaterHopsUnsealed | src/crypto/arc-seal.ts:33-54 | sets of later hops do not change the input of a seal |
| ArcSeal.SealForgetsOrder | src/crypto/arc-seal.ts:37-41 | sets with distinct instances give the same input in every order |
| ArcSeal.FillingUnsealed | src/crypto/arc-seal.ts:36-53 | putting any signature behind the first b= of the seal, wherever that tag stands and whatever stood there, does not change its input |
| ArcSeal.SealStaysVerifiable | src/crypto/arc-seal.ts:33-54 | at the end of the road, with later hops added, any signature in place of the old one and any order, the input of seal k is what hop k signed |
| Arc.ValidateArcChainStructure | src/auth/arc.ts:35-70 | pass if and only if every set is complete, the instances are exactly 1 to N in some order, and cv is none at 1 and pass elsewhere; none without sets |
| Arc.HonestChainsAreWellFormed | src/auth/arc.ts:35-70 | after any number of honest hops, in any header order, the structure is well formed |
| Arc.WellFormedChainsAreHonest | src/auth/arc.ts:35-70 | and nothing else is: a well-formed chain is an honest run in some order |
| SpfRecord.ParseSpfRecord | src/auth/spf.ts:48-87 | the loop over the tokens gives version, validity and every term's qualifier, name, value and kind |
| SpfRecord.ParseOfPrinted | src/auth/spf.ts:48-87 | tokens written with single spaces parse to the version and the terms written |
| SpfRecord.ParsesToWritten | src/auth/spf.ts:60-87 | a token parses to a term if and only if it writes it: the qualifier or none for "+", the name in any case of letters, and the argument of a mechanism with ":" or "/" or none, or "=" and the value of a modifier |
| SpfRecord.WrittenRecordReads | src/auth/spf.ts:48-87 | a record of such tokens reads back as its terms |
| SpfRecord.SelectedIsValid | src/auth/spf-check.ts:185-194 | every TXT record selected as SPF parses as valid, so selection and parser cannot disagree |
| SpfRecord.EvaluateSpf | src/auth/spf.ts:107-116 | the loop with early return gives the result of the leftmost deciding mechanism, neutral without one, none if invalid |
| Cidr.ToGroups | src/auth/spf-check.ts:106-122 | the loop over the parts of one half gives its groups, or nothing if a part is out of range |
| Cidr.Ipv6Groups | src/auth/spf-check.ts:103-132 | the two halves with the missing zeros between them, or nothing |
| Cidr.CompressedExpands | src/auth/spf-check.ts:102-132 | writing eight groups with a run of zeros left out and expanding gives the groups back |
| Cidr.IpToBig | src/auth/spf-check.ts:84-100 | the accumulation loops give the number the address stands for |
| Cidr.V4Number | src/auth/spf-check.ts:84-93 | four octets in order stand for the number with the first as the most significant octet |
| Cidr.GroupWeighs | src/auth/spf-check.ts:94-100 | each group of an IPv6 address weighs 2^16 times what the one behind it does |
| Cidr.BigInRange | src/auth/spf-check.ts:83-100 | that number is below 2^32 or 2^128 |
| Cidr.ValueInjective | src/auth/spf-check.ts:83-100 | distinct addresses of a family have distinct numbers |
| Cidr.BlockMatchMeaning | src/auth/spf-check.ts:135-145 | equal shifted numbers mean the same leading bits, and the same aligned block of 2^(bits - prefix) addresses |
| SpfCheck.AnyAddressMatches | src/auth/spf-check.ts:155-163 | the loop finds an address whose network covers the client exactly if there is one |
| SpfCheck.EvalState.EvaluateDomain | src/auth/spf-check.ts:176-219 | the recursion over domains with shared counters computes the specified result and the specified spending |
| SpfCheck.EvalState.EvaluatePolicy | src/auth/spf-check.ts:190-218 | one record, or the lack of one, evaluated: the terms, then the redirect |
| SpfCheck.EvalState.WalkTerms | src/auth/spf-check.ts:197-206 | the loop over the terms stops at the first that settles the result and remembers the last redirect |
| SpfCheck.EvalState.FollowRedirect | src/auth/spf-check.ts:207-217 | the redirect spends a lookup and turns none into permerror |
| SpfCheck.EvalState.MatchMechanism | src/auth/spf-check.ts:222-290 | one mechanism with its macro test and its lookup budget |
| SpfCheck.EvalState.MatchAddresses | src/auth/spf-check.ts:240-245 | the a mechanism with its void budget |
| SpfCheck.EvalState.MatchMailHosts | src/auth/spf-check.ts:246-259 | the mx mechanism with its cap of ten hosts and its loop over them |
| SpfCheck.EvalState.MatchExistence | src/auth/spf-check.ts:260-266 | the exists mechanism, always an A query |
| SpfCheck.CheckSpf | src/auth/spf-check.ts:311-323 | the entry with its early none and the fresh counters |
| SpfPrefix.SplitMeans | src/auth/spf-check.ts:147-152 | a value splits into domain and prefix lengths if and only if it is a domain without slash, then "/" and digits, "//" and digits, or both; every other value is kept whole |
| SpfPrefix.PrintedDualReads | src/auth/spf-check.ts:147-152 | a domain without slash and any two numbers, each there or not, come back from the value they are printed as |
| SpfPrefix.PrintedNumberReads | src/auth/spf-check.ts:151 | a printed number with any zeros in front reads as itself |
| SpfPrefix.DigitsArePrinted | src/auth/spf-check.ts:149-151 | and every text of digits is such a printed number |
| SpfPrefix.AddressMechanismMatches | src/auth/spf-check.ts:154-163 | an a mechanism with any prefix lengths matches exactly if the client shares with some answered address an aligned block of 2^(width - prefix) numbers, the prefix being that of the client's family |
| SpfPrefix.MailHostMechanismMatches | src/auth/spf-check.ts:246-259 | an mx mechanism matches exactly if the client shares such a block with an address of some mail host |
| SpfPrefix.Ipv4SharesBlock | src/auth/spf-check.ts:134-145 | for an IPv4 client and address that is one aligned block of 2^(32 - m) of the numbers their octets stand for |
| SpfPrefix.NetworkMatches | src/auth/spf-check.ts:134-145 | a written network holds the client exactly if they share the block of its prefix length, and an address alone if they are equal |
| SpfPolicies.AllAnswers | src/auth/spf-check.ts:173-206 | the TXT text of one "all" answers pass, fail, softfail or neutral as "+" or nothing, "-", "~" or "?" stands in front |
| SpfPolicies.AddressPolicyAnswers | src/auth/spf-check.ts:240-245 | "v=spf1 a... -all" with any domain and prefix lengths answers pass exactly if the client shares a block with an answered address, fail otherwise |
| SpfPolicies.MailHostPolicyAnswers | src/auth/spf-check.ts:246-259 | the same of "mx" and the addresses of up to ten mail hosts |
| SpfPolicies.AddressPolicyFails | src/auth/spf-check.ts:239-245 | a failed address query answers temperror, a third answer without records permerror |
| SpfPolicies.MailHostPolicyFails | src/auth/spf-check.ts:239-255 | the same of "mx", and more than ten mail hosts are a permerror |
| SpfPolicies.LookupsRunOut | src/auth/spf-check.ts:235-238 | the eleventh lookup is a permerror |
| SpfPolicies.ExistsAnswers | src/auth/spf-check.ts:260-266 | "v=spf1 exists:... -all" answers pass exactly if the name has an A record |
| SpfPolicies.NetworkAnswers | src/auth/spf-check.ts:231-233 | "v=spf1 ip4:.../n -all", and ip6, answers pass exactly if the client lies in the network |
| SpfPolicies.AddressAnswers | src/auth/spf-check.ts:231-233 | and without a length exactly if it has that address |
| SpfPolicies.IncludeAnswers | src/auth/spf-check.ts:267-284 | "v=spf1 include:... -all" turns the included answer as the table of section 5.2 of RFC 7208 |
| SpfPolicies.RedirectAnswers | src/auth/spf-check.ts:197-217 | of any number of redirects the last is followed; its answer stands, but for none, which becomes permerror |
| SpfPolicies.SelectionAnswers | src/auth/spf-check.ts:179-193 | a failed TXT query is temperror, no text with the version none, two of them permerror |
| SpfPolicies.MalformedIff | src/auth/spf-check.ts:292-304 | a domain is malformed exactly if it is not two or more labels of 1 to 63 octets, with at most one dot behind |
| SpfPolicies.CheckStarts | src/auth/spf-check.ts:311-323 | a check evaluates the policy of the domain for the client, the IPv4 address where it is mapped, exactly if the address is one and the domain is well-formed, and answers none without a query otherwise |
| SpfBudget.CheckIsBounded | src/auth/spf-check.ts:165-290 | for every DNS: at most 111 queries, at most 11 for TXT, no nesting deeper than the lookups spent or than 10, and permerror whenever a budget is overdrawn at any depth |
| SpfBudget.DomainPaid | src/auth/spf-check.ts:176-219 | the same from any solvent state: each query is paid for by a lookup, at most eleven a lookup |
| SpfBudget.CyclicIncludeEnds | src/auth/spf-check.ts:176-181 | a policy that includes itself ends in permerror after exactly eleven TXT queries |
| SpfBudget.BoundIsReached | src/auth/spf-check.ts:246-259 | a DNS with ten mx of ten hosts each takes exactly 111 queries and ends neutral |
| SpfExamples.WrittenIsPublished | src/auth/spf-check.ts:185-194 | a TXT text of the version and words with single spaces is selected, is valid, and publishes the terms that the words are |
| SpfExamples.FanOutExists | src/auth/spf-check.ts:185-194 | a DNS that takes all 111 queries exists, with a record that parses to ten mx |
| SpfExamples.CycleExists | src/auth/spf-check.ts:176-194 | for every domain name that can be written in a policy there is a DNS under which its policy includes itself |
| SpfMeaning.MeaningUnique | src/auth/spf-check.ts:175-219 | a policy has at most one meaning, permerror and temperror among the meanings, whatever the depth of the derivations |
| SpfMeaning.DomainRefines | src/auth/spf-check.ts:176-290 | from any counters and depth an answer that is no error, and within the budgets every answer, is what the policy means: leftmost match or failure, include table, redirect only when nothing matched |
| SpfMeaning.CheckMeans | src/auth/spf-check.ts:311-323 | where no budget was overdrawn the answer of a check, an error too, is what the policy means; where one was it is permerror |
| SpfMeaning.CheckNeverMisjudges | src/auth/spf-check.ts:311-323 | a policy with a meaning is answered with it, or with permerror behind an overdrawn budget |
| SpfMeaning.EvaluatesWithoutMacroAlls | src/auth/spf-check.ts:222-230 | on a redirect-free record the answer short of an error is that of `evaluateSpf` on the record without its "all" terms that hold a macro |
| SpfMeaning.AgreesWithEvaluateSpf | src/auth/spf.ts:107-116 | so short of an error it equals `evaluateSpf` under the same match decisions if and only if the deciding term is no "all" with a macro or what lies behind it comes to the same result |
| SpfExamples.MacroAllDisagrees | src/auth/spf-check.ts:226 | a steady DNS that publishes the valid record "v=spf1 -all:%", on which the evaluator says neutral and `evaluateSpf` says fail |
| Deliver.DeliverMessage | src/client/deliver.ts:144-369 | against every peer: under enforcement nothing of the transaction in the clear, the message only right behind a 354 and an accepted envelope, every command behind the answer to the one before, nothing but EHLO twice, recipients in order. No step left out: STARTTLS right behind a first EHLO answer that offers it wherever the caller wants it, HELO right behind a refused one, the handshake and EHLO behind an accepted STARTTLS, MAIL where the session is open, every recipient, DATA, message and QUIT each in their turn. The result tells truly what was heard, greeting and hello included, the two verdicts exclude each other, and an end has a reason that stands on the transcript |
| Deliver.ConformingIsSafe | src/client/deliver.ts:144-369 | every run whose steps are permitted one by one is safe as a whole |
| Deliver.FinishedIsDiligent | src/client/deliver.ts:144-369 | every run whose steps are the due ones, to the last, leaves out no step |
| Deliver.Open | src/client/deliver.ts:167-177 | the greeting, QUIT on a refusal, otherwise the hello |
| Deliver.SayHello | src/client/deliver.ts:179-224 | EHLO, HELO exactly after a refused EHLO, STARTTLS exactly when offered and wanted, refusal under enforcement when not |
| Deliver.Secure | src/client/deliver.ts:200-219 | STARTTLS and what its answer leads to with and without enforcement |
| Deliver.Handshake | src/client/deliver.ts:206-215 | the upgrade and the second EHLO; failure only after a failed handshake or hello |
| Deliver.SendEnvelope | src/client/deliver.ts:288-297 | MAIL and every RCPT in order, each answered before the next, the codes collected as heard |
| Deliver.Transact | src/client/deliver.ts:299-325 | a refused envelope or DATA ends with QUIT and no message; otherwise the message follows |
| Deliver.SendMessage | src/client/deliver.ts:325-365 | message, end of data, the wait for the final reply, and a QUIT whose failure changes nothing |
| Deliver.NothingInTheClear | src/client/deliver.ts:226-234 | in every conforming run under enforcement no MAIL, RCPT, DATA or message octet precedes a validated upgrade |
| Deliver.BodyNeedsGoAhead | src/client/deliver.ts:288-325 | the message goes out only right behind a 354 to DATA, after a MAIL not refused by 5yz, an accepted RCPT and an answer to every RCPT |
| Deliver.LockStep | src/client/deliver.ts:255-297 | between two commands lies the read of the answer to the first |
| Deliver.NothingTwice | src/client/deliver.ts:144-369 | no command but EHLO is sent twice, so the message is sent at most once |
| Deliver.RecipientsInOrder | src/client/deliver.ts:293-297 | recipients are named in order, each right after the answer to the one before |
| Deliver.HeardOnce | src/client/deliver.ts:144-369 | each command but EHLO has one answer |
| Deliver.UpgradesAsDemanded | src/client/deliver.ts:207 | every upgrade validates the certificate exactly if enforcement demands it |
| Deliver.VerdictsExclude | src/client/deliver.ts:344-359 | ok and dataIndeterminate never both hold, and either implies that data was sent |
| DotStuffing.DotStuff | src/wire/bytes.ts:170-190 | the index loop over slices doubles the dot at the start of each CRLF line |
| DotStuffing.TransmitData | src/client/deliver.ts:376-397 | the stuffed text and the terminator, whose first CRLF is shared if the text ends in one |
| DotStuffing.UnstuffUndoesStuff | src/wire/bytes.ts:160-190 | the receiver's rule undoes the stuffing on every text |
| DotStuffing.EndSeenOnce | src/client/deliver.ts:376-397 | the receiver sees the end of data nowhere but at the end of what was sent |
| DotStuffing.EndSeenAtEnd | src/client/deliver.ts:386-393 | and there it does see it |
| DotStuffing.TransmissionIsTransparent | src/client/deliver.ts:376-397 | the receiver gets the message, with a final CRLF if it lacked one |
| SequenceSet.ReadPart | src/imap/sequence-set.ts:38-56 | one part gives the clamped range of exactly the numbers in use that it names |
| SequenceSet.Sweep | src/imap/sequence-set.ts:61-66 | the sweep over sorted ranges lists exactly the covered numbers, strictly ascending |
| SequenceSet.ParseSequenceSet | src/imap/sequence-set.ts:22-70 | the strictly ascending list of exactly the numbers in [1, largest] that some part denotes, at most `largest` of them |
| SequenceSet.PartsAreASet | src/imap/sequence-set.ts:28-36 | order, overlap and repetition of the parts do not matter |
| SequenceSet.RangeCommutes | src/imap/sequence-set.ts:38-50 | a:b names what b:a names, with any white space around them |
| SequenceSet.StarHoldsLargest | src/imap/sequence-set.ts:23-57 | on a mailbox that is not empty, a range that names "*" at either end, with any white space around it, includes the largest number |
| AddressScanner.ParseOneAddress | src/imap/envelope.ts:142-169 | the linear scan reads every text as stated without it: without a match of the pattern no name, and local-part and host on either side of the last "@" or the whole as mailbox with an empty host; at the leftmost match the text between the brackets so divided, and in front the name, trimmed and without its quotes |
| AddressScanner.LinearIsLazy | src/imap/envelope.ts:151-160 | the first "<" behind the last interior ">" is the leftmost match of the pattern, for every value |
| AddressScanner.AddressReads | src/imap/envelope.ts:142-169 | the same of the reading that the list is built of |
| AddressScanner.ParseAddressList | src/imap/envelope.ts:88-140 | the scan with its quote, angle and group flags pushes the entries of the specified pieces |
| AddressScanner.ListIsFlat | src/imap/envelope.ts:103-139 | for every header the pieces are mailboxes, each with a local-part and a host, and flat groups, each start closed by one end before the next start |
| GroupReading.EntriesTellGroups | src/imap/envelope.ts:15-21 | among all lists of mailboxes and flat groups, whether a header yields them or not, the entries determine the list if and only if no mailbox with an empty host and without a display name stands before the end of a group |
| GroupReading.ScanYields | src/imap/envelope.ts:103-139 | whatever the scan yields is a list of mailboxes, group starts and ends that can be written each in its place |
| GroupReading.YieldedByHeader | src/imap/envelope.ts:103-139 | and every such list is yielded by some header |
| GroupReading.HeadersTellGroups | src/imap/envelope.ts:88-140 | among all headers the entries determine the mailboxes and groups of a header if and only if none of its groups could begin elsewhere |
| GroupReading.OneEnvelopeTwoLists | src/imap/envelope.ts:72-167 | for any three words the headers x,y:z; and x:y,z; hold different groups and have the same entries |
| AddressScanner.PrintedListReads | src/imap/envelope.ts:75-140 | a printed list of mailboxes and groups reads back piece by piece |
| MailboxText.MailboxReads | src/imap/envelope.ts:142-169 | a printed `"display" <local@host>` reads back as printed if and only if every "<" in the display name has a ">" behind it there |
| MailboxText.LooseMailboxReads | src/imap/envelope.ts:142-169 | with one "<" and no ">" in it a display name is cut at that "<", and what is behind goes into the mailbox |
| MailboxText.LooseAngleExample | src/imap/envelope.ts:142-169 | `"a<b" <x@y>` reads as the name a and the mailbox b" <x |
| MailboxText.MailboxIsWhole | src/imap/envelope.ts:103-134 | such a mailbox is one piece of a list whatever separators its display name holds |
| MailboxText.BareListReads | src/imap/envelope.ts:88-169 | bare addresses with commas between them and any white space around them read as exactly their local-parts and hosts, in order |
| MailboxText.PrintedGroupReads | src/imap/envelope.ts:78-82 | a printed group reads back as start marker, its members in order, end marker |
| Envelope.EnvelopeReads | src/imap/envelope.ts:207-229 | a reader of quoted strings, NIL and parenthesised lists recovers every field of every envelope in order, up to control runs as one space, an empty host as NIL and an empty list as NIL |
| Envelope.EnvelopeIsClean | src/imap/envelope.ts:203-210 | no octet below 0x20 is ever written |
| Envelope.HeaderValue | src/imap/envelope.ts:63-69 | the loop returns the first header of the name, unfolded and trimmed, or nothing if there is none |
| Text.CaseIsForgotten | src/imap/envelope.ts:64-66 | in lower case a text is the same whatever the case of its letters, and nothing else below U+0080 changes |
| Envelope.NamesAgree | src/imap/envelope.ts:63-66 | a header has the name exactly if they agree up to the case of their letters and white space around it |
| Envelope.UnfoldMends | src/imap/envelope.ts:49-60 | wherever the lines of a value break, a CRLF in front of a space or tab goes and every other run of CRs and LFs becomes one space |
| Envelope.BuildEnvelope | src/imap/envelope.ts:171-201 | against the ten header names in order: each position is NIL without such a header, and otherwise the text or the addresses of the first one; Sender and Reply-To hold what From does where their own header holds no address |
| Envelope.FieldsOf | src/imap/envelope.ts:174-193 | every position has its kind, and Sender and Reply-To equal From where they hold no address |
| Envelope.ChangeStaysInPosition | src/imap/envelope.ts:171-193 | another value for the first header of a position's name changes no other position, but From shows in Sender and Reply-To where these fall back |
| Envelope.MessageEnvelopeReads | src/imap/envelope.ts:171-229 | the envelope of any message reads back in every position |
| Cfws.StripComments | src/message/cfws.ts:30-70 | the one-pass automaton computes the recursive lexer of nested comments, quoted-pairs and quoted-strings |
| Cfws.StripOfPrinted | src/message/cfws.ts:30-70 | of every value written from octets, quoted-strings and comments, nested and with quoted-pairs as they may be, the last perhaps without its end, each comment becomes one space and everything else stays |
| Cfws.LexCovers | src/message/cfws.ts:30-70 | the comments, quoted-strings and single octets that the lexer finds, put together, are the value |
| Cfws.StripIdempotent | src/message/cfws.ts:1-70 | stripping twice is stripping once |
| Cfws.StripShortens | src/message/cfws.ts:1-70 | the value never gets longer |
| Cfws.StripKeepsQuotedStrings | src/message/cfws.ts:1-70 | the quoted-strings outside comments stay verbatim and in order, no comment is left, and no "(" outside the quoted-strings |
| Cfws.StripConcat | src/message/cfws.ts:30-70 | stripping distributes over concatenation wherever the left part ends outside both contexts |
| AddrSpec.IsDotAtom | src/message/address.ts:75-89 | the scan with its flag accepts exactly atoms with single dots between them |
| AddrSpec.IsHostName | src/message/address.ts:59-72 | growing the labels in place and checking them accepts exactly dotted LDH labels without edge hyphens |
| AddrSpec.ClosingQuote | src/message/address.ts:102-121 | the scan of a quoted local-part finds its closing quote or refuses it |
| AddrSpec.SeparatorAt | src/message/address.ts:94-130 | the separator is behind a well-formed quoted-string or is the only "@", and for every grammatical pair it is the one it was printed with |
| AddrSpec.ParseAddrSpec | src/message/address.ts:91-169 | accepted input is local, "@", domain of a grammatical pair, and every grammatical pair printed parses back to itself |
| Mx.OrderByPreference | src/client/mx.ts:48-64 | sorting the copied array and shuffling each tier in place gives the order the draws determine |
| Mx.ShuffleTier | src/client/mx.ts:54-60 | the swaps from the end of a tier down permute it as the picks say and touch nothing else |
| Mx.OrderIsPermutation | src/client/mx.ts:42-64 | for every draw sequence the order is a permutation of the records in non-decreasing preference |
| Mx.EachOrderHasOneDraw | src/client/mx.ts:54-60 | within a tier of distinct records every order comes from exactly one sequence of picks |
| Mx.PickShare | src/client/mx.ts:56 | each position is picked by an equal share of the random source's interval |
| Mx.OrderDeterminesPicks | src/client/mx.ts:48-64 | over the whole list of distinct records different picks give different orders |
| Mx.EveryOrderIsDrawn | src/client/mx.ts:42-47 | every arrangement in non-decreasing preference comes from some draws |
| Mx.ResolveMxHosts | src/client/mx.ts:70-103 | a null MX gives ".", MX records give all their hosts in the order the draws determine, a permutation in non-decreasing preference, no MX gives the domain itself if it has an address |
| PublicSuffixes.PublicSuffixLen | src/auth/public-suffix.ts:36-49 | the loop equals the list's algorithm: longest exception minus one label, else longest normal or wildcard rule, else one label |
| PublicSuffixes.NamedIsAnswered | src/auth/public-suffix.ts:21-71 | a domain in any case with any dots at the end is answered with the last labels it was written with, as many as the list says of their ASCII forms, and with one more for the registrable domain, where there are as many |
| PublicSuffixes.UnnamedIsNotAnswered | src/auth/public-suffix.ts:21-28 | a text that is no such domain has no public suffix and no registrable domain |
| PublicSuffixes.SuffixLengthBounds | src/auth/public-suffix.ts:30-49 | with exceptions of at least two labels the length is between 1 and the number of labels |
| PublicSuffixes.LabelsNeverShorten | src/auth/public-suffix.ts:30-49 | labels added on the left never make the public suffix shorter |
| PublicSuffixes.RegisteredIdempotent | src/auth/public-suffix.ts:64-71 | the registrable domain of a registrable domain is itself, when the ASCII form is taken label by label |
| PublicSuffixes.RegisteredOfSubdomain | src/auth/public-suffix.ts:60-71 | whatever text is put with a dot in front of a domain, the registrable domain of the whole, where there is one, ends in that of the domain |
| PublicSuffixes.RegisteredIsOneMore | src/auth/public-suffix.ts:60-71 | the registrable domain is one label above the public suffix |

## Left out

- The cryptography itself (digests, RSA, Ed25519): arbitrary functions here.
- Characters above U+00FF: the engine reads these values as latin1 or as octets, and so does the model; the lower-casing is that of latin1.
- All `defects` switches, the lists of anomalies, failure texts and log messages.
- How the platform reads numbers, IP address texts and internationalized domain names: arbitrary functions; a token of a sequence-set or an octet of an address enters as the integer it reads as.
- Reply framing, timeouts and the TLS library: a read in `Deliver` yields a reply, silence or a fault, and a handshake succeeds or fails, as an arbitrary peer decides; closing the connection at the end is not an event.
- The text of the commands in `Deliver`, apart from which command it is and which recipient it names.
- Array identity in `ParseAddressList`, `Labels` and `SequenceSet`: lists that the engine grows with `push` are sequences reassigned by the methods.
- The caller's extra demand on `l=` in the inbound DKIM check, which is outside `verifyBodyHash`.
- `DkimSign.SignMessage` has no row: it is straight-line code, and the lemmas about what it prints carry its contract.
- SpfMeaning.DomainRefines: speaks of a DNS that answers the same question the same way throughout a check, because only then does a policy have a meaning; the bounds in `SpfBudget` hold without this.
- DkimSign.SignerAndVerifierAgree: for signers that choose their fields with the verifier's own selection, as the engine's callers do; other lists of fields are not covered.
- PublicSuffixes.RegisteredIdempotent: for a `domainToASCII` that works label by label; a platform function that maps a whole name otherwise is not covered.
- PublicSuffixes.NamedIsAnswered: for the same functions.
- SpfPrefix.AddressMechanismMatches: for answers whose texts hold no slash, as addresses do not.
- MX records with a preference outside the 16 bits of the wire format, which nothing here depends on.
- The entry points, the submission and inbound handlers, the queue, the conformance probes and the benchmarks.
