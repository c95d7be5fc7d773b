# Verified model of the Labyrinth resolver

Labyrinth is a recursive DNS resolver. This project models the parts of it whose correctness is
not visible in any one function, and proves what those parts promise, for every input, every run
and every reply of the outside world.

| part | modules | main results |
|---|---|---|
| wire codec with name compression | `Bytes`, `Labels`, `NameWire`, `Compression`, `Records`, `Edns`, `Messages`, `Layouts`, `Wire`, `Truncation` | `NameWire.DecodeNameExact`, `Compression.EncodeRoundTripIff`, `Records.PackRDataRoundTrip`, `Messages.MessageRoundTrip`, `Layouts.UnpackLayout`, `Edns.OptRoundTripIff`, `Truncation.TruncatedReply` |
| denial of existence | `Order`, `Nsec`, `Denial`, `Cuts`, `Nsec3`, `OptOut` | `Order.ChainPartition`, `Denial.ClosestEncloserIsLongest`, `Denial.DenialSound`, `Denial.DenialAcceptsIff`, `Denial.DenialWrongIff`, `Denial.TrueDenialRefusedIff`, `Cuts.DenialFalseIff`, `Nsec3.Nsec3AcceptsIff`, `Nsec3.Nsec3WrongIff`, `Nsec3.EncloserProofSound`, `OptOut.OptOutIff` |
| cache | `EvictionHeap`, `Shard`, `Ttl`, `Cache` | `Cache.DnsCache.BeginGet`, `Cache.DnsCache.LiveLossIff`, `Cache.DnsCache.Sweep`, `Cache.DnsCache.CapacityBound`, `Shard.CacheShard.Put` |
| resolution loop | `Bailiwick`, `Replies`, `Runs`, `Results`, `Descent`, `Resolver` | `Resolver.Resolve`, `Runs.StepsAreOk`, `Runs.TriplesDistinct`, `Runs.ZonesNarrow`, `Runs.QuestionBound`, `Runs.ChainVerdict`, `Runs.SecureFailureIff`, `Results.ResultIs`, `Descent.OnPathIff`, `Descent.AnswersAreOnPath` |
| signed data and verdicts | `SignedData`, `SignedLayout`, `RfcOrder`, `TrustChain`, `Validator`, `Verdicts`, `VerdictRules`, `Coverage`, `DenialVerdict` | `SignedData.SignedDataIsCanonical`, `SignedLayout.SignedPrefix`, `RfcOrder.RfcOrderIff`, `TrustChain.SecureIff`, `VerdictRules.AnswerVerdictIs`, `Verdicts.ReorderingIff`, `Verdicts.ReorderedAnswer`, `Coverage.QuestionSignedIff`, `DenialVerdict.DenialVerdictIff`, `DenialVerdict.SecureDenialFalseIff`, `DenialVerdict.SecureAndTrust` |
| request coalescer | `Inflight` | `Inflight.OneExecutionPerKey`, `Inflight.EveryoneGetsTheEnding`, `Inflight.FollowerShares`, `Inflight.EveryoneReturns` |
| token bucket | `RateLimit` | `RateLimit.WindowBound`, `RateLimit.CleanupIff` |

`dafny verify dfyconfig.toml` checks everything.

## How the model is built

- Go strings and byte slices are sequences of octets (`Text`). Names are ASCII; lowercasing
  touches A to Z only. Integers are unbounded with 8-, 16- and 32-bit subset types, and every
  truncating conversion of the source is written out.
- Code that computes is a function. Code that updates something step by step is a method with
  its loop, proved equal to a function or to a stated property, and the laws are lemmas about
  that function. Objects are classes: `Wire.WireWriter`, `Wire.WireReader`,
  `RateLimit.RateLimiter`, `Shard.CacheShard`, `Cache.DnsCache`, `Resolver.VisitedSet`.
- A codec that is only known to undo itself could use any format, and a verdict that is only known
  to be stable could be any verdict. `Layouts` and `SignedLayout` therefore place every field by
  octet position, and `VerdictRules` and `Results` say what each verdict and each result is, without
  the functions that the loops are proved against.
- An error return is a `Result`, an `Option` or a verdict of its own; no precondition hides one.
- The clock is a parameter, in nanoseconds, and does not go back. Random choices, network replies, fetched keys and DS
  records, digests, signature checks and the texts of addresses are function parameters, so a theorem
  holds for all of them. A time-dependent oracle takes the step number as an argument.
- The resolution loop is proved to perform exactly the runs of a relation, `Runs.Resolves`, which
  says which step follows which reply and how a run ends. The order in which a referral lists its
  servers is left open, as the source iterates over a map.

## Where the code differs from what it describes

- Compact denial (dnssec/nsec.go:73-88) accepts an NXDOMAIN response on a record at the name
  without looking at the query type. `Denial.DenialWrongIff` says exactly when that accepts a
  type the zone has, and `Denial.CompactDenialCounterexample` gives a zone.
- Without NXDOMAIN the NSEC check wants a record at the name itself (dnssec/nsec.go:68-70), and it
  refuses every record of a delegation point. So some true denials are refused even on the whole
  chain: NODATA of a name that owns nothing, any denial at a delegation point, and NXDOMAIN for an
  empty non-terminal whose wildcard child has the type. `Denial.TrueDenialRefusedIff` says that
  these are all. The zones are `Denial.EmptyNonTerminalRefused`, `Denial.WildcardNodataRefused`,
  `Denial.UnsignedDelegationRefused` and `Denial.WildcardChildRefused`. The NSEC3 check refuses
  every name that exists: `Nsec3.Nsec3RefusesExisting`, with `Nsec3.NodataCounterexample`. The
  validator reports such a response as Bogus (dnssec/validator.go:1126-1132):
  `DenialVerdict.DenialVerdictIff` and the four lemmas behind it.
- The NSEC check never looks at the bitmap of a covering record, so it accepts NXDOMAIN for a name
  below a delegation or a DNAME, which section 4.1 of RFC 6840 forbids. In a zone without owners
  below such a cut, `Cuts.BelowCutAcceptedIff` says that this takes just NXDOMAIN and one record of
  the cut; `Cuts.DenialFalseIff` adds it to the compact-denial case, `DenialVerdict.SecureBelowCutIff`
  carries it to the verdict, and `Cuts.BelowCutCounterexample` gives the zones. `Denial.DenialSound`
  and `Denial.DenialWrongIff` are about the record sets of the zone alone.
- The NSEC3 check never reads the opt-out flag, so a delegation that the chain leaves out is
  denied. `OptOut.OptOutWrongIff` says when an accepted denial is false in such a zone,
  `OptOut.OptOutIff` that the flag of the covering record is what decides, and
  `OptOut.OptOutCounterexample` gives a zone. The results of `Nsec3` are for chains that leave
  nothing out.
- The NSEC3 check looks only at the hash of the name itself, so it says nothing about wildcards.
  `Nsec3.Nsec3WrongIff` says exactly when it accepts a name the zone answers for, and
  `Nsec3.WildcardCounterexample` gives a zone. Where a record also covers the hash of the wildcard
  below the closest encloser, it is right: `Nsec3.Nsec3RightIfWildcardCovered`. The three-part
  proof of section 8.3 of RFC 5155, which the code does not ask for, would do:
  `Nsec3.EncloserProofSound`.
- A denial is checked against the keys its own zone hands out; no trust chain is walked, the one
  caller of validateTrustChain being dnssec/validator.go:417. `DenialVerdict.DenialIgnoresTrust`
  says that anchors and DS records have no bearing on a denial, `DenialVerdict.SecureAndTrust` how
  answers and denials part, and `DenialVerdict.UntrustedDenialIsSecure` gives a denial that is
  Secure with no anchors at all. What a Secure denial says of the zone therefore rests on the
  hypothesis `Truthful`; given that, `DenialVerdict.SecureDenialFalseIff` says exactly when it is
  still false.
- A Secure answer vouches for one RRset of the section, which need not be the one asked for:
  a record whose type no signature covers changes nothing (`Verdicts.UncoveredIgnored`), and
  `Verdicts.UnsignedAnswerIsSecure` gives an answer. `Coverage.QuestionSignedIff` says for which
  sections, policies and clocks Secure always means that the RRset asked for is signed: exactly
  those in which every signature that could verify covers that RRset, or has a twin that could
  verify, does cover it and asks the same of the keys.
- The sort of the signed data compares whole records, RDLENGTH before RDATA, where section 6.3 of
  RFC 4034 compares RDATA, and it keeps repeated RDATA, which that section drops.
  `RfcOrder.RfcOrderIff` says when the signed octets are those of the standard, and
  `RfcOrder.RfcOrderCounterexample` gives two records for which they are not.
- Get deletes an expired entry under a second lock without looking at it again
  (cache/cache.go:128-131), so an entry stored in between is lost while live.
  `Cache.DnsCache.LiveLossIff` says exactly when, and `Cache.DnsCache.GetLosesStore` performs it.
- Dropping idle rate-limit buckets is invisible exactly when an idle bucket refills within the
  cleanup period: `RateLimit.CleanupIff`. The model lets cleanup happen at any time.
- `EncodeName` accepts empty labels and over-long names; `Compression.EncodeRoundTripIff` says
  which names survive, and `Compression.EmptyLabelCounterexample` gives one that does not. Options
  longer than the 16-bit length field do not come back:
  `Edns.OptRoundTripIff`.
- Combining the status "secure" with an empty one gives "secure" (resolver/resolver.go:946-964), so
  a server failure behind secure aliases is marked "secure". `Runs.SecureFailureIff` says exactly
  when, and `Runs.SecureFailureCounterexample` gives a network and a run.
- A referral is followed to whatever zone owns its last NS record (resolver/delegation.go:25-29),
  and that zone is never compared with the name asked for. `Descent.OnPathIff` says when all zones
  of a run stay at or above the name, and `Descent.SidewaysRun` gives a run in which one does not.
  Such a run ends in a failure or NXDOMAIN and never in an answer: `Descent.OffPathResult`.
- The order in which the signatures of an answer are tried can change its verdict exactly when
  two that verify lead to different trust verdicts: `Verdicts.ReorderingIff`.

## Model

| member | source | states |
|---|---|---|
| Labels.JoinSplit | dns/name.go:139-149 | joining the labels of any text gives the text back, and no label has a dot |
| Labels.SplitJoinIff | dns/name.go:139-149 | splitting undoes joining exactly on label sequences without a dot inside a label |
| Labels.InZoneIsLabelSuffix | security/bailiwick.go:77-85 | the textual suffix test holds exactly when the labels of the zone are the last labels of the name |
| Labels.InZoneTransitive | security/bailiwick.go:77-85 | being at or below a zone is transitive |
| NameWire.NameAtUnique | dns/name.go:16-94 | the reference reading of a compressed name gives one label sequence and one pointer count |
| NameWire.DecodeNameExact | dns/name.go:16-94 | decoding succeeds with a text and an end offset exactly when the reference reading has that text with at most 128 pointers and 255 octets, ending there |
| NameWire.DecodeNameBounds | dns/name.go:16-94 | on success the text has at most 255 octets and the new offset is past the start and inside the message |
| NameWire.NameAtKept | dns/name.go:16-94 | a readable name stays readable under any change outside the octets it reads |
| NameWire.Decode | dns/name.go:16-94 | the loop computes the decoding function on every octet string, with at most 128 pointer follows and 129 labels |
| Compression.EmitSound | dns/name.go:97-137 | the label loop leaves the labels readable where written, over no more pointers than labels, and every new table entry readable |
| Compression.EncodeNameSound | dns/name.go:97-137 | the compression invariant: every recorded offset still reads as its suffix after encoding a name, and the name itself reads back in exactly the octets written, never more than its plain form |
| Compression.ReadBackDecodes | dns/name.go:97-137 | whatever is appended or patched into a reserved gap later, decoding at the recorded place returns the name and the end of what was written |
| Compression.EncodeRoundTripIff | dns/name.go:97-137 | an encoded name decodes to itself without its trailing dot if and only if it has no empty label and at most 255 octets |
| Compression.EmptyLabelIsLost | dns/name.go:97-137 | a name with an empty label decodes, if at all, to a strictly shorter text |
| Compression.EmitStopsAtEmpty | dns/name.go:97-137 | a malformed name reads back as its labels up to the first empty one |
| Compression.EmitAccepts | dns/name.go:97-137 | labels of at most 63 octets whose plain form fits the buffer are never refused |
| Compression.EmptyLabelCounterexample | dns/name.go:97-137 | a name with an empty label that is encoded without an error and does not come back |
| Records.NameThroughMessage | dns/wire.go:244-252 | a name written into a message and read out of it is the same name, with the table still readable |
| Records.RDataRoundTrip | dns/wire.go:244-346 | RDATA of every type written with compression reads back unchanged and is never longer than the original |
| Records.OpenGap | dns/wire.go:229-235 | reserving the length field ahead of the output disturbs no recorded name |
| Records.PackRDataRoundTrip | dns/wire.go:229-356 | after the back-patch the length field holds the octets written, RDATA reads back, and no recorded name has changed |
| Records.RRRoundTrip | dns/record.go:8-155 | a packed record unpacks to itself, from where it was written to where it ends |
| Edns.ParsedFits | dns/edns.go:24-54 | the options parsed from a record need no more octets than its length field grants |
| Edns.OptRoundTripIff | dns/edns.go:24-91 | options built into an OPT record come back in order, with size and DO flag, if and only if they fit the 16-bit length |
| Edns.LongOptionCounterexample | dns/edns.go:74-91 | one option of 65535 octets is built and does not come back |
| Edns.BuildOPTWithOptions | dns/edns.go:74-91 | the append loop builds the OPT record of the round trip |
| Edns.ParseOptionsLoop | dns/edns.go:24-54 | the offset loop returns the options of the parsing function |
| Edns.ParseOptRecord | dns/edns.go:24-54 | the flags and options of an OPT record, none for any other type |
| Messages.HeaderRoundTrip | dns/header.go:16-47 | the twelve header octets read back as the header |
| Messages.QuestionsRoundTrip | dns/question.go:4-22 | written questions read back in order to where they end, with the table still readable |
| Messages.RRsRoundTrip | dns/wire.go:191-211 | a written record section reads back in order to where it ends |
| Messages.BodyRoundTrip | dns/wire.go:177-221 | each section is read from where the previous one ends to where it was written |
| Messages.MessageRoundTrip | dns/wire.go:100-224 | every well-formed message that packs comes back from unpacking, header counts filled in and EDNS extracted |
| Layouts.BigEndian16 | dns/wire.go:19-75 | written and read 16-bit integers have the more significant octet first |
| Layouts.BigEndian32 | dns/wire.go:28-84 | the same for 32 bits |
| Layouts.NameByOctets | dns/name.go:16-94 | a name is a zero octet, a length of 1 to 63 with a label and a name, or two octets from 192 on that point, by their low 14 bits, to a name further up |
| Layouts.PlainIsName | dns/record.go:170-189 | the plain form of labels is such a name, without pointers |
| Layouts.PlainDecodes | dns/record.go:170-189 | so it decodes to its labels and to where it ends |
| Layouts.NoNameAt | dns/name.go:16-94 | what is no name at its first octet is refused with the error for that: truncated, a reserved length, or a pointer that does not go up |
| Layouts.HeaderLayout | dns/header.go:16-47 | identifier, flags and the four counts are at octets 0, 2, 4, 6, 8 and 10 |
| Layouts.QuestionLayout | dns/question.go:4-22 | a question is read exactly where a name is followed by its type and class |
| Layouts.RecordLayout | dns/record.go:8-155 | a record is read exactly where a name is followed by type, class, TTL, length and that many octets |
| Layouts.OneNameLayout | dns/record.go:43-151 | RDATA of types 2, 5, 12, 15, 33, 39, 46 and 47 is stored with the plain form of its name behind 0, 0, 0, 2, 6, 0, 18 and 0 octets and, for the last two, before what follows |
| Layouts.TwoNamesLayout | dns/record.go:70-92 | SOA RDATA is stored with the plain forms of both names before its twenty octets |
| Layouts.RawLayout | dns/record.go:43-151 | RDATA of all other types, or without a readable name, is copied |
| Layouts.OneNameWritten | dns/wire.go:244-346 | RDATA of those types is written as the octets in front, the encoded name and, for types 46 and 47 only, what follows |
| Layouts.RawWritten | dns/wire.go:244-346 | all other RDATA, or without a readable name, is written as it is |
| Layouts.QuestionsInOrder | dns/wire.go:115-124 | the questions read are those that follow each other from the start to the end |
| Layouts.RecordsInOrder | dns/wire.go:127-138 | the same for a record section |
| Layouts.UnpackLayout | dns/wire.go:100-161 | every message read has its header by position and, in order, as many questions, answers, authority and additional records as it says, and the EDNS data of its first OPT record |
| Layouts.OptLayout | dns/edns.go:24-54 | size, extended RCODE, version and DO flag are the class and the octets of the TTL |
| Layouts.OptionLayout | dns/edns.go:74-91 | an option is code, length and data |
| Layouts.OptBuilt | dns/edns.go:57-91 | a built record has the size, at most the DO flag and the options |
| Wire.WireWriter.WriteBytes | dns/wire.go:86-93 | the octets are appended, or the buffer is full and nothing changes |
| Wire.WireWriter.WriteUint16 | dns/wire.go:68-75 | appends the big-endian value or reports a full buffer |
| Wire.WireWriter.EncodeName | dns/name.go:97-137 | buffer, offset and compression map follow the encoding function of the round trip |
| Wire.WireWriter.EncodeLabels | dns/name.go:112-136 | the label loop with its map updates follows the function of the compression invariant |
| Wire.WireWriter.WriteRData | dns/wire.go:244-346 | the type switch writes the RDATA of the round trip |
| Wire.WireWriter.PatchUint16 | dns/wire.go:352-354 | overwrites two written octets with the value and leaves all others alone |
| Wire.WireWriter.PackRData | dns/wire.go:229-356 | the placeholder and its in-place patch give the octets of the round trip |
| Wire.WireWriter.PackRR | dns/wire.go:191-209 | writes one record as the round trip requires |
| Wire.WireWriter.PackRRs | dns/wire.go:191-211 | writes one section as the round trip requires |
| Wire.WireWriter.PackQuestions | dns/wire.go:178-188 | writes the questions as the round trip requires |
| Wire.Pack | dns/wire.go:164-224 | the octets left in the buffer are those of the function whose round trip is proved |
| Wire.WireReader.ReadUint16 | dns/wire.go:19-26 | returns the value and advances, or reports truncation and stays |
| Wire.WireReader.ReadUint32 | dns/wire.go:28-35 | returns the value and advances, or reports truncation and stays |
| Wire.EncodePlainName | dns/record.go:170-189 | the scan with a moving label start gives the plain form of the labels |
| Wire.UnpackRR | dns/record.go:8-155 | total on every octet string, and on success the offset moves forward inside the message |
| Wire.UnpackRData | dns/record.go:43-151 | every branch of the type switch returns the self-contained RDATA of the round trip |
| Wire.UnpackRRs | dns/wire.go:127-138 | the section loop returns the records of the unpacking function |
| Wire.UnpackQuestions | dns/wire.go:115-124 | the question loop returns the questions of the unpacking function |
| Wire.FindOpt | dns/wire.go:152-158 | the search finds the first OPT record of the section and parses it |
| Wire.Unpack | dns/wire.go:100-161 | the whole parser equals the function of the round trip on every octet string |
| Truncation.MaxSize | server/handler.go:1106-1115 | the size cap is between 512 and 65535 and never above the configured ceiling |
| Truncation.MaxSizeIs | server/handler.go:1106-1115 | it is what the client offers, at least 512 and at most the configured size or 1232 |
| Truncation.QuestionsSurvive | server/handler.go:1125-1142 | the questions still read after the header is overwritten and everything behind them is cut |
| Truncation.TruncatedReply | server/handler.go:1106-1143 | the reply fits; it is the packed message if that fits, else a complete message with TC set, the same questions and no records, or the bare header exactly when the questions do not fit |
| Truncation.MaybeTruncateUDP | server/handler.go:1106-1143 | the in-place edits and the cut give that reply |
| Order.OrdersAreTotal | dnssec/nsec.go:207-253 | the octet order and the canonical name order are strict total orders |
| Order.ChainPartition | dnssec/nsec3.go:304-314 | with owners in ascending order linked in a circle, every key is an owner or is covered by exactly one link, a single owner included |
| Order.CommonBetween | dnssec/nsec.go:152-178 | what lies between two label sequences shares at least as much with either end as they share |
| Order.NeighboursShareMost | dnssec/nsec.go:152-178 | the longest common prefix with any owner is attained at one end of the covering link, the wrap-around link included |
| Nsec.CompareOctets | dnssec/nsec.go:232-253 | the octet loop computes the sign of the octet order |
| Nsec.CanonicalCompareName | dnssec/nsec.go:207-227 | the right-to-left label loop computes the sign of the canonical order |
| Nsec.CommonAncestorLoop | dnssec/nsec.go:163-178 | the loop returns the name of the labels shared from the right |
| Nsec.FindClosestEncloser | dnssec/nsec.go:152-159 | the two ancestor loops give the closest encloser whose maximality is proved |
| Nsec.CheckWildcard | dnssec/nsec.go:118-130 | the wildcard is covered, or owned without the type and an alias |
| Nsec.NsecCoversName | dnssec/nsec.go:138-146 | three comparisons decide the cyclic interval |
| Nsec.Verify | dnssec/nsec.go:40-133 | the four loops compute the checker whose soundness is proved |
| Denial.ClosestEncloserIsLongest | dnssec/nsec.go:152-178 | computed from the two ends of the covering link, it is the longest ancestor of the name that exists anywhere in the zone |
| Denial.ClosestEncloserUnique | dnssec/nsec.go:152-159 | a name has one closest encloser |
| Denial.CoveredIsNoOwner | dnssec/nsec.go:138-146 | a true record that covers a name shows that it owns nothing |
| Denial.DeniesTypeSound | dnssec/nsec.go:50-66 | a true record at the name without the type and without CNAME denies both |
| Denial.CoveredSound | dnssec/nsec.go:90-133 | a covering record and a denied wildcard leave no answer, not even by synthesis |
| Denial.AcceptedMeans | dnssec/nsec.go:40-133 | acceptance of true records denies type and alias, or comes from the compact-denial branch |
| Denial.DenialSound | dnssec/nsec.go:40-133 | records of the true chain, with NOERROR or none at the name, are accepted only if the zone has neither the type nor an alias for the name, directly or by wildcard |
| Denial.DenialWrongIff | dnssec/nsec.go:73-88 | the checker accepts a type the zone answers for if and only if the response is NXDOMAIN and a record at the name lists the type without CNAME, DNAME or a delegation |
| Denial.CompactDenialCounterexample | dnssec/nsec.go:73-88 | a one-record zone whose only address is denied by its own chain |
| Denial.DenialAcceptsIff | dnssec/nsec.go:40-133 | for every response code, name and selection of true records: accepted if and only if the link at or over the name is among them and either the name owns neither an alias nor a delegation nor, unless compact denial applies, the type, or the code is NXDOMAIN and the link at or over the wildcard of the closest encloser is among them and that wildcard owns neither type nor alias |
| Denial.OwnerAcceptsIff | dnssec/nsec.go:46-88 | the case of a name that owns records |
| Denial.OtherAcceptsIff | dnssec/nsec.go:90-133 | the case of a name that owns none, empty non-terminals included |
| Denial.WildcardDeniedIff | dnssec/nsec.go:118-130 | a wildcard is denied exactly if its link is shown and it owns neither the type nor an alias |
| Denial.RecordIsLink | dnssec/nsec.go:138-146 | a true record is at a name or covers it exactly as its link of the chain does |
| Denial.TrueDenialRefusedIff | dnssec/nsec.go:40-133 | with the whole chain in the response, a true denial is refused if and only if the name is a delegation point, or owns nothing and either the code is not NXDOMAIN or the name exists and its wildcard child has the type or an alias |
| Denial.EmptyNonTerminalRefused | dnssec/nsec.go:68-70 | a zone whose true NODATA for an empty non-terminal is refused |
| Denial.WildcardNodataRefused | dnssec/nsec.go:68-70 | a zone whose true NODATA from a wildcard is refused |
| Denial.UnsignedDelegationRefused | dnssec/nsec.go:60-62 | a zone whose true denial of a DS record at a delegation is refused |
| Denial.WildcardChildRefused | dnssec/nsec.go:105-132 | a zone in which even NXDOMAIN for an empty non-terminal is refused |
| Cuts.CutLinkCovers | dnssec/nsec.go:138-146 | the link of a delegation or DNAME covers every name below it, the wrap-around link included |
| Cuts.BelowCutAcceptedIff | dnssec/nsec.go:90-133 | in a zone without owners below a cut, a name below a delegation or DNAME is denied if and only if the code is NXDOMAIN and some record is of a proper ancestor of the name with DNAME, or with NS and no SOA |
| Cuts.DenialFalseIff | dnssec/nsec.go:40-133 | everything accepted that should not be, the zone answering for the type or the name being below a cut: exactly NXDOMAIN with such a record or one that passes compact denial and lists the type |
| Cuts.BelowCutCounterexample | dnssec/nsec.go:90-133 | zones with a delegation and with a DNAME whose one record is accepted as NXDOMAIN for a name below it |
| Nsec3.IterateLoop | dnssec/nsec3.go:35-67 | the hash loop computes the iterated hash |
| Nsec3.ComputeNSEC3Hash | dnssec/nsec3.go:35-67 | the hash of the specification, or the error for another algorithm |
| Nsec3.HashIs | dnssec/nsec3.go:35-67 | for algorithm 1 and at most 100 iterations the hash is the iterated hash of section 5 of RFC 5155 over the lower case wire form of the name, and an error otherwise |
| Nsec3.HashIsCanonical | dnssec/nsec3.go:35-67 | the hash depends on neither case nor a trailing dot |
| Nsec3.CoversHashFull | dnssec/nsec3.go:304-314 | three comparisons decide the cyclic interval of hashes |
| Nsec3.Verify | dnssec/nsec3.go:278-300 | the loop computes the checker with its two error cases |
| Nsec3.Nsec3Sound | dnssec/nsec3.go:278-300 | accepted records of the true chain show that the name does not exist |
| Nsec3.Nsec3AcceptsIff | dnssec/nsec3.go:278-300 | on any selection of the true chain: an error without records, and otherwise accepted if and only if the hash of the name is no owner and the link over it is among the records |
| Nsec3.Nsec3WrongIff | dnssec/nsec3.go:278-300 | on any selection of the true chain it accepts a name the zone answers for if and only if some record covers the hash of the name and the wildcard below the closest encloser owns the type |
| Nsec3.Nsec3RightIfWildcardCovered | dnssec/nsec3.go:278-300 | acceptance is right for every type if some record also covers the hash of that wildcard |
| Nsec3.EncloserProofSound | dnssec/nsec3.go:278-314 | an owner for an ancestor and records over the next closer name and the wildcard leave no answer, unless another name has the ancestor's hash |
| Nsec3.Nsec3RefusesExisting | dnssec/nsec3.go:278-300 | a name that exists is never accepted, so every true NODATA is refused |
| Nsec3.WildcardCounterexample | dnssec/nsec3.go:278-300 | a zone with a wildcard whose own chain is accepted as denial of a name the wildcard answers for |
| Nsec3.NodataCounterexample | dnssec/nsec3.go:278-300 | the same zone refuses the true NODATA at its apex |
| OptOut.NothingOmitted | dnssec/nsec3.go:278-300 | a chain without opt-out links is the chain of all existing names |
| OptOut.OptOutWrongIff | dnssec/nsec3.go:278-300 | in a chain that leaves out unsigned delegations, an accepted denial is false if and only if a record covers the hash of the name and the name exists only for such delegations or a wildcard answers for it |
| OptOut.OptOutIff | dnssec/nsec3.go:278-300 | in every zone that a chain is true of, acceptance means that the name owns nothing, if and only if no record that covers the hash of the name has the opt-out flag |
| OptOut.FlagSetIsWrong | dnssec/nsec3.go:278-300 | any zone whose covering link opts out can be given an unsigned delegation at the name without a change to its chain |
| OptOut.OptOutCounterexample | dnssec/nsec3.go:278-300 | a zone whose opt-out link is accepted as denial of its own delegation |
| EvictionHeap.RootIsLeast | cache/eviction_heap.go:14-32 | the first item of a heap expires no later than any other |
| EvictionHeap.Push | cache/eviction_heap.go:22-24 | sifting up keeps the heap and adds exactly the item |
| EvictionHeap.Pop | cache/eviction_heap.go:26-32 | returns the root and keeps the heap of all other items |
| Shard.RemainingIsExact | cache/entry.go:63-69 | within 2^32 seconds an entry has run out exactly when its expiry has come, and otherwise has its TTL minus the whole seconds elapsed |
| Shard.DecayLoop | cache/entry.go:77-102 | the copy loop sets every TTL and changes nothing else |
| Shard.WithDecayedTTL | cache/entry.go:77-102 | the copy has the remaining TTL on every record of all sections and nothing else changed |
| Shard.DecayedIs | cache/entry.go:77-102 | every record of both sections has the remaining TTL, and nothing else differs from what was stored |
| Shard.CacheShard.Reset | cache/eviction_heap.go:34-38 | empties the shard and keeps the coverage invariant |
| Shard.CacheShard.PushEvictionEntry | cache/eviction_heap.go:40-46 | restores coverage for the key that lacked it |
| Shard.CacheShard.NextEvictionKey | cache/eviction_heap.go:48-72 | skipping stale items finds an entry of least expiry whenever there is an entry, so the fallback scan is never needed |
| Shard.CacheShard.QueueCovers | cache/eviction.go:31-34 | a shard with entries has a queue, so the sweep's compatibility path is dead |
| Shard.CacheShard.EvictExpired | cache/eviction_heap.go:74-97 | removes exactly the entries whose expiry has come, counts them, and keeps coverage |
| Shard.CacheShard.Put | cache/cache.go:270-275 | stores, and evicts at most one entry, only over capacity and one of least expiry in the shard |
| Shard.LimitIs | cache/cache.go:529-540 | the shards have room for the configured number of entries and at most one more each |
| Ttl.ExtractTTL | cache/cache.go:377-389 | the least sanitised TTL of the records, the minimum TTL if there are none |
| Ttl.HasAnySOA | cache/cache.go:437-444 | tells whether the section has an SOA record |
| Ttl.AuthorityCoversName | cache/cache.go:451-469 | tells whether some SOA is owned by the name or one of its ancestors |
| Ttl.CoveredIs | cache/cache.go:437-469 | in terms of labels, that is an SOA record whose owner has the last labels of the name |
| Ttl.SoaTTL | cache/cache.go:487-504 | the least of the sanitised SOA TTL and, when it parses, the sanitised minimum field |
| Ttl.SoaMinimumIs | dns/rdata.go:65-97 | for all names and numbers the minimum of SOA RDATA is the last of its five numbers |
| Ttl.SoaTTLIs | cache/cache.go:487-504 | so such a record has the least of its TTL and that number, and zero if either has its high bit set |
| Ttl.ExtractNegativeTTL | cache/cache.go:485-507 | the first SOA with RDATA decides, or the fallback of 60 |
| Ttl.NegativeTTLIs | cache/cache.go:485-507 | which is what a negative answer gets from its first SOA record with RDATA |
| Ttl.NoSoaTTLIs | cache/cache.go:485-507 | and it gets 60 without one |
| Ttl.ClampIs | cache/cache.go:509-527 | a clamped TTL is the TTL within the bounds and the nearer bound outside |
| Cache.DnsCache.constructor | cache/cache.go:60-74 | an empty cache satisfies the invariant |
| Cache.DnsCache.Insert | cache/cache.go:270-275 | one key gets the entry, at most one key loses its own, and all shards keep coverage and capacity |
| Cache.DnsCache.PutEntry | cache/cache.go:259-276 | the log grows by one store and the cache still refines it |
| Cache.DnsCache.StoreWithStatus | cache/cache.go:249-319 | stores for the clamped least TTL unless that TTL is zero, and keeps the log honest when the query type is not 0 |
| Cache.DnsCache.StoreNegative | cache/cache.go:324-375 | refuses a zero TTL and an answer whose SOA records all miss the name, and otherwise stores, NXDOMAIN under the sentinel |
| Cache.DnsCache.StoreFailure | cache/cache.go:409-434 | stores a SERVFAIL entry for 5 seconds by default and never more than 30 |
| Cache.DnsCache.NearestLiveIsNearest | cache/cache.go:156-186 | the walk finds the live sentinel of the nearest ancestor that has one, and misses none |
| Cache.DnsCache.CheckParentNXDomain | cache/cache.go:156-186 | the loop returns that sentinel's entry with its remaining seconds |
| Cache.CutFirstLabel | cache/cache.go:159-166 | the name behind the first dot, none at the top |
| Cache.DnsCache.BeginGet | cache/cache.go:91-151 | the reading part: a hit is the latest undeleted store of the key, of its sentinel, or of the nearest live sentinel above, with its TTL minus whole elapsed seconds, at least one, on every record; without a capacity limit a miss means that the latest stores have expired; the key to delete is the one found, and the entry seen there is dead |
| Cache.DnsCache.EndGet | cache/cache.go:128-131 | the deleting part: whatever the key holds by then goes, and a live entry that goes is a deletion |
| Cache.DnsCache.LiveLossIff | cache/cache.go:97-131 | with anything between the two parts, the deletion hits a live entry if and only if the key holds one stored since the read |
| Cache.DnsCache.GetLosesStore | cache/cache.go:97-131 | a run of read, store and delete after which a fresh answer is gone |
| Cache.DnsCache.Get | cache/cache.go:91-152 | with nothing between its parts: the same answer, and only dead entries go |
| Cache.DnsCache.SentinelAnswersNXDomain | cache/cache.go:103-112 | with no caller storing under query type 0, an answer from a sentinel is an NXDOMAIN, with an SOA at or above its name if it has any |
| Cache.DnsCache.GetStale | cache/cache.go:211-238 | serves exactly the expired entries, when allowed, with the stale TTL and no DNSSEC status |
| Cache.DnsCache.Delete | cache/cache.go:592-605 | removes one key, tells whether it was there, and logs the deletion |
| Cache.DnsCache.Sweep | cache/eviction.go:23-42 | removes exactly the entries whose expiry has come, in all shards, and returns their number |
| Cache.DnsCache.Flush | cache/eviction.go:45-52 | empties the cache and logs it |
| Cache.DnsCache.CapacityBound | cache/cache.go:529-540 | at most maxEntries + 256 entries in every reachable state |
| Cache.LatestIsHonest | cache/cache.go:342-346 | what the log says of a key was stored by the rules for its kind |
| Bailiwick.OnlyWithinExact | security/bailiwick.go:61-74 | the zone filter keeps each record whose lower case owner is in the zone as often as it occurs and no other |
| Bailiwick.OnlyGlueExact | security/bailiwick.go:39-58 | the glue filter keeps OPT and in-zone records at named servers, as often as they occur, and no other |
| Bailiwick.NsHostsExact | security/bailiwick.go:27-37 | the hosts are exactly those named by NS records that parse |
| Bailiwick.RootKeepsAll | security/bailiwick.go:62-64 | in the root zone the filter drops nothing |
| Bailiwick.FilterInZone | security/bailiwick.go:61-74 | compacting the slice in place leaves exactly the filtered records in order |
| Bailiwick.FilterGlue | security/bailiwick.go:39-58 | the same for the additional section |
| Bailiwick.SanitizeBailiwick | security/bailiwick.go:21-59 | the three in-place filters equal the declarative one, glue judged by the filtered authority |
| Bailiwick.Sanitize | security/bailiwick.go:21-59 | the filtered message of the declarative filter |
| Replies.ClassifyResponse | resolver/classify.go:37-139 | the flag loops compute the kind that the contents of the sections define |
| Replies.KindIs | resolver/classify.go:37-139 | each class exactly, by response code, authority bit and the records of the sections; an answer or alias counts only with the AA bit |
| Replies.ExtractCNAMETarget | resolver/cname.go:11-21 | the target of the first usable alias at the name |
| Replies.CnameTargetIs | resolver/cname.go:11-21 | it is the lower case name in the first CNAME record at the name whose RDATA reads as a name other than the root, and there is none exactly without such a record |
| Replies.ExtractDNAMETarget | resolver/cname.go:27-46 | the loop computes the DNAME substitution |
| Replies.DnameSubstitutes | resolver/cname.go:27-46 | the result is the query name with the owner of a DNAME swapped for its target |
| Replies.ExtractHopRecords | resolver/cname.go:54-71 | the alias records of a hop and their signatures, in order |
| Replies.HopRecordsIs | resolver/cname.go:54-71 | they are, each as often as in the reply, the CNAME records at the name and the signatures there over CNAME; behind a DNAME all DNAME and CNAME records and the signatures over either |
| Replies.ExtractDelegation | resolver/delegation.go:19-76 | one server for each host the NS records name, each with its last usable addresses, and the owner of the last NS record |
| Replies.GlueFrom | resolver/delegation.go:42-69 | an address of a server comes from a record at its name |
| Replies.LastNsOwnerFrom | resolver/delegation.go:25-29 | the delegated zone is the owner of an NS record of the section |
| Replies.ParseIPv4Bytes | resolver/resolver.go:868-885 | the digit loops accept exactly four parts whose 64-bit value is at most 255, and give their low octets |
| Replies.ParseIPv4Reads | resolver/resolver.go:868-885 | every printed IPv4 address reads back as its four octets |
| Replies.ParseIPv4Is | resolver/resolver.go:868-885 | of dotted decimals exactly those of four numbers up to 255 are accepted, as these numbers |
| Replies.GlueIs | resolver/resolver.go:630-651 | the records cached for a server are exactly the A and the AAAA record of the addresses that are there and parse, each with its own TTL |
| Replies.MinimizeReveals | resolver/qmin.go:11-54 | a minimised question asks for NS and shows one label below the zone, any other is the full question |
| Replies.MinimizeIs | resolver/qmin.go:11-54 | a question is minimised exactly if the name is not the root, the type is not DS and the zone is the root or above the name by more than one label; then it asks for NS with one label more than the zone |
| Runs.SanitizedIsClean | resolver/resolver.go:452-452 | after the filter every answer and authority record lies in the zone, and all glue belongs to a named server in the zone |
| Runs.ConversationOk | resolver/resolver.go:429-483 | one or two questions go out, each for the full name or one label below the zone, and any reply but a referral answers the full question |
| Runs.ReferralOk | resolver/resolver.go:616-653 | the delegated zone is at or below the current one, and every cached glue record belongs to a server of the filtered authority and lies in the zone |
| Runs.StepIsOk | resolver/resolver.go:409-689 | every step of the loop, whatever the reply, keeps these bounds and uses only records of the current zone |
| Runs.StepsAreOk | resolver/resolver.go:389-691 | so does every step of every run |
| Runs.KeysAreNew | resolver/resolver.go:416-427 | across the whole alias chain no visited key is visited again |
| Runs.TriplesDistinct | resolver/resolver.go:416-427 | no server, name and zone triple is visited twice |
| Runs.KeyIsTriple | resolver/resolver.go:421-421 | the visited key stands for the triple when addresses and names have no bar |
| Runs.TargetsAreNew | resolver/resolver.go:522-525 | no alias target is followed twice |
| Runs.ZonesNarrow | resolver/resolver.go:616-624 | within one level of the chain each later zone is at or below each earlier one |
| Runs.RunIsBounded | resolver/resolver.go:401-409 | a run takes at most MaxDepth steps on each level that is left |
| Runs.QuestionBound | resolver/resolver.go:401-483 | one resolution sends at most 2 × MaxDepth × (MaxCNAMEDepth + 1) questions |
| Runs.ChainVerdict | resolver/resolver.go:485-614 | for every run and every result: a Bogus verdict anywhere makes it bogus, no verdict leaves the status empty, all verdicts Secure make it secure, anything else insecure; and the result is a SERVFAIL exactly if the run does not end in a response that is not Bogus |
| Runs.AddVerdict | resolver/resolver.go:527-559 | one step in front of a run of any length keeps that law |
| Runs.SecureFailureIff | resolver/resolver.go:946-964 | a SERVFAIL is marked secure if and only if the run has a verdict, all its verdicts are Secure, and it does not end in a response |
| Runs.SecureFailureCounterexample | resolver/resolver.go:946-964 | a network and a run whose result is a SERVFAIL marked secure |
| Runs.RecordsWereUsed | resolver/resolver.go:485-614 | every record handed back comes from a step and lies in the zone of that step |
| Results.ResultIs | resolver/resolver.go:485-691 | for every run: if it ends with a response that is not Bogus, the code is NXDOMAIN exactly if the response has it and none otherwise, the answers are the alias records on the way and then those of the response if it has the name and type, and the authority is that of the response; otherwise it is a SERVFAIL with the alias records |
| Results.HopIs | resolver/resolver.go:516-614 | an alias leads to the target in the reply and hands on its records, or nothing if it is Bogus |
| Results.OutcomeIs | resolver/resolver.go:438-679 | what a step makes of each class of reply, and which type the validator is asked with |
| Results.GoesOnIs | resolver/resolver.go:438-653 | where the loop goes on after a dropped server, a referral and an alias |
| Results.HaltsIff | resolver/resolver.go:401-427 | the loop halts exactly where it cannot take a step, and it has one step at most |
| Descent.UsableIsOnPath | resolver/classify.go:25-139 | a record of the zone that answers, aliases, redirects or denies the name puts the zone at or above it |
| Descent.OffPathKind | resolver/classify.go:37-139 | in a zone beside the name a filtered reply is NXDOMAIN, a referral or of no use |
| Descent.OffPathResult | resolver/resolver.go:389-691 | once the zone is beside the name it stays so, and the run ends in a failure or NXDOMAIN without answers |
| Descent.AnswersAreOnPath | resolver/resolver.go:389-691 | any other result was found with every step of the whole alias chain in a zone at or above the name asked for |
| Descent.OnPathIff | resolver/resolver.go:616-625 | every zone of a run is at or above its name if and only if the first is and no referral followed delegates a zone that is not |
| Descent.SidewaysRun | resolver/resolver.go:616-625 | a network and a run that follows a referral to a zone beside the name and ends in its NXDOMAIN |
| Resolver.RemoveByIP | resolver/resolver.go:858-866 | the loop drops exactly the servers at the address |
| Resolver.Ask | resolver/resolver.go:429-483 | the minimised question, its reply, and the fallback to the full question |
| Resolver.FollowReferral | resolver/resolver.go:622-652 | the new server list, and the glue records cached: one for each address that parses, with its TTL and octets |
| Resolver.CacheGlue | resolver/resolver.go:630-651 | the A record if parseIPv4Bytes accepts the address and the AAAA record if the address parses |
| Resolver.ReferralServers | resolver/resolver.go:616-653 | both are those that the reply defines |
| Resolver.Drop | resolver/resolver.go:438-448 | an unusable reply only takes the server off the list |
| Resolver.Refer | resolver/resolver.go:616-653 | a referral hands over to its servers in the zone it delegates, or fails if it names none |
| Resolver.Hop | resolver/resolver.go:516-614 | an alias leads through a new target that is not Bogus to the rest of the chain, or ends the run |
| Resolver.Finish | resolver/resolver.go:485-514 | an answer or denial ends the run with the validator's verdict |
| Resolver.Resolve | resolver/resolver.go:389-691 | for any upstream the loop and its recursion perform exactly a run of the relation, and the visited sets hold exactly its keys and targets |
| Resolver.ResolveIterative | resolver/resolver.go:347-355 | the result of a whole resolution is that of a run from the root and obeys the law of the chain verdict |
| SignedData.PermutedSignedData | dnssec/verify.go:60-147 | the order of the record set does not matter |
| SignedData.SortSorts | dnssec/verify.go:138-140 | the sort gives an ordered permutation |
| SignedData.SignedOwner | dnssec/verify.go:293-333 | the signed owner is the lowercased name, or a star and the last signed labels when the name was expanded |
| SignedData.SameOwnerBytes | dnssec/verify.go:293-333 | owners that differ in case or are expansions of one wildcard give the same octets |
| SignedData.CaseVariantCanonical | dnssec/verify.go:157-220 | the case of names inside RDATA does not matter |
| SignedData.CanonicalRDataTwice | dnssec/verify.go:157-220 | canonical RDATA has the same length and is its own canonical form, on every octet string |
| SignedData.SignedDataIsCanonical | dnssec/verify.go:60-147 | the signed octets are unchanged by reordering, TTLs, case of owners, embedded names and signer, and by another expansion of the wildcard |
| SignedLayout.RrsigLayout | dns/rdata.go:269-292 | every field of RRSIG RDATA by octet position |
| SignedLayout.SignedPrefix | dnssec/verify.go:60-82 | the signed octets begin with the RDATA of the signature up to its signature field, the signer in lower case |
| SignedLayout.SignedRecordLayout | dnssec/verify.go:94-135 | a signed record is its owner, type, class, the TTL of the signature, the length and the RDATA |
| SignedLayout.CanonicalOneNameIs | dnssec/verify.go:157-220 | in RDATA of types 2, 5, 12, 15, 33, 39, 46 and 47 exactly the name becomes lower case |
| SignedLayout.CanonicalSoaIs | dnssec/verify.go:157-220 | in SOA RDATA both names do |
| SignedLayout.CanonicalOtherIs | dnssec/verify.go:157-220 | other RDATA stays as it is |
| RfcOrder.SignedOrder | dnssec/verify.go:87-147 | two records of a set are ordered by RDATA length first and by RDATA then |
| RfcOrder.RfcOrderIff | dnssec/verify.go:60-147 | for every set the signed octets are those of section 6.3 of RFC 4034, records by ascending RDATA without repeats, if and only if no RDATA occurs twice and of two RDATA the shorter always comes first |
| RfcOrder.EqualLengthsAgree | dnssec/verify.go:60-147 | in particular for sets of different RDATA of one length |
| RfcOrder.RfcOrderCounterexample | dnssec/verify.go:60-147 | two TXT records whose signed octets are not those of the standard |
| SignedData.LowercaseWireName | dnssec/verify.go:228-260 | the in-place loop lowercases exactly the label octets of an uncompressed name, or reports that there is none |
| SignedData.ScanWireNameEnd | dnssec/verify.go:265-283 | the scan finds the end of the name at the front |
| SignedData.CanonicalForm | dnssec/verify.go:157-220 | the type switch gives the canonical RDATA |
| SignedData.RecordWire | dnssec/verify.go:94-135 | one record in canonical form |
| SignedData.CanonicalRRSetWire | dnssec/verify.go:87-147 | loop, sort and concatenation give the canonical record octets |
| SignedData.SignedOctets | dnssec/verify.go:60-82 | the fields of the signature and the record octets give the signed data |
| TrustChain.ZoneChain | dnssec/validator.go:823-840 | the loop builds the chain of zones |
| TrustChain.ZoneChainIsAncestors | dnssec/validator.go:823-840 | the chain lists every ancestor of the zone and nothing else |
| TrustChain.ChainDescends | dnssec/validator.go:823-840 | from the root it goes down one label at a time |
| TrustChain.VerifyKeys | dnssec/validator.go:532-575 | accepts exactly if some key-signing key matches some DS record of an accepted digest type |
| TrustChain.ValidateTrustChain | dnssec/validator.go:464-527 | the loop returns the verdict of the first zone from the root that is not Secure |
| TrustChain.CheckZone | dnssec/validator.go:469-526 | one round of that loop: the verdict of one zone by its keys and its anchors or DS records |
| TrustChain.SecureIff | dnssec/validator.go:464-575 | Secure exactly when the root keys match an accepted anchor and every other ancestor zone has a key-signing key that matches an accepted DS |
| TrustChain.RootTrust | dnssec/validator.go:464-575 | the root is Secure exactly if its keys match an accepted anchor |
| TrustChain.FailureIsFirst | dnssec/validator.go:464-527 | any other verdict is that of the first zone that fails, all above it being Secure |
| TrustChain.FailureMeans | dnssec/validator.go:464-527 | that zone could not be looked up (Indeterminate), has no DS of an accepted digest (Insecure), or has keys that neither anchor nor DS endorses (Bogus), and every zone above it is vouched for |
| Validator.InBailiwickIsAncestor | dnssec/validator.go:856-866 | the textual test holds exactly when the signer is an ancestor of the name |
| Validator.FilterRRSetByOwner | dnssec/validator.go:794-819 | the records at the owner, or all of the type if they share one owner, or none |
| Validator.FindMatchingDNSKEY | dnssec/validator.go:745-756 | the first key with the tag and the algorithm |
| Validator.CheckRRSIG | dnssec/verify.go:34-56 | an empty set or signature fails, and otherwise the check of the algorithm over the signed octets decides |
| Validator.CheckSignature | dnssec/validator.go:266-406 | the fate of one signature: skipped, unmatched, failed, without key, or verified |
| Validator.ValidatePositive | dnssec/validator.go:229-448 | the loop with its flags computes the verdict by the outcomes in order |
| VerdictRules.UnderIs | dnssec/validator.go:794-819 | the records under a signature are those at its owner of its type, or all of that type at one owner, each as often as it occurs |
| VerdictRules.ClassifyIs | dnssec/validator.go:266-406 | the five fates of a signature by algorithm number, period, records, bailiwick, first fitting key and the check of the canonical octets |
| VerdictRules.AnswerVerdictIs | dnssec/validator.go:229-448 | all four verdicts exactly: the trust of the zone of the first signature that passes; without one, Insecure if no algorithm is accepted, Bogus if a signature is out of time, out of bailiwick or rejected by its key, and else Indeterminate |
| VerdictRules.ForgedAnswerIsBogus | dnssec/validator.go:399-443 | a signature that its key rejects makes an answer Bogus |
| Verdicts.RRsetPermuted | dnssec/validator.go:794-819 | reordering a section only reorders the RRset of a signature |
| Verdicts.ClassifyPermuted | dnssec/validator.go:266-406 | a signature fares the same however the records of the section are ordered |
| Verdicts.JudgeBySet | dnssec/validator.go:250-448 | the verdict is a function of the set of outcomes, and of those that verify once there is one |
| Verdicts.ReorderingIff | dnssec/validator.go:250-448 | no reordering of the signatures changes the verdict if and only if those that verify lead to the same trust verdict |
| Verdicts.VerdictStable | dnssec/validator.go:250-448 | reordering and adding failing signatures leave the verdict alone when the signatures that verify are the same and name one zone |
| Verdicts.ReorderedAnswer | dnssec/validator.go:229-448 | reordering a whole answer section leaves the verdict alone if the signatures that verify name one zone |
| Verdicts.SecureAnswer | dnssec/validator.go:266-428 | Secure means a timely signature of a trusted zone at or above the name, verified with a fetched key of that zone over the RRset of the answer that has the signature's owner and covered type |
| Verdicts.UncoveredIgnored | dnssec/validator.go:229-448 | adding a record whose type no signature of the section covers never changes the verdict |
| Verdicts.UnsignedAnswerIsSecure | dnssec/validator.go:229-448 | a Secure answer whose address record no signature covers |
| Coverage.VerifiesIff | dnssec/validator.go:266-406 | a signature verifies exactly if section, policy and clock let it and the fetched key of its signer accepts its octets |
| Coverage.QuestionSignedIff | dnssec/validator.go:229-428 | for a given policy and clock: in every world that makes the answer Secure some signature verifies over exactly the records asked for, if and only if every eligible signature of the section covers those records or has an eligible twin, alike in signer, key tag, algorithm, signature and signed octets, that does |
| Coverage.UncoveredWorld | dnssec/validator.go:229-428 | for any eligible signature without such a twin, a world that makes the answer Secure and leaves the records asked for unsigned |
| Coverage.QuestionCovered | dnssec/validator.go:266-428 | in particular, if every signature that could verify is for the name and type asked and there are such records, Secure means that one verified over exactly those |
| DenialVerdict.SameKeySameRRset | dnssec/validator.go:1038-1046 | a record whose owner and type are marked authentic is itself in a verified RRset |
| DenialVerdict.KeyedIsAuthenticated | dnssec/validator.go:1076-1083 | every record that reaches a proof checker sits in an RRset over which a signature verified |
| DenialVerdict.KeyedIffAuthenticated | dnssec/validator.go:1038-1083 | and every record of such an RRset reaches one |
| DenialVerdict.DenialRecords | dnssec/validator.go:1059-1132 | the checkers see exactly the authenticated records that parse, and without a verified signature no denial is Secure |
| VerdictRules.UnsignedDenialIs | dnssec/validator.go:1050-1072 | a denial over which no signature passes is Insecure if none has an accepted algorithm, Indeterminate if none breaks and one lacks its key, and Bogus otherwise |
| VerdictRules.SignedDenialIs | dnssec/validator.go:1074-1132 | with one that passes it is Indeterminate if the NSEC3 check fails, Secure if that or the NSEC check accepts, and Bogus otherwise |
| DenialVerdict.SecureDenial | dnssec/validator.go:876-1132 | a Secure denial is proved by such records only |
| DenialVerdict.DenialVerdictIff | dnssec/validator.go:1074-1132 | if signatures vouch only for true records and one verified, the denial is Secure exactly if an authenticated NSEC3 record covers the hash of the name or the authenticated NSEC records deny as in Denial.DenialAcceptsIff, and Bogus otherwise |
| DenialVerdict.SecureDenialFalseIff | dnssec/validator.go:876-1132 | under the same hypothesis a Secure denial is false of the zone if and only if an authenticated NSEC3 record covers the hash of a name whose closest encloser has a wildcard with the type, or the code is NXDOMAIN and an authenticated NSEC record at the name passes compact denial and lists the type |
| DenialVerdict.SecureBelowCutIff | dnssec/validator.go:876-1132 | under the same hypothesis a denial below a delegation or DNAME is Secure if and only if an authenticated NSEC3 record covers the hash of the name, or the code is NXDOMAIN and an authenticated NSEC record is of a cut above the name |
| DenialVerdict.EmptyNonTerminalIsBogus | dnssec/validator.go:1126-1132 | true NODATA of an empty non-terminal is Bogus, by NSEC and by NSEC3 |
| DenialVerdict.DelegationIsBogus | dnssec/validator.go:1126-1132 | any denial at a delegation point is Bogus |
| DenialVerdict.WildcardNodataIsBogus | dnssec/validator.go:1126-1132 | NODATA of a name that owns nothing, wildcard or not, is Bogus when proved by NSEC |
| DenialVerdict.Nsec3NodataIsBogus | dnssec/validator.go:1126-1132 | any denial of a name that exists is Bogus when proved by NSEC3 |
| DenialVerdict.DenialIgnoresTrust | dnssec/validator.go:876-1132 | no change of trust anchors or DS records changes the verdict on a denial |
| DenialVerdict.SecureAndTrust | dnssec/validator.go:197-428 | a Secure answer has a verified signature of a trusted zone; a Secure denial stays Secure without anchors, where no zone is trusted |
| DenialVerdict.UntrustedDenialIsSecure | dnssec/validator.go:876-1132 | a denial that is Secure although no zone is trusted |
| DenialVerdict.ValidateDenial | dnssec/validator.go:876-1132 | the loops over signatures and records compute the denial verdict |
| DenialVerdict.Authenticate | dnssec/validator.go:960-1047 | the flags and the set of authentic keys after the signature loop |
| DenialVerdict.Keep | dnssec/validator.go:960-966 | the loop keeps the signatures over NSEC, NSEC3 and SOA |
| DenialVerdict.SelectNsec3 | dnssec/validator.go:893-1082 | the loop keeps the authenticated NSEC3 records that parse |
| DenialVerdict.SelectNsec | dnssec/validator.go:893-1109 | the loop keeps the authenticated NSEC records that parse |
| DenialVerdict.ValidateResponse | dnssec/validator.go:197-448 | the dispatch between denial and positive answer |
| Inflight.StepKeepsInv | resolver/inflight.go:26-55 | every atomic step of every caller keeps the protocol invariant |
| Inflight.OneExecutionPerKey | resolver/inflight.go:26-55 | in every reachable state at most one execution per key is running |
| Inflight.RemovesOwnSlot | resolver/inflight.go:50-52 | the final delete finds the leader's own slot |
| Inflight.ReleasedIsFinal | resolver/inflight.go:48-48 | a released execution never changes again |
| Inflight.EveryoneGetsTheEnding | resolver/inflight.go:26-55 | leader and followers return exactly the result or error of the execution they joined, a panic included |
| Inflight.FollowerShares | resolver/inflight.go:28-32 | in every run a caller that finds a slot stays with that execution and its leader, and when it has returned it got exactly that execution's ending |
| Inflight.NoDeadlock | resolver/inflight.go:26-55 | while some caller has not returned, a step is possible |
| Inflight.RunsAreShort | resolver/inflight.go:26-55 | every run of n callers has at most 5n steps |
| Inflight.EveryoneReturns | resolver/inflight.go:26-55 | from every reachable state all callers can return |
| RateLimit.RateLimiter.AllowRequest | security/ratelimit.go:34-63 | the answer and the new buckets are those of the specification |
| RateLimit.RateLimiter.CleanupOnce | security/ratelimit.go:66-85 | drops exactly the buckets idle for longer than the cleanup period |
| RateLimit.StepKeepsInv | security/ratelimit.go:34-85 | tokens stay between zero and burst, and no bucket is from the future |
| RateLimit.WindowBound | security/ratelimit.go:34-85 | after any earlier run, a client gets at most burst + rate × length requests through in any window, if no cleanup falls into the window or idle buckets refill within the cleanup period |
| RateLimit.CleanupUnseen | security/ratelimit.go:66-85 | with rate × period at least burst, every answer is the same as without cleanup |
| RateLimit.CleanupIff | security/ratelimit.go:66-85 | the bound and the invisibility of cleanup each hold in all runs if and only if rate × period is at least burst |
| RateLimit.CleanupVisible | security/ratelimit.go:66-85 | otherwise some run exceeds the bound and some run shows the cleanup |

## Left out

- Names outside ASCII: lowercasing of the source folds more than A to Z on them.
- The Raw bytes of a message and the RDataOffset of a record, which only later diagnostics read.
- Locks: each critical section of the cache is atomic, and Get has a reading and a deleting part with anything in between. The several reads of one reading part (key, sentinel, parents) and the shards of one `Sweep` see one state.
- Prefetching, metrics, cache inspection (`Lookup`, `LookupAll`, `NegativeEntries`) and reading by ECS prefix: they add only easy members.
- Elapsed seconds computed in floating point: the model uses whole nanoseconds.
- Token counts in floating point: the model uses real arithmetic.
- Cache entries more than 2^32 seconds old, for which the source's 32-bit elapsed time wraps.
- The glueless lookup of nameserver addresses (resolver/resolver.go:734-773), which starts resolutions of its own: server selection is an oracle.
- The calls that store NS record sets, aliases and denials in the cache, whose records are those of the step's log entry, and the additional section of an answer it returns.
- Reading IPv6 addresses and printing addresses, which are oracles; the integers of parseIPv4Bytes are taken as 64 bits wide and its text as ASCII.
- The ECS option carried along a resolution.
- Cryptography: RSA, ECDSA, Ed25519, SHA, base32 and key tags are uninterpreted functions.
- The validator's caching and sharing of DNSKEY and DS fetches: fetches are functions of the zone, and the clock is the same for all signatures of one response.
- Parsing of NSEC and NSEC3 RDATA and of type bitmaps.
- The approximate NSEC3 checks (dnssec/nsec3.go:100-243), which the validator does not use.
- resolver/trace.go, forwarding, local zones, DNS64, fallback resolvers and RTT ordering.
- Sockets, TLS, HTTP, the web interface, configuration, blocking and access lists.
- Everything in server/handler.go but truncation; options added after it can make a reply longer.
