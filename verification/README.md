# AmarDNS: a Dafny model of its codecs, indexes and protocols

AmarDNS is a DNS resolver. This project models the parts of it that decide something hard and keeps them
apart from the network: the request-coalescing protocol, the name codec and the in-place edits of whole
messages, authenticated denial with NSEC and NSEC3, the Bloom filter and its look-up straight from the
wire, the rate limiter, the rule engine with its learning cascade, the edit distance, and the DER and
base32hex printers and parsers.

Code that works step by step is modelled by methods and classes. Most loops have a recursive function of
the same variables beside them (`ParseLoop`, `WireFeed`, `SkipFrom`, `KeepAnswers`, ...): the method is
proved equal to it, and lemmas prove that it computes what the source promises. Octets are integers below
256, so masks and shifts appear as remainders and quotients, and 16-, 32- and 64-bit wrap-around is written
out. Text is a sequence of characters that stand for the bytes of UTF-8.

`dafny verify dfyconfig.toml` checks everything.

| file | what it covers |
|---|---|
| Singleflight | the coalescing protocol as atomic steps, and the object updated in place |
| WireNames, WalkPaths, NameText, Utf8, QueryWire, NameRoundTrip | names on the wire, as text, and through both |
| Messages | abstract messages, their encoding, the section walks and what the walks read |
| Edns, EdnsLaws, EdeLaws, CookieLaws, DoBit, DoTwice, Ecs, Truncation, Ttl | edits of whole messages |
| NameReach, OptNames | what the names of a message expand to after an edit |
| CanonicalName | the wire form in which names are hashed, and when the code reads a name right |
| Ring, TypeBitMaps, Nsec, SignedZone, PairOrder, Nsec3 | authenticated denial; when the text order of names is that of the wire |
| Bloom, BloomWire | the filter, and look-ups from the wire |
| RateLimit, Pruning, Addresses | buckets, the limiter, its runs, when a prune can be noticed, and whom it limits |
| Glob, Rules, Cascade | patterns, rule indexes, the check that learns |
| Levenshtein, Der, Base32, Base32Order | edit distance, DER, base32hex |
| Common, Powers, Text | options, bytes and order; powers of two; strings |

## What the proofs found

- `wildcard_match` is the glob on every text without `*`, and on no other text: for each text with a `*`
  some pattern is answered wrongly (`Glob.CompleteExactlyWithoutStar`). A match it reports is always a match.
- `canonical_wire_name` trims the text of a name and splits it at every dot, escaped or not, and decodes no
  escape. It reads a name as that name if and only if no octet of the name needs an escape and no white space
  begins or ends the name (`CanonicalName.ReadExactlyWhenRight`). The NSEC3 verifier judges the types of a
  name rightly over every zone exactly for those names (`Nsec3.TypesRightExactlyWhenRead`). Its
  closest-encloser search trims each ancestor as well: it judges the existence of a name rightly over every
  zone exactly if, besides, no label between the first and the last begins with white space
  (`Nsec3.RightExactlyWhenTrustworthy`). Existing names are denied, and absent names are not
  (`Nsec3.InnerBlankMisleads`, `Nsec3.AbsentBlankNotDenied`).
- `canonical_name_cmp` compares presentation text. Over a zone of two names or more signed in the order of
  section 6.1 of RFC 4034 the NSEC verifier denies exactly the absent names if and only if the names of the
  zone come in the same order in both (`SignedZone.RightExactlyInSameOrder`), and no few records of the zone
  ever deny a name of it under the same condition (`SignedZone.SoundExactlyInSameOrder`). Two names without
  dots in labels come in the same order according to the octets at their first difference: an escaped octet
  sorts as the backslash, 92 (`PairOrder.NamesAgreeExactly`). Names that need no escape all agree; the record
  from `c` to `\000.c` makes the verifier deny an existing `0.c` (`SignedZone.EscapedNameMisorders`), and a
  dot in a label counts as a cut (`PairOrder.DottedNameMisorders`). An NSEC zone of a single name denies
  nothing, because `covers` is false when owner and next are one name.
- Inserting an option moves what follows the OPT record and corrects no compression pointer. The names of a
  message keep their labels over all runs of appends exactly if none of them gets, by its pointers, to the
  insertion or beyond, except to a root right there (`OptNames.RunsKeepNamesExactly`);
  `OptNames.AppendLosesName` and `OptNames.StripLosesName` give messages that lose a name.
- `is_bypassed` also lists the apex of a `*.name` rule, although the comment of `domain_matches_pattern`
  excludes it (`Rules.BypassIsLinearScan`).
- A query built from the text of a name asks for that name if and only if the text has no white space at its
  ends; the builder trims (`NameRoundTrip.RoundTripExactlyWhenTrimmed`).
- The documentation of `append_cookie_to_response` says it appends or updates; it only appends, and
  `parse_dns_cookie` returns the first cookie, so an appended cookie comes back exactly when there was no
  other one before (`CookieLaws.CookieComesBackExactlyIfFirst`).
- At 65535 additional records the count saturates: a fresh OPT record is then written but not counted, so
  `has_edns` stays false (`EdnsLaws.FreshOptCountedExactly`) and `ensure_edns0_do_bit` adds another each time
  (`DoTwice.IdempotentExactlyWithoutOpt`). That function parses the names on its way: it finds the OPT record
  exactly if the names up to it parse (`DoBit.EnsureRefinesExactly`). A name may point at the very octet that
  holds the DO bit, which reads as a root byte while the bit is clear: once it is set the name no longer
  parses and the next call adds another OPT record (`DoTwice.FlagNameLost`,
  `DoTwice.IdempotentExactlyWithOpt`).
- A response that `truncate_response_properly` cuts is within the limit exactly when its header and questions
  are (`Truncation.FitsExactlyWithQuestions`).
- A DER length past 65535 is cut to two octets: the printed key parses back whole exactly when its content is
  shorter (`Der.KeyParsesWholeExactly`).
- Pruning idle buckets can be noticed exactly if both levels can hold a token and a bucket of one of them
  does not refill within 60 seconds (`Pruning.PruneShowsExactly`); the configured limits refill in time.

## Model

| member | source | states |
|---|---|---|
| Singleflight.ReachableInv | src/dns/upstream.rs:55-125 | over every interleaving of arrivals, results, drops, wake-ups and cancellations: registered channels are open, each channel has one leader, a leader's status matches its channel, followers return what their channel held, the counter counts served followers |
| Singleflight.OneLiveLeaderPerKey | src/dns/upstream.rs:91-100 | a key is registered exactly while a live leader holds it, and no key ever has two |
| Singleflight.FollowerOutcomeIsLeaders | src/dns/upstream.rs:102-111 | a follower that returned had one earlier leader of the same key; it got a value exactly when that leader finished with that value, and nothing when the leader failed or was cancelled |
| Singleflight.LeaderReturnsUpstreamsAnswer | src/dns/upstream.rs:113-125 | over every run, by its actions: a leader has returned a result exactly if upstream answered it with that result and its guard is gone, it was cancelled exactly if its guard is gone without an answer, and upstream answers it at most once |
| Singleflight.FollowerReturnsUpstreamsAnswer | src/dns/upstream.rs:102-111 | over every run, by its actions: a follower returns exactly by waking up, after its leader's guard is gone; it returns a value exactly if upstream gave its leader that value |
| Singleflight.CallsAreArrivals | src/dns/upstream.rs:86-100 | the calls are the arrivals of the run, in order and with their keys |
| Singleflight.CoalescedCountsServed | src/dns/upstream.rs:102-108 | `coalesced` is the number of followers that got a value |
| Singleflight.WaitingFollowerCanWake | src/dns/upstream.rs:55-66 | a waiting follower can wake now, or the end of its live leader, by result or cancellation, lets it wake |
| Singleflight.StepUsesWork | src/dns/upstream.rs:86-125 | between arrivals only finitely many steps are possible |
| Singleflight.EveryCallCanFinish | src/dns/upstream.rs:86-125 | from every reachable state all calls can be finished without arrivals and without cancelling anyone, whatever upstream answers |
| Singleflight.Coalescer.Start | src/dns/upstream.rs:91-100 | the in-place registration is the protocol's arrival step |
| Singleflight.Coalescer.StoreResult | src/dns/upstream.rs:113-125 | the guard takes upstream's result as it is, and nothing else changes |
| Singleflight.Coalescer.Drop | src/dns/upstream.rs:55-66 | the guard's destructor is the protocol's drop step, after completion and on cancellation |
| Singleflight.Coalescer.Recv | src/dns/upstream.rs:102-112 | a completed receive is the protocol's wake-up step |
| WireNames.WalkLimits | src/dns/parser.rs:53-101 | a name that is accepted has labels of 1 to 63 octets and at most 255 octets on the wire |
| WalkPaths.WalksExactlyWhatIsSpelled | src/dns/parser.rs:53-101 | a name parses to its root octet if and only if labels of 1 to 63 octets and pointers spell it, with at most 128 places read, 16 pointers and 255 octets |
| WalkPaths.WalksToWhatIsSpelled | src/dns/parser.rs:53-101 | and it parses to the labels spelled, and ends after its root octet or its first pointer |
| WireNames.CycleRejected | src/dns/parser.rs:53-85 | a walk that comes round to a position it has read, wherever it enters the cycle, is rejected |
| WireNames.SkipAgrees | src/dns/parser.rs:42-193 | when a name parses, skipping finds the same end, or fails exactly because the labels ran off the buffer |
| NameText.ParseNameWithOffset | src/dns/parser.rs:42-169 | the parser returns the printed labels of the walk, on any buffer, in both character modes |
| NameText.ParseLoopIsParseName | src/dns/parser.rs:53-169 | the loop with its 1024-octet text cap is the walk without any cap |
| NameText.TextCapNeverFires | src/dns/parser.rs:160-162 | names within the wire limits print to fewer than 1024 characters |
| NameText.StrictExactlyHostText | src/dns/parser.rs:103-109 | the strict mode accepts exactly the names whose text consists of small letters, digits, hyphens, underscores, stars and dots, with the same text |
| NameText.OctetText | src/dns/parser.rs:110-158 | how one octet prints: dot and backslash after a backslash, what can be seen in ASCII as itself in lower case, every other octet as three decimal digits of its value |
| Utf8.CopiesExactlyCharacters | src/dns/parser.rs:126-150 | a run of octets is copied if and only if it encodes a Unicode scalar value beyond ASCII (section 3 of RFC 3629) |
| Utf8.BeginsWithSpaceExactly | src/dns/parser.rs:2078-2081 | what trimming takes from the front of a text, one code point at a time, is exactly the code points with the property White_Space in UTF-8 |
| Utf8.EndsWithSpaceExactly | src/dns/parser.rs:2078-2081 | the same at the end |
| QueryWire.UnescapeUndoesEscape | src/dns/parser.rs:110-158 | unescaping a printed label gives its octets in lower case, for all octets |
| QueryWire.SplitUnescapeIsLower | src/dns/parser.rs:2077-2153 | splitting the text of a name and unescaping gives all its labels back in lower case when the text has no white space at its ends |
| QueryWire.SplitDomainLabels | src/dns/parser.rs:2077-2105 | the scanning loop returns the non-empty stretches between unescaped dots |
| QueryWire.BuildQueryWire | src/dns/parser.rs:2156-2181 | one question with the usable labels, the type and class IN |
| NameRoundTrip.QueryWalk | src/dns/parser.rs:2156-2181 | the question of a built query parses to the labels it was built from if they fit 255 octets, and not otherwise |
| NameRoundTrip.QueryIsMessage | src/dns/parser.rs:2156-2181 | a built query is the encoding of the message with recursion desired and one question: the labels, the type asked for and class IN |
| NameRoundTrip.QueryAsks | src/dns/parser.rs:2156-2181 | read back: one question, after its name the type asked for and class IN, and nothing behind |
| NameRoundTrip.RoundTripExactlyWhenTrimmed | src/dns/parser.rs:2077-2181 | for every name that ends at a root byte, through compression pointers: the query built from its text parses to the same name if and only if the text has no white space at its ends |
| NameRoundTrip.SpaceDoesNotSurvive | src/dns/parser.rs:2078-2081 | the label of one space is asked for as the root |
| Messages.Layout | src/dns/parser.rs:777-820 | the section walks find an encoded message's header, questions and records where the encoding puts them, whatever follows |
| Messages.RecordsBound | src/dns/parser.rs:796-820 | on any buffer the walk over records ends behind its start and inside the buffer |
| Messages.OptOfLocal | src/dns/parser.rs:822-851 | where the first OPT record is depends only on octets before its RDLENGTH |
| Edns.Response.AppendNewOpt | src/dns/parser.rs:857-870 | the new wire state: count raised with saturation, one root-named OPT record at the end |
| Edns.Response.AppendEde | src/dns/parser.rs:761-855 | the new wire state: the option with its text cut at 256 octets added to the first OPT record, or in a fresh one, or nothing when it does not fit |
| Edns.Response.AppendCookie | src/dns/parser.rs:1402-1490 | the same for a COOKIE option; an empty half changes nothing |
| EdeLaws.EdesAfterAppends | src/dns/parser.rs:761-855 | a reader of section 2 of RFC 8914 finds, after any EDE and COOKIE appends, the extended errors that were there and then the codes and first 256 octets of text of the calls, in order |
| Edns.CheckEdns | src/dns/parser.rs:873-933 | `has_edns` finds an OPT record exactly when the append functions would |
| EdnsLaws.HasEdnsExactlyWithOpt | src/dns/parser.rs:873-933 | on valid messages `has_edns` holds exactly if some additional record is OPT |
| EdnsLaws.AppendRefines | src/dns/parser.rs:761-870 | within the 16-bit limits the byte edit is the edit of the abstract message: old options then the new one, every other record, name and header field octet for octet as it was |
| EdnsLaws.AppendTooLong | src/dns/parser.rs:838-842 | an option that would take RDATA past 65535 octets changes nothing |
| EdnsLaws.AppendsAccumulate | src/dns/parser.rs:761-870 | any sequence of EDE and COOKIE appends leaves the old options followed by the new ones in order |
| EdnsLaws.AppendsLeaveOneOpt | src/dns/parser.rs:1402-1490 | after at least one append there is exactly one OPT record, `has_edns` holds, and all other records, the questions and the rest of the header are octet for octet as before |
| OptNames.RunsKeepNamesExactly | src/dns/parser.rs:853-870 | over all runs of appends within the 16-bit limits every name of the message that expands keeps its labels, if no name gets by its pointers to the insertion or beyond except to a root right there; and, when no name reads a rewritten length or straddles the insertion, only if |
| OptNames.NameKeptExactly | src/dns/parser.rs:853-855 | for any one name that neither reads a rewritten length nor straddles the insertion: every EDE or COOKIE append, fitting or not, keeps its labels if and only if it does not get to the insertion or beyond except to a root right there |
| OptNames.NamesAreRead | src/dns/parser.rs:42-169 | what a name of a message expands to is what parsing it gives, wherever it stands |
| OptNames.AppendLosesName | src/dns/parser.rs:853-855 | for every append that fits there is a message with a name that points past the insertion and loses its labels |
| OptNames.TornByAccident | src/dns/parser.rs:853-855 | a name that straddles the insertion can keep its labels whatever is appended |
| EdnsLaws.FreshOptCountedExactly | src/dns/parser.rs:857-862 | a fresh OPT record is found again if and only if there were fewer than 65535 additional records |
| CookieLaws.CookieIsFirst | src/dns/parser.rs:1300-1330 | `parse_dns_cookie` returns the first COOKIE option of at least eight octets, split after eight |
| CookieLaws.FirstCookieIs | src/dns/parser.rs:1317-1330 | that is the first option of code 10 with at least 8 octets; with at least 16 the octets from the ninth on are the server cookie |
| CookieLaws.CookieAfterAppends | src/dns/parser.rs:1267-1334 | after any appends: the cookie that was there, else the first one appended |
| CookieLaws.CookieComesBackExactlyIfFirst | src/dns/parser.rs:1402-1411 | an appended cookie of eight client and at least eight server octets is returned unchanged if and only if no other cookie came before |
| DoBit.EnsureRefinesExactly | src/dns/parser.rs:412-497 | unless the count is saturated, the DO bit is set in the first OPT record, or in a fresh one, and nothing else changes, if and only if there is no OPT record or the names up to it parse |
| DoTwice.IdempotentExactlyWithOpt | src/dns/parser.rs:412-497 | with an OPT record and names up to it that parse, none of which reads the octet of a clear DO bit as half a pointer: applying it twice is applying it once if and only if the bit was set or none of the names reads its octet as a length |
| DoTwice.IdempotentExactlyWithoutOpt | src/dns/parser.rs:412-497 | without an OPT record, when the names of the additional records end in a root byte and none reads the count: if and only if the count can grow |
| DoTwice.StuckNeverIdempotent | src/dns/parser.rs:412-497 | with an OPT record behind a name whose parse fails inside the message without reading the count: never |
| DoTwice.FlagNameLost | src/dns/parser.rs:412-497 | a message whose first name points at the octet of the DO bit: the names parse before, and a second call adds a second OPT record |
| DoBit.ResolvedStaysParsed | src/dns/parser.rs:440-470 | names compressed against octets between the header and themselves parse before and after |
| OptNames.DoKeepsNames | src/dns/parser.rs:412-497 | every name that does not read the flag octet, or the count when a record is added, keeps its labels |
| Ecs.StripKeepsOthers | src/dns/parser.rs:1211-1228 | on options that tile RDATA exactly those of code 8 go, the rest keep their order |
| Ecs.StripRefines | src/dns/parser.rs:1175-1193 | Strip mode is that edit of the abstract message, with the right RDLENGTH and every other record and name octet for octet as it was |
| Ecs.StripsNothingExactly | src/dns/parser.rs:1211-1228 | stripping leaves RDATA as it is if and only if it is tiled by options none of which has code 8 |
| OptNames.StripKeepsNames | src/dns/parser.rs:1175-1193 | names keep their labels if nothing is stripped, or if by their pointers they read nothing from RDLENGTH on |
| OptNames.StripLosesName | src/dns/parser.rs:1175-1193 | stripping an option takes the labels of a name that points past it |
| Ecs.StripIdempotent | src/dns/parser.rs:1122-1228 | stripping twice is stripping once, on any bytes at all |
| Truncation.FittingIsLongest | src/dns/parser.rs:1075-1096 | a prefix of the answers fits the room exactly when it is no longer than the one kept |
| Truncation.TruncateRefines | src/dns/parser.rs:1035-1099 | a message that is too long becomes its header with TC, its questions and the longest prefix of whole answers that fits, with ANCOUNT its length |
| Truncation.FitsExactlyWithQuestions | src/dns/parser.rs:1035-1099 | the result is within the limit if and only if the message is, or its header and questions are |
| Truncation.TruncateMalformed | src/dns/parser.rs:1035-1062 | when the questions cannot be skipped the header comes back alone, with TC set and otherwise as it was |
| Ttl.AgeIsAdditive | src/dns/cache.rs:282-352 | ageing by a and then by b is ageing by a + b, on any bytes at all |
| Ttl.SitesAfterAge | src/dns/cache.rs:317-350 | the record walk reads no octet it writes: afterwards it visits the same fields |
| Ttl.AgeWritesOnlyTtls | src/dns/cache.rs:335-347 | octets outside the TTL fields of records that are not OPT stay |
| Ttl.AgeRefines | src/dns/cache.rs:282-352 | on valid messages every TTL but those of OPT records loses the elapsed time, down to 1 |
| Ttl.MinIsLeast | src/dns/parser.rs:1947-1966 | the minimum is the TTL of an answer and no larger than any |
| Ttl.MinTtlOfAged | src/dns/parser.rs:1930-1967 | after ageing, the minimum is that of the aged answers |
| Ttl.MinTtlAfterAgeing | src/dns/cache.rs:345-347 | without OPT among the answers it is the old minimum less the elapsed time, at least 1 |
| Ring.NextExists | src/dns/dnssec.rs:637-647 | in a finite ordered ring every owner has exactly one next owner |
| Ring.CoveredOnce | src/dns/dnssec.rs:637-647 | every element outside the ring lies in exactly one owner's interval, rings of one owner included |
| TypeBitMaps.ContainsIsMembership | src/dns/dnssec.rs:611-634 | on the section 4.1.2 of RFC 4034 encoding of a set of types the reader is set membership |
| Nsec.CanonicalNameCmp | src/dns/dnssec.rs:586-608 | the right-to-left label loop is the lexicographic comparison of reversed label lists |
| Nsec.KeyOrder | src/dns/dnssec.rs:586-608 | that comparison is a strict total order |
| Nsec.KeyIsName | src/dns/dnssec.rs:586-591 | names compare equal exactly if they are one name up to trailing dots and letter case |
| Nsec.RecordCovers | src/dns/dnssec.rs:383-399 | `covers` is lying strictly between owner and next on the ring, and never for equal owner and next |
| Nsec.VerifyNxDomain | src/dns/dnssec.rs:1360-1370 | true exactly if some record covers the name |
| Nsec.MatchedOrCoveredOnce | src/dns/dnssec.rs:377-399 | over a ring of two names or more sorted by the comparison each text is matched by exactly one record or covered by exactly one, and matched exactly if it is in the zone |
| Nsec.TextOrderIsWireOrder | src/dns/dnssec.rs:586-608 | on names whose labels print without escapes the comparison is the order of section 6.1 of RFC 4034 |
| SignedZone.RightExactlyInSameOrder | src/dns/dnssec.rs:1360-1370 | over the full ring of a zone of two names or more signed in the order of RFC 4034, exactly the absent names are denied if and only if the comparison puts every two names of the zone the same way round as RFC 4034 |
| SignedZone.SoundExactlyInSameOrder | src/dns/dnssec.rs:1360-1370 | over such a zone no records of it, however few, ever deny a name of it, if and only if that condition holds |
| SignedZone.SameOrderDeniesNone | src/dns/dnssec.rs:1360-1370 | soundness for any records of any zone, one name included: under that condition no name of the zone is denied |
| SignedZone.AncestorFirst | src/dns/dnssec.rs:586-608 | in both orders every name comes after its ancestors, so the apex is least |
| PairOrder.PairAgreesExactly | src/dns/dnssec.rs:586-608 | two names below a common ancestor, by the first labels in which they differ, when these hold no dot: the comparison puts them the same way round as RFC 4034 if and only if the octets at the first difference say so |
| PairOrder.NamesAgreeExactly | src/dns/dnssec.rs:586-608 | the same for any two names without dots in labels, ancestors included |
| PairOrder.SameOrderByOctets | src/dns/dnssec.rs:586-608 | so a zone without dots in labels is in the same order in both if and only if all pairs agree by their octets |
| PairOrder.DottedNameMisorders | src/dns/dnssec.rs:586-608 | a dot in a label: `a\.b.c` comes before `b.c` in the standard and after it in the comparison |
| SignedZone.PlainZoneSameOrder | src/dns/dnssec.rs:586-608 | the names of a zone that need no escape come in the same order in both |
| SignedZone.EscapedNameMisorders | src/dns/dnssec.rs:383-399 | the record from `c` to `\\000.c` is in order on the wire and covers the existing name `0.c` |
| Nsec.VerifyNoData | src/dns/dnssec.rs:1373-1380 | the first matching record decides |
| Nsec.TypeDeniedExactlyWhenMatched | src/dns/dnssec.rs:1373-1380 | for any records of a zone and every name, escapes or not: a type is denied if and only if some record is the name's and the zone has the name without the type and, unless CNAME is asked, without an alias |
| Nsec.TypeDeniedExactlyWhenAbsent | src/dns/dnssec.rs:1373-1380 | so with a record for every name a type is denied if and only if it is lacking |
| CanonicalName.CanonicalWireName | src/dns/dnssec.rs:697-711 | the wire form of the labels found by trimming, lowering and splitting at every dot, with length octets that wrap at 256 |
| CanonicalName.CanonicalInjective | src/dns/dnssec.rs:697-711 | the wire form of a name is that of no other labels, wrapped lengths included |
| CanonicalName.CanonicalIsWireName | src/dns/dnssec.rs:697-711 | of a name it is the uncompressed name on the wire, root octet included (section 6.2 of RFC 4034) |
| CanonicalName.ReadExactlyWhenRight | src/dns/dnssec.rs:697-711 | the text of a name is read as that name if and only if none of its octets needs an escape and no white space begins or ends the name |
| Nsec3.VerifyNxDomain | src/dns/dnssec.rs:1268-1328 | true exactly if the name is covered, or some ancestor is matched while its child towards the name is covered |
| Nsec3.DenialNeedsParameters | src/dns/dnssec.rs:651-658 | neither a name nor a type is denied unless the first record names SHA-1 and at most 150 iterations |
| Nsec3.CoversIs | src/dns/dnssec.rs:637-647 | a record covers what lies strictly between its hashes on the ring, all but its owner if it is its own next one, and nothing when a hash is empty |
| Nsec3.MatchOrCover | src/dns/dnssec.rs:637-647 | with the full ring each wire form is matched or covered, never both |
| Nsec3.AbsentIsDenied | src/dns/dnssec.rs:1268-1328 | with the full ring every absent name that is read right is denied |
| Nsec3.DeniedIsAbsent | src/dns/dnssec.rs:1268-1328 | records of the zone's ring never deny a trustworthy name of the zone, by direct cover or by closest encloser |
| Nsec3.DeniedExactlyWhenAbsent | src/dns/dnssec.rs:1268-1328 | with the full ring denial and presence are opposites for trustworthy names |
| Nsec3.RightExactlyWhenTrustworthy | src/dns/dnssec.rs:1268-1328 | for every wire name: no zone's full ring makes the verifier answer wrongly about it if and only if none of its octets needs an escape, no white space begins or ends it, and no label between the first and the last begins with white space |
| Nsec3.InnerBlankMisleads | src/dns/dnssec.rs:1290-1326 | a name that is read right but has an inner label beginning with white space is denied by every full ring of some zone that holds it |
| Nsec3.MisreadIsDenied | src/dns/dnssec.rs:697-711 | a name that is not read right is denied by every full ring of some zone that holds it |
| Nsec3.AbsentBlankNotDenied | src/dns/dnssec.rs:697-711 | the absent name of the labels ` a` and `c` is not denied by the full ring of the zone of `a.c` |
| Nsec3.LeadingBlankLost | src/dns/dnssec.rs:697-711 | the name of ` a` and `c` is read as `a.c` |
| Nsec3.TrailingBlankLost | src/dns/dnssec.rs:697-711 | the name of `a` and `b ` is read as `a.b` |
| Nsec3.DottedLabelSplits | src/dns/dnssec.rs:697-711 | the one label `a.b` is split at its escaped dot |
| Nsec3.VerifyNoData | src/dns/dnssec.rs:1332-1357 | true exactly if a record at the name's hash lacks the type |
| Nsec3.TypeDeniedExactlyWhenMatched | src/dns/dnssec.rs:1332-1357 | for any records of the zone's ring and a name that is read right: a type is denied if and only if some record is at the name's hash and the zone has the name without the type and, unless CNAME is asked, without an alias |
| Nsec3.TypeDeniedExactlyWhenAbsent | src/dns/dnssec.rs:1332-1357 | so with the full ring a type is denied if and only if it is lacking |
| Nsec3.TypesRightExactlyWhenRead | src/dns/dnssec.rs:1332-1357 | for every wire name: types are judged rightly over every zone if and only if the name is read right |
| Bloom.BloomFilter.InsertBytes | src/security/bloom.rs:139-158 | the set bits become the old ones and the key's probes; every word index is in bounds |
| Bloom.BloomFilter.ContainsBytes | src/security/bloom.rs:169-189 | true exactly if the cleaned key is not empty and all its probes are set |
| Bloom.BitsAreProbes | src/security/bloom.rs:139-158 | after any inserts a bit is set if and only if some inserted key probes it |
| Bloom.CleanCutsEnds | src/security/bloom.rs:400-416 | cleaning a key cuts ASCII white space in front and white space and dots behind, all of it and nothing else |
| Bloom.NoFalseNegatives | src/security/bloom.rs:139-189 | an inserted key is found, however its letters are cased and whatever blanks or dots end it |
| Bloom.ProbeIsLinear | src/security/bloom.rs:147-149 | wrapping to 64 bits does not show in the masked index |
| Bloom.ProbesDistinct | src/security/bloom.rs:122-129 | the up to 20 probes of one key are pairwise distinct, since the step is odd and the size a power of two of at least 512 |
| BloomWire.WireAgreesWithText | src/security/bloom.rs:201-282 | whenever strict parsing yields a name, through compression pointers, the look-up from the wire is the look-up of that name's text |
| BloomWire.SubdomainsAgree | src/security/bloom.rs:286-346 | it is the disjunction over the name and its suffixes of two labels or more that begin at one of the first 63 labels |
| BloomWire.HitReadsWholeLabels | src/security/bloom.rs:286-346 | on any buffer a hit reads whole labels of 1 to 63 octets |
| BloomWire.WireHitIsThreat | src/state.rs:1113-1134 | a hit from the wire is a hit of `is_threat_bloom` on the parsed name |
| RateLimit.TakeAvailable | src/security/rate_limit.rs:96-107 | a token is granted exactly when one is available and is then the only change to what is available to any key |
| RateLimit.CheckTakes | src/security/rate_limit.rs:251-298 | a request is allowed exactly if its identity and its address both have a token; what each of them and every other loses, and both counters |
| RateLimit.RateLimiter.CheckWithIdentity | src/security/rate_limit.rs:251-298 | the whole new state over both maps of bucket objects and the counters; exempt addresses change nothing |
| RateLimit.RateLimiter.PruneIdle | src/security/rate_limit.rs:313-325 | exactly the buckets idle for 60 seconds are dropped |
| RateLimit.RateLimiter.Clear | src/security/rate_limit.rs:328-335 | every bucket is dropped and the counters stay |
| Addresses.ExemptByRanges | src/security/rate_limit.rs:348-379 | an address is exempt exactly if its 128-bit number lies in ::1, fc00::/7, fe80::/10 or, mapped, in one of the five private IPv4 ranges |
| Addresses.SameIdentityExactly | src/security/rate_limit.rs:54-70 | two requests share a bucket exactly if their addresses have one number, IPv4 ones as mapped, and they name no device or the same first 64 octets of one |
| RateLimit.AvailableLater | src/security/rate_limit.rs:96-99 | time only adds the refill, up to the capacity |
| RateLimit.WindowBound | src/security/rate_limit.rs:251-298 | after any run, in every window without `clear`, and with prunes only if idle buckets refill in time, at most capacity plus refill times length requests are allowed, per identity and per address across its identities |
| RateLimit.PruneInvisible | src/security/rate_limit.rs:313-325 | when idle buckets are full again before they may be pruned, prunes interleaved in any way change no answer, no count of refusals and no count of exhausted identities |
| RateLimit.ConfiguredCovers | src/state.rs:305-305 | the configured limits meet that condition |
| Pruning.PruneShowsExactly | src/security/rate_limit.rs:313-325 | some run is answered differently without its prunes if and only if both capacities are at least 1 and a bucket of one level does not refill within 60 seconds |
| RateLimit.AllowedOrBlocked | src/security/rate_limit.rs:286-297 | allowed plus blocked is the number of requests that are not exempt, over every run |
| Glob.MatcherIsGlob | src/state.rs:1293-1323 | on texts without `*` it decides exactly the recursive glob, for every pattern |
| Glob.MatcherIsSound | src/state.rs:1293-1323 | on any text a match reported is a match |
| Glob.CompleteExactlyWithoutStar | src/state.rs:1302-1305 | it agrees with the glob on every pattern if and only if the text has no `*` |
| Rules.IsBypassed | src/state.rs:816-844 | the set look-up and the cursor over parents find exactly a listed name, parent or subdomain rule |
| Rules.MatchesWhatItCovers | src/state.rs:1326-1347 | on names without `*`: a subdomain rule matches exactly the names under its apex, a plain rule exactly a name and those under it, any other pattern exactly as the recursive glob; the first two on any name |
| Rules.BypassIsLinearScan | src/state.rs:816-844 | for names without `*` or white space: bypassed if and only if some rule covers the name in that sense or the subdomain rule of the name itself is listed |
| Rules.SplitKeepsRules | src/state.rs:886-955 | splitting rules into exact and wildcard lists loses and adds none |
| Rules.IsInstantBlocked | src/state.rs:848-883 | the look-ups on the compiled lists, when enabled and not bypassed |
| Rules.InstantIsLinearScan | src/state.rs:848-955 | the compiled indexes decide exactly whether some rule covers the name in that sense, if it has no `*`, and whether some rule matches it in any case |
| Cascade.AppState.CheckDomain | src/state.rs:531-725 | the in-place check answers and learns as the cascade says, evicting an oldest learned entry; under the invariant the answer and all three lists afterwards follow from the lists before |
| Cascade.AnswerFromLists | src/state.rs:531-725 | which list wins, under the invariant: blocked if and only if blocking is on, the name is not bypassed, and it is on the instant list or not exactly white-listed and scheduled, exactly blocked, or not protected by a wildcard white list and on the wildcard list, the feed or detected; NXDOMAIN unless the schedule blocks |
| Cascade.LeavesFromLists | src/state.rs:1136-1253 | what a check leaves: the filter entry of a blocked name, the block entry of a denied one with the limits of 2000 and 2500 entries, the white entry of an allowed one |
| Cascade.ListsAreScans | src/state.rs:1000-1134 | for tidy names without `*` the wildcard lists and Bloom filters are scans: a rule above the name, the top-level domain aside, or a rule with `*` that covers it |
| Cascade.StarredNamesUnlearned | src/state.rs:966-993 | what was learned says nothing about names with `*` |
| Cascade.EvictsOldestLearned | src/state.rs:1192-1253 | recording a block drops no entry but, from 2000 on, one of the oldest learned ones, and changes none |
| Cascade.FilterStepTransparent | src/state.rs:557-562 | in any state with the invariant the filter step changes no answer |
| Cascade.RunKeepsFilterInv | src/state.rs:531-725 | whatever is in the filter stays justified by the lists over every run of checks and filter losses |
| Cascade.FilterTransparent | src/state.rs:531-725 | in every reachable state a check gives the same pair as the cascade without the filter step |
| Cascade.FilterFreeRunAgrees | src/state.rs:531-725 | a system without the filter, given the same neural verdict at every check (in the source a filter hit also skips the training that `record_detected_block` does, so later verdicts could differ), gives every answer the same and learns the same lists |
| Levenshtein.LevenshteinDist | src/security/heuristics.rs:253-271 | the single in-place row computes the distance, for all pairs |
| Levenshtein.NoScriptIsShorter | src/security/heuristics.rs:253-271 | no insert, delete and substitute script costs less |
| Levenshtein.ShortestScript | src/security/heuristics.rs:253-271 | some script costs exactly the distance |
| Levenshtein.ZeroExactlyOnEqual | src/security/heuristics.rs:253-271 | the distance is zero if and only if the strings are equal |
| Levenshtein.Symmetric | src/security/heuristics.rs:253-271 | the distance is symmetric |
| Levenshtein.TriangleInequality | src/security/heuristics.rs:253-271 | the distance satisfies the triangle inequality |
| Der.ChildrenTile | src/dns/pkcs7.rs:121-130 | laid end to end the children are the content, and each is a whole element on its own |
| Der.ParsesExactlyDefiniteForms | src/dns/pkcs7.rs:76-119 | exactly a tag, a definite length of at most four octets after the first, and as much content parse |
| Der.IntegerKeepsValue | src/dns/dnssec.rs:1008-1024 | the printed INTEGER is non-negative, minimal and of the same value |
| Der.KeyRoundTrip | src/dns/dnssec.rs:1029-1062 | the printed key parses to one SEQUENCE with nothing after it, whose children are exactly modulus and exponent |
| Der.PrintedKeyHoldsModulusThenExponent | src/dns/dnssec.rs:1026-1062 | for a key printed from an exponent and a modulus by section 2 of RFC 3110, with either form of the length: the DER parses to one SEQUENCE with two minimal INTEGERs, the modulus and then the exponent, while it fits the two-octet length |
| Der.NoneExactlyWhenNotAKey | src/dns/dnssec.rs:1029-1050 | no DER is printed exactly for octets that no exponent and modulus print |
| Der.KeyParsesWholeExactly | src/dns/dnssec.rs:994-1005 | it parses back whole if and only if its content is shorter than 65536 octets |
| Base32.Base32HexDecode | src/dns/dnssec.rs:564-583 | the same for decoding, with the error case |
| Base32.RoundTrip | src/dns/dnssec.rs:543-583 | decoding what was encoded gives the octets back, for every octet string |
| Base32Order.TextKeepsOrder | src/dns/dnssec.rs:541-561 | encoded texts come in the order of the octet strings, prefixes first |
| Base32Order.AlphabetIs | src/dns/dnssec.rs:541-577 | values print and are read by table 4 of RFC 4648 in lower case |
| Base32Order.ReadInAnyCase | src/dns/dnssec.rs:564-583 | encoded text is read back in any case of letters and with white space around it |
| WireNames.SkipDnsName | src/dns/parser.rs:173-193 | the skipping loop, equal to its specification |
| QueryWire.UnescapeLabelToBytes | src/dns/parser.rs:2108-2153 | the unescaping loop, equal to its specification |
| Messages.SkipToAdditional | src/dns/parser.rs:777-820 | the loops to the additional section, equal to their specification |
| Edns.ParseDnsCookie | src/dns/parser.rs:1267-1334 | the scanning loops, equal to their specification |
| DoBit.EnsureEdns0DoBit | src/dns/parser.rs:412-497 | the loops and the edit, equal to their specification on any bytes |
| Ecs.ProcessEcsStrip | src/dns/parser.rs:1122-1209 | the loops, one of which lets a record overrun, find the same OPT record as the others; equal to the specification on any bytes |
| Truncation.TruncateResponseProperly | src/dns/parser.rs:1035-1099 | the loops and the header edits, equal to their specification on any bytes |
| Ttl.DecrementResponseTtl | src/dns/cache.rs:282-352 | the in-place loop, equal to its specification on any bytes |
| Ttl.ExtractMinTtl | src/dns/parser.rs:1930-1967 | the answer loop, equal to its specification |
| TypeBitMaps.ContainsType | src/dns/dnssec.rs:611-634 | the block loop, equal to its specification on any bytes |
| BloomWire.ContainsWire | src/security/bloom.rs:201-282 | the streaming loop, equal to its specification on any bytes |
| BloomWire.ContainsWireWithSubdomains | src/security/bloom.rs:286-346 | the label-offset loop and the look-ups, equal to their specification on any bytes |
| Glob.WildcardMatch | src/state.rs:1293-1323 | the loop that backtracks to the last star terminates and is its specification |
| Der.RsaDnskeyToPkcs1Der | src/dns/dnssec.rs:1029-1062 | the printer, equal to its specification with every error case |
| Der.ParseElement | src/dns/pkcs7.rs:76-119 | the length loop and the bounds checks, equal to their specification on any bytes |
| Base32.Base32HexEncode | src/dns/dnssec.rs:543-561 | the loop with its unmasked 64-bit buffer, equal to its specification |

## Left out

- Listeners, TLS, ACME, DDNS, feed download, dashboards, write-ahead log and metrics: input and output.
- The hedged upstream race around the coalescing protocol: it depends on timers and on how a library polls futures.
- Signature and digest verification and the `validate_dnssec` pipeline: the NSEC3 hash is an arbitrary function of wire form, salt and iterations without collisions.
- Scores in floating point (entropy, neural verdict, latency averages, false-positive rates): arbitrary predicates or inputs.
- `parse_dns_query_opts`, `cap_response_ttl`, `make_key` and `get_with_swr`: they would repeat the walks and edits proved here or add only case distinctions.
- The Anonymize mode of `process_ecs_option`: it overwrites octets inside one option and changes no length.
- OptNames.RunsKeepNamesExactly: for a name that reads a rewritten length or straddles the insertion nothing is decided, because such a name can come out the same by accident (`OptNames.TornByAccident`).
- OptNames.StripKeepsNames: one direction only; stripping is one fixed edit, and a name that points past it may find the same labels there by chance.
- DoTwice.IdempotentExactlyWithOpt: a name that reads the octet of the DO bit as the low half of a pointer jumps 128 octets further once the bit is set and may parse there or not by chance; of names that do not parse, those are decided whose parse fails whatever follows the message (`DoTwice.StuckNeverIdempotent`).
- DoTwice.IdempotentExactlyWithoutOpt: names that read the count, or run past the end of the message, may parse or not by chance once the record is there.
- Bloom.Feed: the two hash rounds and the final mixer are parameters; nothing stated depends on their constants.
- Bloom.BloomFilter.constructor: the sizes computed in floating point by `with_capacity` become a given exponent between 9 and 64.
- RateLimit.IdentityOf: cutting a device name at 64 octets inside a character would abort the source; the model cuts octets.
- RateLimit.RateLimiter.CheckWithIdentity: the 32 locked stripes are one map; which lock guards a bucket does not show in the answers. A bucket created during a check starts at the time of the check.
- Rules.SplitRules: `normalize_instant_block_line` is not part of this model; rules come in the form it is meant to give them.
- SignedZone.RightExactlyInSameOrder: names are taken in lower case, as `parse_dns_query` prints them and the comparison makes them.
- PairOrder.NamesAgreeExactly: labels hold no dot; a dot in a label cuts it in two for the comparison, so no one pair of octets decides there (`PairOrder.DottedNameMisorders`). `SignedZone.RightExactlyInSameOrder` covers such names.
- Pruning.PruneShowsExactly: the address's capacity is below half the number of device names of some length up to 64 letters, since a bucket can only be drained by that many devices.
- Cascade.AppState.CheckDomain: the heuristics, schedule and Bloom filters do not change between the checks of a run, and the hour is fixed.
- The concurrent map of the fast negative filter may lose entries at any step (`Forget`); its own eviction policy is not part of this model.
