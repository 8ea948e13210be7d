# ipindn — a verified model of the IP-in-domain-name responder

`ipindn` is a CoreDNS plugin that answers address queries by reading the
address out of the query name itself: `foo.10-0-0-1.example.com.` in the zone
`example.com.` is answered with an A record for `10.0.0.1`. This project
models its core, `ipindn/ipindn.go`, in Dafny. It has three layers:

- **Subdomain decoder** (`parseIP`). The decoder takes the first configured
  zone that the lower-cased name ends with. It strips that zone and runs a
  fixed reject ladder over what is left. It then picks the address family by
  the length of the label next to the zone, and hands the text to
  `net.ParseIP` after replacing `-` by `.` or `:`.
- **Record synthesis and collection** (`tryAnswerIP`). Each class-IN A/AAAA
  question whose name decodes gives one record. The record is type A when the
  address is IPv4-representable (`To4`), whatever type was asked for. The
  query is answered when at least one record was produced.
- **Responder** (`ServeDNS`). The decision is stated once for any name
  decoder (`Respond`) and then applied to the configured one. There are
  three outcomes. A name outside the
  configured zones is delegated. An answered query succeeds with an
  authoritative reply. Anything else is delegated if the fallthrough policy
  covers the name, and fails with SERVFAIL otherwise.

Modules, one per concept:

| file | module | models |
|---|---|---|
| `wrappers.dfy` | `Wrappers` | `Option`, for Go's `nil` results |
| `text.dfy` | `Text` | `strings.ToLower` (ASCII), `HasSuffix`, `Split`, `Replace` |
| `ipv4.dfy` | `IPv4` | dotted-decimal text ↔ four octets |
| `address.dfy` | `Address` | 16-byte `net.IP`, `To4`, `net.ParseIP`'s family dispatch, the abstract IPv6 parser |
| `zones.dfy` | `Zones` | label-aligned zone authorisation (`plugin.Zones.Matches`) |
| `decoder.dfy` | `Decoder` | `parseIP` |
| `answer.dfy` | `Answer` | `tryAnswerIP` |
| `responder.dfy` | `Responder` | `ServeDNS`, the configuration record |
| `scenarios.dfy` | `Scenarios` | concrete queries against `example.com.` |

Modelling choices:

- `net.ParseIP` looks at the first `.`, `:` or `%` in the text. On `.` it
  runs the IPv4 parser. On `:` it runs the IPv6 parser. Otherwise it fails.
  The IPv4 parser is modelled concretely. It needs four non-empty decimal
  fields, each at most 255 and without a leading zero. Go has rejected
  leading zeros since release 1.17.
- The IPv6 text parser (section 2.2 of RFC 4291) is a parameter of the
  model: any partial function from text to 16 bytes. One lemma also assumes
  `Rfc4291Shaped`: without a `.`, only eight pieces or a `::` are accepted.
- IPv4 results are kept in Go's 16-byte form, behind the IPv4-mapped prefix
  `::ffff:0:0/96` (section 2.5.5.2 of RFC 4291). `To4` recovers them.
- Zone authorisation is modelled as a predicate. A name is in a zone when it
  equals the zone or ends with `.` plus the zone, ignoring ASCII case. The
  root zone contains every name. This is distinct from the decoder's
  plain-suffix scan (`ipindn/ipindn.go:116-120`).
- The fallthrough policy (`fall.F.Through`) is a predicate on the query name.
  The next handler is reduced to the outcome `Delegate`.
- The query name used for authorisation is CoreDNS's `request.Name()`: the
  lower-cased first question, or `.` when there is no question.

Where the code and the format's description disagree, the model follows the
code:

- `2001-db8--1` is 11 characters long, so it takes the IPv4 branch and never
  decodes (`Scenarios.ShortIPv6LiteralAbsent`, `Scenarios.ShortIPv6NameFails`).
- An IPv4 address whose dashed form is exactly 15 characters long
  (`255-255-255-255`, `192-168-100-100`) takes the IPv6 branch. No parser of
  the RFC 4291 text forms accepts it (`Decoder.FifteenCharQuadAbsent`). Only
  quads whose dashed form is shorter than 15 characters decode
  (`Decoder.DashedQuadDecodes`).
- The "IPv4 branch" still goes through the family-agnostic `net.ParseIP`. A
  short label such as `::1:2:3` reaches the IPv6 parser
  (`Scenarios.ColonLabelReachesV6`). The IPv4-only statement therefore holds
  for candidates without `:` (`Decoder.ShortCandidateIsQuad`).

The decoder's zone scan has no label-boundary check, but the reject ladder
requires a `.` right before the zone. So every name that decodes lies inside
a configured zone (`Responder.DecodedNameIsInZones`).

Decoding is a function of the question name, the zone list and the IPv6
parser only. Repeating a query gives the same records by construction, so no
lemma states it.

## Model

| member | source | states |
|---|---|---|
| `Text.Split` | ipindn/ipindn.go:133 | splitting gives at least one part, no part contains the separator, and joining the parts with the separator gives back the input |
| `Text.SplitJoin` | ipindn/ipindn.go:133 | splitting inverts joining on separator-free parts, so the parts of a string are unique |
| `Text.EndsWithSeparator` | ipindn/ipindn.go:133-139 | the split has at least two parts with an empty last one exactly when the subdomain ends in `.`; the second-to-last part is then the label right before that `.` |
| `IPv4.OctetRoundTrip` | ipindn/ipindn.go:156 | an IPv4 field parses to n exactly when it is n's canonical decimal text |
| `IPv4.ParseIPv4Iff` | ipindn/ipindn.go:156 | dotted text parses to a quad exactly when it is that quad's canonical rendering |
| `IPv4.RenderShape` | ipindn/ipindn.go:113-114 | a rendered quad is its octet texts joined by the separator and is 7 to 15 characters long |
| `Address.To4Mapped` | ipindn/ipindn.go:72 | `To4` yields an IPv4 address exactly when the 16 bytes are that address behind the `::ffff:0:0/96` prefix |
| `Address.FirstDelimiter` | ipindn/ipindn.go:152-156 | `net.ParseIP`'s dispatch character is absent exactly when no `.`, `:` or `%` occurs, and otherwise is the first of them in the text: it occurs at some position with no `.`, `:` or `%` before it |
| `Address.ParseIPDotted` | ipindn/ipindn.go:156 | text without `:` parses to an IPv4 address exactly when it is that address's dotted rendering, and any result is IPv4-representable |
| `Address.ParseIPStrayCharacter` | ipindn/ipindn.go:156 | text without `:` that holds a character other than a digit or `.` never parses |
| `Zones.SubDomainHasSuffix` | ipindn/ipindn.go:30 | for a lower-case, fully qualified name and a normalised zone, being in the zone implies ending with it as text |
| `Zones.BoundarySuffixIsSubDomain` | ipindn/ipindn.go:30 | a name that ends with a normalised zone right after a `.` is in that zone |
| `Decoder.FirstSuffixZone` | ipindn/ipindn.go:116-120 | no zone exactly when no configured zone is a plain suffix of the lower-cased name; otherwise the first such zone in configuration order |
| `Decoder.Candidate` | ipindn/ipindn.go:126-147 | a candidate is at least 7 long, does not end in `-`, contains no `.`, and is the label right before the subdomain's final `.`, preceded by `.` or nothing |
| `Decoder.CandidateOfLabels` | ipindn/ipindn.go:132-147 | any prefix labels, then a label and a `.`, yield that label exactly when it is at least 7 long and does not end in `-` |
| `Decoder.Decode` | ipindn/ipindn.go:111-161 | a name that ends with no configured zone decodes to nothing |
| `Decoder.DecodedZoneOnLabelBoundary` | ipindn/ipindn.go:116-137 | a name that decodes ends with its zone, with a `.` right before that zone |
| `Decoder.DashedQuadDecodes` | ipindn/ipindn.go:122-156 | `<prefix>.a-b-c-d.<zone>` decodes to a.b.c.d for every quad whose dashed form is shorter than 15 characters, when the zone is the first suffix zone |
| `Decoder.SingleZoneDecodes` | ipindn/ipindn.go:116-156 | the same with that lower-case zone as the only configured one |
| `Decoder.ShortCandidateIsQuad` | ipindn/ipindn.go:145-156 | a name whose candidate label is shorter than 15 characters and has no `:` decodes to an IPv4 address exactly when the label is that address's dashed form, and never to a non-IPv4 address |
| `Decoder.DashedTextIsQuad` | ipindn/ipindn.go:155-156 | label text without `.` or `:`, with `-` replaced by `.`, parses to an IPv4 address exactly when it is that address's dashed form, and only ever to an IPv4-representable address |
| `Decoder.LongCandidateIsV6` | ipindn/ipindn.go:149-153 | a name whose candidate label is 15 or more characters long decodes to nothing or to the IPv6 parser's result on the label with `-` replaced by `:`, and always to the latter when the label holds a `-` and no `%` |
| `Decoder.FifteenCharQuadAbsent` | ipindn/ipindn.go:149-153 | a quad whose dashed form is exactly 15 characters long decodes to nothing under any RFC 4291-shaped IPv6 parser |
| `Decoder.LabelDecodes` | ipindn/ipindn.go:116-156 | under its first suffix zone, a name of prefix labels, a candidate label and the zone decodes exactly as that label does when it is at least 7 long and does not end in `-`, and to nothing otherwise |
| `Decoder.OnlyZoneCandidate` | ipindn/ipindn.go:116-156 | with one lower-case zone, the result depends only on the label next to the zone; prefix labels are ignored |
| `Scenarios.ShortIPv6LiteralAbsent` | ipindn/ipindn.go:149-156 | `2001-db8--1.example.com.` decodes to nothing, whatever the IPv6 parser |
| `Scenarios.BroadcastNameAbsent` | ipindn/ipindn.go:149-153 | `255-255-255-255.example.com.` decodes to nothing under any RFC 4291-shaped IPv6 parser |
| `Scenarios.ColonLabelReachesV6` | ipindn/ipindn.go:155-156 | the 7-character label `::1:2:3` in the IPv4 branch is handed to the IPv6 parser |
| `Answer.ContributionShape` | ipindn/ipindn.go:58-95 | a question adds one record exactly when it is class IN, asks for A or AAAA and decodes; the record echoes its name, carries the decoded address and is well-formed |
| `Answer.Collect` | ipindn/ipindn.go:56-96 | at most one record per question, every record has class IN, the configured TTL and type A exactly when IPv4-representable, and records exist exactly when some question answers |
| `Answer.CollectSources` | ipindn/ipindn.go:71-94 | every collected record echoes the name of an answering question and carries the address that name decodes to |
| `Answer.CollectAppend` | ipindn/ipindn.go:58-96 | the answer section of concatenated question lists is the concatenation of their answer sections, in question order |
| `Answer.CollectOne` | ipindn/ipindn.go:58-96 | one question alone gives its synthesized record when it answers and nothing otherwise |
| `Answer.QtypeIgnored` | ipindn/ipindn.go:64-94 | an A question and an AAAA question for the same name get the same records |
| `Answer.TryAnswer` | ipindn/ipindn.go:51-109 | a reply exists exactly when some question answers; it is authoritative, non-empty and holds exactly the collected records |
| `Responder.Respond` | ipindn/ipindn.go:26-46 | for any name decoder: outside every zone the query is delegated; it is answered exactly when in a zone with some question answering, with an authoritative non-empty reply of the collected records; otherwise it is delegated exactly when the fallthrough policy covers the name, and fails otherwise |
| `Responder.ServeDNS` | ipindn/ipindn.go:26-46 | with the configured decoder: outside every zone the query is delegated; an answered query is in a zone, has a question that decodes and carries the collected records; an in-zone query with nothing decoded is delegated exactly when the fallthrough policy covers the name, and fails otherwise |
| `Responder.AnsweredRecords` | ipindn/ipindn.go:71-104 | under a valid configuration every record of a reply has class IN, a TTL in 1..65535 equal to the configured one, type A exactly when IPv4-representable, and echoes a question that decoded to its address |
| `Responder.OutsideZonesIgnoresRest` | ipindn/ipindn.go:30-33 | outside the zones the outcome is delegation whatever the TTL, fallthrough policy or IPv6 parser |
| `Responder.AuthorisedNameHasSuffixZone` | ipindn/ipindn.go:116-120 | under a valid configuration, an authorised fully qualified first question always finds a zone in the decoder's suffix scan |
| `Responder.DecodedNameIsInZones` | ipindn/ipindn.go:116-137 | under normalised zones, every name that decodes lies inside a configured zone |
| `Scenarios.QuadQuestionAnswered` | ipindn/ipindn.go:26-109 | a lower-case dashed-quad question under `example.com.`, whose dashed form is shorter than 15 characters, is answered with exactly its A record |
| `Scenarios.PlainQuadAnswered` | ipindn/ipindn.go:26-109 | `1-2-3-4.example.com.` of type A is answered with an A record for 1.2.3.4 and the configured TTL |
| `Scenarios.PrefixLabelIgnored` | ipindn/ipindn.go:132-139 | `host.10-0-0-1.example.com.` is answered with an A record for 10.0.0.1 |
| `Scenarios.UndecodedQuestion` | ipindn/ipindn.go:39-45 | an in-zone question that does not decode is delegated or failed as the fallthrough policy says |
| `Scenarios.ShortIPv6NameFails` | ipindn/ipindn.go:149-156 | `2001-db8--1.example.com.` of type AAAA without fallthrough fails |
| `Scenarios.RandomNameNotDecoded` | ipindn/ipindn.go:145-147 | `random.example.com.` does not decode, because its candidate is too short |
| `Scenarios.RandomNameFails` | ipindn/ipindn.go:44-45 | `random.example.com.` without fallthrough fails |
| `Scenarios.RandomNameFallsThrough` | ipindn/ipindn.go:39-41 | `random.example.com.` with fallthrough for every name is delegated |
| `Scenarios.ForeignNameDelegated` | ipindn/ipindn.go:30-33 | `foo.bar.org.` is delegated whatever the policy |

## Left out

- `ipindn/setup.go` (directive parsing, plugin registration, logger construction) is not modelled. `Responder.ValidConfig` states what it guarantees: at least one zone, normalised zones, TTL in 1..65535.
- Wire I/O is not modelled: `SetReply`, `WriteMsg` and the header fields other than the AA bit. The reply is the abstract `Reply(authoritative, answer)`.
- `plugin.NextOrFailure` and `context` are not modelled. Calling the next handler is the outcome `Delegate`; the case of a missing next handler is not modelled. Rcode values become outcome tags.
- The internals of `fall.F.Through` are not modelled; the policy is an opaque predicate on the name.
- `plugin.Zones.Matches` is not part of this model beyond whether it finds a zone. Its longest-match choice and `dns.IsSubDomain`'s handling of escaped labels are left out; only the emptiness of the match affects the outcome.
- Logging (`ipindn/ipindn.go:159` and the commented-out debug lines) is not modelled.
- The IPv6 text parser is abstract; only the `::ffff:0:0/96` mapping that `To4` needs is concrete.
- Lower-casing is ASCII only. Go's Unicode `ToLower` can change a string's byte length, and with it the subdomain offsets; that is not modelled.
- Nothing is modelled for concurrency: the handler keeps no state.
- Responder.ServeDNS: its own contract gives only the forward direction of "answered exactly when in a zone with a question that decodes". The converse comes from `Responder.Respond`, which `ServeDNS` applies to the configured decoder.
- Decoder.LongCandidateIsV6: does not state that every valid dashed IPv6 literal of 15 or more characters decodes to its address, because the IPv6 parser is abstract.
